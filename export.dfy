/** The traversal engine (`process_file` and `process_link` in
    obsidian_mkdocs/main.py): starting from one note, rewrite every link of
    every note reachable through resolved links, copy each newly found target
    into the output tree, and recurse into newly found notes, depth first. */
module Export {

  import opened Strings
  import opened Links
  import opened Paths
  import opened Resolve
  import opened BlankLines

  /** A piece of a note's normalised text as the two link patterns see it:
      plain text, or one match of either pattern. */
  datatype Piece = Text(text: string) | Bracketed(bm: BracketMatch) | Wiki(wm: WikiMatch)

  /** What the exporter is given: the vault, its link format, and the scan of
      a normalised text into pieces (the regular-expression search). */
  datatype Site = Site(vault: Vault, format: string, scan: string -> seq<Piece>)

  function LinkOf(p: Piece): Link
    requires !p.Text?
  {
    if p.Bracketed? then BracketMatchToLink(p.bm) else WikiMatchToLink(p.wm)
  }

  /** Links such as `https://…` or `file://…` are left alone. */
  predicate IsExternal(l: Link) {
    Contains(l.path, "://")
  }

  predicate IsImage(target: string) {
    EndsWith(target, ".jpg") || EndsWith(target, ".gif") || EndsWith(target, ".png") || EndsWith(target, ".svg")
  }

  /** The text `process_link` puts in place of link `l` of the note at
      `parent`, given what the link resolved to. */
  function Rewrite(l: Link, parent: string, resolved: Option<string>): string {
    if IsExternal(l) then RenderLink(l)
    else match resolved
      case None => RenderLink(l.(alias := Some(l.path + " -file not found-")))
      case Some(t) =>
        var rel := RelPath(t, Dirname(parent));
        if IsImage(t) then RenderImageLink(l.(path := rel))
        else RenderLink(l.(alias := DisplayAlias(l), path := rel))
  }

  // ---------------------------------------------------------------------------
  // The link graph of a site

  /** The pieces of vault file `f` once normalised. */
  function Pieces(s: Site, f: string): seq<Piece> {
    if f in s.vault.files then s.scan(Normalize(s.vault.files[f])) else []
  }

  /** The file a link of `parent` resolves to; external links are never
      resolved, and an empty path counts as not found. */
  function Resolution(s: Site, parent: string, l: Link): (r: Option<string>)
    ensures r.Some? ==> r.value in s.vault.files && r.value != ""
    ensures IsExternal(l) ==> r.None?
  {
    if IsExternal(l) then None
    else
      var found := FindLinkedFile(s.vault, s.format, l.path, parent);
      if Present(found) then found else None
  }

  ghost function NoteLinks(s: Site, f: string): set<Link> {
    var ps := Pieces(s, f);
    set i | 0 <= i < |ps| && !ps[i].Text? :: LinkOf(ps[i])
  }

  /** Every file a link of `f` resolves to. */
  ghost function Targets(s: Site, f: string): set<string> {
    set l | l in NoteLinks(s, f) && Resolution(s, f, l).Some? :: Resolution(s, f, l).value
  }

  /** The notes `f` links to: the edges the traversal follows. */
  ghost function Children(s: Site, f: string): set<string> {
    set t | t in Targets(s, f) && EndsWith(t, ".md")
  }

  ghost predicate IsChain(s: Site, c: seq<string>) {
    forall i :: 0 <= i < |c| - 1 ==> c[i + 1] in Children(s, c[i])
  }

  /** `b` is `a` or is reached from `a` by following resolved links to notes. */
  ghost predicate Reachable(s: Site, a: string, b: string) {
    exists c :: IsChain(s, c) && |c| > 0 && c[0] == a && c[|c| - 1] == b
  }

  lemma ReachableSelf(s: Site, a: string)
    ensures Reachable(s, a, a)
  {
    assert IsChain(s, [a]);
  }

  lemma ReachableStep(s: Site, a: string, b: string, t: string)
    requires Reachable(s, a, b) && t in Children(s, b)
    ensures Reachable(s, a, t)
  {
    var c :| IsChain(s, c) && |c| > 0 && c[0] == a && c[|c| - 1] == b;
    var c' := c + [t];
    assert IsChain(s, c') by {
      forall i | 0 <= i < |c'| - 1 ensures c'[i + 1] in Children(s, c'[i]) {
        if i < |c| - 1 { assert c'[i] == c[i] && c'[i + 1] == c[i + 1]; }
      }
    }
  }

  lemma {:induction false} ChainStaysInside(s: Site, S: set<string>, c: seq<string>)
    requires IsChain(s, c) && |c| > 0 && c[0] in S
    requires forall f :: f in S ==> Children(s, f) <= S
    ensures c[|c| - 1] in S
  {
    if |c| > 1 {
      var c' := c[..|c| - 1];
      assert IsChain(s, c') by {
        forall i | 0 <= i < |c'| - 1 ensures c'[i + 1] in Children(s, c'[i]) {
          assert c'[i] == c[i] && c'[i + 1] == c[i + 1];
        }
      }
      ChainStaysInside(s, S, c');
      assert c[|c| - 1] in Children(s, c[|c| - 2]);
    }
  }

  /** A set of files that holds `a` and every note its files link to holds
      everything reachable from `a`. */
  lemma ClosedSetHoldsReachable(s: Site, S: set<string>, a: string, b: string)
    requires a in S && forall f :: f in S ==> Children(s, f) <= S
    requires Reachable(s, a, b)
    ensures b in S
  {
    var c :| IsChain(s, c) && |c| > 0 && c[0] == a && c[|c| - 1] == b;
    ChainStaysInside(s, S, c);
  }

  // ---------------------------------------------------------------------------
  // The two substitution passes over a note

  /** Whether the pass for wikilinks (`wiki`) or for bracketed links rewrites
      this piece. */
  predicate Handles(p: Piece, wiki: bool)
    ensures Handles(p, wiki) ==> !p.Text?
  {
    if wiki then p.Wiki? else p.Bracketed?
  }

  function SubstitutePiece(s: Site, f: string, p: Piece, wiki: bool): Piece {
    if Handles(p, wiki) then
      var l := LinkOf(p);
      Text(Rewrite(l, f, Resolution(s, f, l)))
    else p
  }

  /** One `re.sub` pass over the pieces of note `f`. */
  function Substitute(s: Site, f: string, ps: seq<Piece>, wiki: bool): seq<Piece> {
    seq(|ps|, i requires 0 <= i < |ps| => SubstitutePiece(s, f, ps[i], wiki))
  }

  lemma SubstituteAt(s: Site, f: string, ps: seq<Piece>, wiki: bool)
    ensures |Substitute(s, f, ps, wiki)| == |ps|
    ensures forall i :: 0 <= i < |ps| ==> Substitute(s, f, ps, wiki)[i] == SubstitutePiece(s, f, ps[i], wiki)
  {
  }

  function Flatten(ps: seq<Piece>): string {
    if ps == [] then ""
    else (if ps[0].Text? then ps[0].text else "") + Flatten(ps[1..])
  }

  /** The text written for note `f`: bracketed links rewritten first, then
      wikilinks in the result. */
  function OutputText(s: Site, f: string): string {
    Flatten(Substitute(s, f, Substitute(s, f, Pieces(s, f), false), true))
  }

  /** The text written for a piece: plain text as it is, a link of either
      syntax as `process_link` rewrites it. */
  function PieceText(s: Site, f: string, p: Piece): string {
    if p.Text? then p.text else
      var l := LinkOf(p);
      Rewrite(l, f, Resolution(s, f, l))
  }

  /** After the two passes every piece of the note is text: plain text is
      unchanged and each link of either syntax has been rewritten exactly once,
      so the text written is the pieces' texts in order, none dropped. */
  lemma {:induction false} BothPassesRewriteEveryLink(s: Site, f: string)
    ensures var ps := Pieces(s, f);
            var out := Substitute(s, f, Substitute(s, f, ps, false), true);
            |out| == |ps|
            && (forall i :: 0 <= i < |ps| ==> out[i] == Text(PieceText(s, f, ps[i])))
            && OutputText(s, f) == TextsOf(s, f, ps)
  {
    var ps := Pieces(s, f);
    var mid := Substitute(s, f, ps, false);
    var out := Substitute(s, f, mid, true);
    SubstituteAt(s, f, ps, false);
    SubstituteAt(s, f, mid, true);
    forall i | 0 <= i < |ps| ensures out[i] == Text(PieceText(s, f, ps[i])) {
      assert mid[i] == SubstitutePiece(s, f, ps[i], false);
      assert out[i] == SubstitutePiece(s, f, mid[i], true);
    }
    FlattenTexts(s, f, ps, out);
  }

  /** The texts of `ps`, concatenated in order. */
  function TextsOf(s: Site, f: string, ps: seq<Piece>): string {
    if ps == [] then "" else PieceText(s, f, ps[0]) + TextsOf(s, f, ps[1..])
  }

  lemma {:induction false} FlattenTexts(s: Site, f: string, ps: seq<Piece>, out: seq<Piece>)
    requires |out| == |ps|
    requires forall i :: 0 <= i < |ps| ==> out[i] == Text(PieceText(s, f, ps[i]))
    ensures Flatten(out) == TextsOf(s, f, ps)
  {
    if ps != [] {
      assert out[0] == Text(PieceText(s, f, ps[0]));
      FlattenTexts(s, f, ps[1..], out[1..]);
    }
  }

  // ---------------------------------------------------------------------------
  // Rewriting one link

  /** A `scheme://` link is rendered as it is: nothing is resolved. */
  lemma ExternalLinkUnchanged(l: Link, parent: string, resolved: Option<string>)
    requires IsExternal(l)
    ensures Rewrite(l, parent, resolved) == RenderLink(l)
  {
  }

  /** An unresolved link keeps its path and shows it with a "not found" mark. */
  lemma NotFoundLinkFlagged(l: Link, parent: string)
    requires !IsExternal(l)
    ensures Rewrite(l, parent, None)
            == "[" + l.path + " -file not found-](" + l.path + AnchorPart(l) + ")"
  {
  }

  /** A resolved link to a non-image shows its own alias, or the link text as
      written when it has none, and points at the target's path relative to
      the directory of the referencing note. */
  lemma ResolvedNoteLink(l: Link, parent: string, t: string)
    requires !IsExternal(l) && !IsImage(t)
    requires Present(l.alias) || l.path != ""
    ensures Rewrite(l, parent, Some(t))
            == "[" + (if Present(l.alias) then l.alias.value else l.path) + "](" + RelPath(t, Dirname(parent)) + AnchorPart(l) + ")"
  {
  }

  /** A resolved image link goes through the image renderer with the target's
      relative path. */
  lemma ResolvedImageLink(l: Link, parent: string, t: string)
    requires !IsExternal(l) && IsImage(t)
    ensures Rewrite(l, parent, Some(t)) == RenderImageLink(l.(path := RelPath(t, Dirname(parent))))
  {
  }

  /** The path written for a resolved link, followed from the referencing
      note's directory, leads to the target. */
  lemma RewrittenPathLeadsToTarget(l: Link, parent: string, t: string)
    requires !IsExternal(l) && Plain(Segments(t))
    ensures var q := RelPath(t, Dirname(parent));
            Follow(Segments(Dirname(parent)), Segments(q)) == Segments(t)
            && (Rewrite(l, parent, Some(t)) == RenderImageLink(l.(path := q))
                || Rewrite(l, parent, Some(t)) == RenderLink(l.(alias := DisplayAlias(l), path := q)))
  {
    RelPathLeadsToTarget(t, Dirname(parent));
  }

  function DisplayAlias(l: Link): Option<string> {
    if Present(l.alias) then l.alias else Some(l.path)
  }

  // ---------------------------------------------------------------------------
  // The traversal's invariants, over the exporter's logs

  function Elems(xs: seq<string>): set<string> {
    set x | x in xs
  }

  function NoteElems(xs: seq<string>): set<string> {
    set x | x in xs && EndsWith(x, ".md")
  }

  function WrittenElems(w: seq<(string, string)>): set<string> {
    set e | e in w :: e.0
  }

  /** Visited files exist, are visited once, and are reachable from the first. */
  ghost predicate VisitedOk(s: Site, visited: seq<string>) {
    (forall i :: 0 <= i < |visited| ==> visited[i] in s.vault.files)
    && (forall i, j :: 0 <= i < j < |visited| ==> visited[i] != visited[j])
    && (forall i :: 0 <= i < |visited| ==> Reachable(s, visited[0], visited[i]))
  }

  /** Depth-first discipline: a visited note is either written, with its
      rewritten text and every note it links to visited, or still being
      processed (on `stack`); each note is written once. */
  ghost predicate TraversalOk(s: Site, visited: seq<string>, written: seq<(string, string)>, stack: seq<string>) {
    Elems(visited) == WrittenElems(written) + Elems(stack)
    && WrittenElems(written) !! Elems(stack)
    && (forall i, j :: 0 <= i < j < |stack| ==> stack[i] != stack[j])
    && (forall i, j :: 0 <= i < j < |written| ==> written[i].0 != written[j].0)
    && (forall i :: 0 <= i < |written| ==> written[i].1 == OutputText(s, written[i].0))
    && (forall i :: 0 <= i < |written| ==> Children(s, written[i].0) <= Elems(visited))
  }

  /** Each copy is a target of a link of the visited note `copiedFrom` names;
      a note is copied at most once. */
  ghost predicate CopiesOk(s: Site, visited: seq<string>, copied: seq<string>, copiedFrom: seq<string>) {
    |copiedFrom| == |copied|
    && (forall i :: 0 <= i < |copied| ==> copiedFrom[i] in Elems(visited) && copied[i] in Targets(s, copiedFrom[i]))
    && (forall i, j :: 0 <= i < j < |copied| && EndsWith(copied[j], ".md") ==> copied[i] != copied[j])
  }

  /** Every file a written note links to has been copied into the output
      tree or is a visited note. */
  ghost predicate TargetsCopied(s: Site, visited: seq<string>, copied: seq<string>, written: seq<(string, string)>) {
    forall i :: 0 <= i < |written| ==> Targets(s, written[i].0) <= Elems(copied) + Elems(visited)
  }

  lemma TargetsCopiedGrow(s: Site, v: seq<string>, c: seq<string>, w: seq<(string, string)>, v': seq<string>, c': seq<string>)
    requires TargetsCopied(s, v, c, w) && Elems(v) <= Elems(v') && Elems(c) <= Elems(c')
    ensures TargetsCopied(s, v', c', w)
  {
  }

  lemma TargetsCopiedWrite(s: Site, v: seq<string>, c: seq<string>, w: seq<(string, string)>, p: string, text: string)
    requires TargetsCopied(s, v, c, w) && Targets(s, p) <= Elems(c) + Elems(v)
    ensures TargetsCopied(s, v, c, w + [(p, text)])
  {
    var w' := w + [(p, text)];
    forall i | 0 <= i < |w'| ensures Targets(s, w'[i].0) <= Elems(c) + Elems(v) {
      if i < |w| { assert w'[i] == w[i]; }
    }
  }

  /** The notes copied are the visited notes other than the first, plus
      `pending`: a note just copied and about to be processed. */
  ghost predicate NotesCopied(visited: seq<string>, copied: seq<string>, pending: set<string>) {
    NoteElems(copied) == (if visited == [] then {} else Elems(visited[1..])) + pending
  }

  lemma VisitStep(s: Site, v: seq<string>, w: seq<(string, string)>, st: seq<string>, p: string)
    requires VisitedOk(s, v) && TraversalOk(s, v, w, st)
    requires p in s.vault.files && p !in v
    requires v != [] ==> Reachable(s, v[0], p)
    ensures VisitedOk(s, v + [p]) && TraversalOk(s, v + [p], w, st + [p])
    ensures p !in Elems(v) && Elems(v + [p]) == Elems(v) + {p}
  {
    var v' := v + [p];
    assert Elems(v') == Elems(v) + {p};
    assert Elems(st + [p]) == Elems(st) + {p};
    if v == [] {
      ReachableSelf(s, p);
    }
    assert forall i :: 0 <= i < |v'| ==> Reachable(s, v'[0], v'[i]) by {
      forall i | 0 <= i < |v'| ensures Reachable(s, v'[0], v'[i]) {
        if i < |v| { assert v'[i] == v[i] && v'[0] == v[0]; }
      }
    }
  }

  lemma VisitNotes(v: seq<string>, c: seq<string>, p: string)
    requires NotesCopied(v, c, if v == [] then {} else {p})
    ensures NotesCopied(v + [p], c, {})
  {
    if v == [] {
      assert (v + [p])[1..] == [];
    } else {
      assert (v + [p])[1..] == v[1..] + [p];
      assert Elems(v[1..] + [p]) == Elems(v[1..]) + {p};
    }
  }

  lemma FinishStep(s: Site, v: seq<string>, w: seq<(string, string)>, st: seq<string>, p: string)
    requires TraversalOk(s, v, w, st)
    requires st != [] && st[|st| - 1] == p && Children(s, p) <= Elems(v)
    ensures TraversalOk(s, v, w + [(p, OutputText(s, p))], st[..|st| - 1])
  {
    var st' := st[..|st| - 1];
    assert st == st' + [p];
    assert Elems(st) == Elems(st') + {p};
    assert p !in Elems(st');
    var w' := w + [(p, OutputText(s, p))];
    assert WrittenElems(w') == WrittenElems(w) + {p};
  }

  lemma CopyStep(s: Site, v: seq<string>, c: seq<string>, cf: seq<string>, parent: string, t: string)
    requires CopiesOk(s, v, c, cf) && NotesCopied(v, c, {})
    requires parent in Elems(v) && t in Targets(s, parent) && t !in v
    ensures CopiesOk(s, v, c + [t], cf + [parent])
    ensures NotesCopied(v, c + [t], if EndsWith(t, ".md") then {t} else {})
  {
    forall i | 0 <= i < |c| && EndsWith(t, ".md") ensures c[i] != t {
      if EndsWith(c[i], ".md") {
        assert c[i] in NoteElems(c);
        assert c[i] in v;
      }
    }
    assert NoteElems(c + [t]) == NoteElems(c) + (if EndsWith(t, ".md") then {t} else {});
  }

  lemma CopiesGrow(s: Site, v: seq<string>, v': seq<string>, c: seq<string>, cf: seq<string>)
    requires CopiesOk(s, v, c, cf) && Elems(v) <= Elems(v')
    ensures CopiesOk(s, v', c, cf)
  {
  }

  lemma PrefixElems(a: seq<string>, b: seq<string>)
    requires |a| <= |b| && b[..|a|] == a
    ensures Elems(a) <= Elems(b)
  {
    forall x | x in a ensures x in b {
      var i :| 0 <= i < |a| && a[i] == x;
      assert b[i] == x;
    }
  }

  lemma PrefixTrans(a: seq<string>, b: seq<string>, c: seq<string>)
    requires |a| <= |b| && b[..|a|] == a && |b| <= |c| && c[..|b|] == b
    ensures c[..|a|] == a
  {
    assert c[..|a|] == c[..|b|][..|a|];
  }

  /** The notes that the links of `ps` handled by one pass resolve to. */
  ghost function PassNoteTargets(s: Site, f: string, ps: seq<Piece>, wiki: bool): set<string> {
    set i | 0 <= i < |ps| && Handles(ps[i], wiki) && IsNoteTarget(Resolution(s, f, LinkOf(ps[i])))
      :: Resolution(s, f, LinkOf(ps[i])).value
  }

  /** Every file that the links of `ps` handled by one pass resolve to. */
  ghost function PassTargets(s: Site, f: string, ps: seq<Piece>, wiki: bool): set<string> {
    set i | 0 <= i < |ps| && Handles(ps[i], wiki) && Resolution(s, f, LinkOf(ps[i])).Some?
      :: Resolution(s, f, LinkOf(ps[i])).value
  }

  lemma NoPassTargets(s: Site, f: string, wiki: bool)
    ensures PassTargets(s, f, [], wiki) == {}
  {
  }

  lemma PassTargetsSnoc(s: Site, f: string, ps: seq<Piece>, i: nat, wiki: bool)
    requires i < |ps|
    ensures PassTargets(s, f, ps[..i + 1], wiki)
            <= PassTargets(s, f, ps[..i], wiki)
               + (if Handles(ps[i], wiki) && Resolution(s, f, LinkOf(ps[i])).Some?
                  then {Resolution(s, f, LinkOf(ps[i])).value} else {})
  {
    var before := PassTargets(s, f, ps[..i], wiki);
    var after := PassTargets(s, f, ps[..i + 1], wiki);
    forall t | t in after
      ensures t in before || (Handles(ps[i], wiki) && Resolution(s, f, LinkOf(ps[i])) == Some(t))
    {
      var j :| 0 <= j < i + 1 && Handles(ps[..i + 1][j], wiki)
               && Resolution(s, f, LinkOf(ps[..i + 1][j])).Some?
               && t == Resolution(s, f, LinkOf(ps[..i + 1][j])).value;
      if j < i {
        assert ps[..i][j] == ps[j];
      }
    }
  }

  /** Every file `f` links to is reached by the bracketed pass or by the
      wikilink pass after it. */
  lemma TargetsOfBothPasses(s: Site, f: string)
    ensures var ps := Pieces(s, f);
            Targets(s, f) <= PassTargets(s, f, ps, false)
                             + PassTargets(s, f, Substitute(s, f, ps, false), true)
  {
    var ps := Pieces(s, f);
    var after := Substitute(s, f, ps, false);
    forall t | t in Targets(s, f)
      ensures t in PassTargets(s, f, ps, false) + PassTargets(s, f, after, true)
    {
      var l :| l in NoteLinks(s, f) && Resolution(s, f, l) == Some(t);
      var i :| 0 <= i < |ps| && !ps[i].Text? && LinkOf(ps[i]) == l;
      if ps[i].Wiki? {
        assert after[i] == ps[i];
      }
    }
  }

  predicate IsNoteTarget(r: Option<string>) {
    r.Some? && EndsWith(r.value, ".md")
  }

  lemma NoPassNoteTargets(s: Site, f: string, wiki: bool)
    ensures PassNoteTargets(s, f, [], wiki) == {}
  {
  }

  lemma PassNoteTargetsSnoc(s: Site, f: string, ps: seq<Piece>, i: nat, wiki: bool)
    requires i < |ps|
    ensures PassNoteTargets(s, f, ps[..i + 1], wiki)
            <= PassNoteTargets(s, f, ps[..i], wiki)
               + (if Handles(ps[i], wiki) && IsNoteTarget(Resolution(s, f, LinkOf(ps[i])))
                  then {Resolution(s, f, LinkOf(ps[i])).value} else {})
  {
    var before := PassNoteTargets(s, f, ps[..i], wiki);
    var after := PassNoteTargets(s, f, ps[..i + 1], wiki);
    forall t | t in after
      ensures t in before || (Handles(ps[i], wiki) && Resolution(s, f, LinkOf(ps[i])) == Some(t))
    {
      var j :| 0 <= j < i + 1 && Handles(ps[..i + 1][j], wiki)
               && IsNoteTarget(Resolution(s, f, LinkOf(ps[..i + 1][j])))
               && t == Resolution(s, f, LinkOf(ps[..i + 1][j])).value;
      if j < i {
        assert ps[..i][j] == ps[j];
      }
    }
  }

  /** The notes `f` links to are those its bracketed links resolve to plus
      those the wikilinks left by the first pass resolve to. */
  lemma ChildrenOfBothPasses(s: Site, f: string)
    ensures var ps := Pieces(s, f);
            Children(s, f) <= PassNoteTargets(s, f, ps, false)
                              + PassNoteTargets(s, f, Substitute(s, f, ps, false), true)
  {
    var ps := Pieces(s, f);
    var after := Substitute(s, f, ps, false);
    forall t | t in Children(s, f)
      ensures t in PassNoteTargets(s, f, ps, false) + PassNoteTargets(s, f, after, true)
    {
      var l :| l in NoteLinks(s, f) && Resolution(s, f, l) == Some(t);
      var i :| 0 <= i < |ps| && !ps[i].Text? && LinkOf(ps[i]) == l;
      if ps[i].Wiki? {
        assert after[i] == ps[i];
      }
    }
  }

  /** The link pieces of a note are links of the note, and so are those a
      pass leaves in place. */
  lemma PiecesAreLinks(s: Site, f: string)
    ensures var ps := Pieces(s, f);
            forall i :: 0 <= i < |ps| && !ps[i].Text? ==> LinkOf(ps[i]) in NoteLinks(s, f)
  {
  }

  lemma PassKeepsLinks(s: Site, f: string, ps: seq<Piece>, wiki: bool)
    requires forall i :: 0 <= i < |ps| && !ps[i].Text? ==> LinkOf(ps[i]) in NoteLinks(s, f)
    ensures var out := Substitute(s, f, ps, wiki);
            forall i :: 0 <= i < |out| && !out[i].Text? ==> LinkOf(out[i]) in NoteLinks(s, f)
  {
  }

  lemma OutputOfPasses(s: Site, f: string, a: seq<Piece>, b: seq<Piece>)
    requires a == Substitute(s, f, Pieces(s, f), false) && b == Substitute(s, f, a, true)
    ensures Flatten(b) == OutputText(s, f)
  {
  }

  /** What a link of `f` resolves to is a target of `f`, and a child when it
      is a note. */
  lemma LinkTarget(s: Site, f: string, l: Link)
    requires l in NoteLinks(s, f) && Resolution(s, f, l).Some?
    ensures Resolution(s, f, l).value in Targets(s, f)
    ensures EndsWith(Resolution(s, f, l).value, ".md") ==> Resolution(s, f, l).value in Children(s, f)
  {
  }

  lemma VisitedReachable(s: Site, v: seq<string>, x: string)
    requires VisitedOk(s, v) && x in Elems(v)
    ensures v != [] && Reachable(s, v[0], x)
  {
  }

  lemma InElems(v: seq<string>, x: string)
    requires x in v
    ensures x in Elems(v)
  {
  }

  lemma PiecesOfNote(s: Site, p: string)
    requires p in s.vault.files
    ensures Pieces(s, p) == s.scan(Normalize(s.vault.files[p]))
  {
  }

  lemma NothingCopiedYet()
    ensures NotesCopied([], [], {})
  {
  }

  /** Once no note is in progress, the visited notes are exactly those
      reachable from the first, and every one of them has been written. */
  lemma FinishedTraversal(s: Site, v: seq<string>, w: seq<(string, string)>)
    requires VisitedOk(s, v) && TraversalOk(s, v, w, []) && v != []
    ensures forall f :: f in v <==> Reachable(s, v[0], f)
    ensures WrittenElems(w) == Elems(v)
  {
    assert Elems(v) == WrittenElems(w);
    forall f | Reachable(s, v[0], f) ensures f in v {
      forall g | g in Elems(v) ensures Children(s, g) <= Elems(v) {
        var e :| e in w && e.0 == g;
        var i :| 0 <= i < |w| && w[i] == e;
      }
      ClosedSetHoldsReachable(s, Elems(v), v[0], f);
    }
  }

  /** At the end of a run every file a visited note links to, other than
      the starting note, has been copied into the output tree. */
  lemma AllTargetsCopied(s: Site, v: seq<string>, c: seq<string>, w: seq<(string, string)>)
    requires v != [] && VisitedOk(s, v) && TargetsCopied(s, v, c, w)
    requires WrittenElems(w) == Elems(v) && NoteElems(c) == Elems(v[1..])
    ensures forall f, t :: f in v && t in Targets(s, f) && t != v[0] ==> t in c
  {
    forall f, t | f in v && t in Targets(s, f) && t != v[0] ensures t in c {
      assert f in WrittenElems(w);
      var e :| e in w && e.0 == f;
      var i :| 0 <= i < |w| && w[i] == e;
      assert t in Elems(c) + Elems(v);
      if t in Elems(v) {
        var j :| 0 <= j < |v| && v[j] == t;
        assert v[1..][j - 1] == t;
        assert t in NoteElems(c);
      }
    }
  }

  // ---------------------------------------------------------------------------
  // The exporter

  class Exporter {
    const site: Site
    /** `visited_files`. */
    var visited: seq<string>
    /** Every `copyfile` into the output tree, by vault-relative path. */
    var copied: seq<string>
    /** Every note written to the output tree, with its rewritten text. */
    var written: seq<(string, string)>
    /** The note whose link caused each copy. */
    ghost var copiedFrom: seq<string>
    /** The notes being processed, outermost first. */
    ghost var stack: seq<string>

    ghost predicate Valid()
      reads this
    {
      VisitedOk(site, visited) && TraversalOk(site, visited, written, stack)
      && CopiesOk(site, visited, copied, copiedFrom) && TargetsCopied(site, visited, copied, written)
    }

    lemma ValidParts()
      requires Valid()
      ensures VisitedOk(site, visited) && TraversalOk(site, visited, written, stack)
      ensures CopiesOk(site, visited, copied, copiedFrom) && TargetsCopied(site, visited, copied, written)
    {
    }

    lemma PartsValid()
      requires VisitedOk(site, visited) && TraversalOk(site, visited, written, stack)
      requires CopiesOk(site, visited, copied, copiedFrom) && TargetsCopied(site, visited, copied, written)
      ensures Valid()
    {
    }

    constructor (s: Site)
      ensures site == s
      ensures visited == [] && copied == [] && written == [] && copiedFrom == [] && stack == []
      ensures Valid()
    {
      site := s;
      visited, copied, written := [], [], [];
      copiedFrom, stack := [], [];
    }

    /** `process_file`: mark the note visited, normalise it, rewrite its
        bracketed links and then its wikilinks, and write the result. */
    method ProcessFile(p: string)
      requires Valid() && p in site.vault.files && p !in visited
      requires visited != [] ==> Reachable(site, visited[0], p)
      requires NotesCopied(visited, copied, if visited == [] then {} else {p})
      modifies this
      decreases site.vault.files.Keys - Elems(visited), 0
      ensures Valid() && NotesCopied(visited, copied, {}) && stack == old(stack)
      ensures |old(visited)| < |visited| && visited[..|old(visited)|] == old(visited)
      ensures visited[|old(visited)|] == p
      ensures |old(copied)| <= |copied| && copied[..|old(copied)|] == old(copied)
    {
      hide Rewrite, Resolution, Normalize, Substitute, Flatten, OutputText, Pieces, NoteLinks, Targets,
        Children, Reachable, VisitedOk, TraversalOk, CopiesOk, NotesCopied, PassNoteTargets, Valid,
        TargetsCopied, PassTargets;
      ghost var v0, c0, st0 := visited, copied, stack;
      ValidParts();
      VisitStep(site, visited, written, stack, p);
      VisitNotes(visited, copied, p);
      CopiesGrow(site, visited, visited + [p], copied, copiedFrom);
      TargetsCopiedGrow(site, visited, copied, written, visited + [p], copied);
      visited := visited + [p];
      stack := stack + [p];
      PartsValid();
      ghost var v1, st1 := visited, stack;
      var text := FixBlankLines(site.vault.files[p]);
      var pieces := site.scan(text);
      PiecesOfNote(site, p);
      PiecesAreLinks(site, p);
      var afterBracketed := SubstitutePass(p, pieces, false);
      PassKeepsLinks(site, p, pieces, false);
      ghost var v2, c2 := visited, copied;
      var afterWiki := SubstitutePass(p, afterBracketed, true);
      PrefixTrans(c0, c2, copied);
      ChildrenOfBothPasses(site, p);
      TargetsOfBothPasses(site, p);
      PrefixElems(v2, visited);
      PrefixElems(c2, copied);
      PrefixTrans(v1, v2, visited);
      var contents := Flatten(afterWiki);
      OutputOfPasses(site, p, afterBracketed, afterWiki);
      ValidParts();
      FinishStep(site, visited, written, stack, p);
      TargetsCopiedWrite(site, visited, copied, written, p, contents);
      written := written + [(p, contents)];
      stack := stack[..|stack| - 1];
      PartsValid();
      assert stack == st0 by {
        assert st1[..|st1| - 1] == st0;
      }
      assert v1[..|v0|] == v0;
      PrefixTrans(v0, v1, visited);
      assert visited[|v0|] == v1[|v0|];
    }

    /** One `re.sub` pass: each piece of the handled syntax is replaced by what
        `ProcessLink` returns for it, in order. */
    method SubstitutePass(p: string, ps: seq<Piece>, wiki: bool) returns (out: seq<Piece>)
      requires Valid() && NotesCopied(visited, copied, {}) && p in Elems(visited)
      requires forall i :: 0 <= i < |ps| && !ps[i].Text? ==> LinkOf(ps[i]) in NoteLinks(site, p)
      modifies this
      decreases site.vault.files.Keys - Elems(visited), 2
      ensures out == Substitute(site, p, ps, wiki)
      ensures Valid() && NotesCopied(visited, copied, {}) && stack == old(stack)
      ensures |old(visited)| <= |visited| && visited[..|old(visited)|] == old(visited)
      ensures |old(copied)| <= |copied| && copied[..|old(copied)|] == old(copied)
      ensures PassNoteTargets(site, p, ps, wiki) <= Elems(visited)
      ensures PassTargets(site, p, ps, wiki) <= Elems(copied) + Elems(visited)
    {
      hide Rewrite, Resolution, Normalize, Substitute, Flatten, OutputText, Pieces, NoteLinks, Targets,
        Children, Reachable, VisitedOk, TraversalOk, CopiesOk, NotesCopied, PassNoteTargets, Valid,
        TargetsCopied, PassTargets;
      out := [];
      var i := 0;
      assert ps[..0] == [];
      NoPassNoteTargets(site, p, wiki);
      NoPassTargets(site, p, wiki);
      while i < |ps|
        invariant 0 <= i <= |ps| && |out| == i
        invariant forall j :: 0 <= j < i ==> out[j] == SubstitutePiece(site, p, ps[j], wiki)
        invariant Valid() && NotesCopied(visited, copied, {}) && stack == old(stack)
        invariant |old(visited)| <= |visited| && visited[..|old(visited)|] == old(visited)
        invariant |old(copied)| <= |copied| && copied[..|old(copied)|] == old(copied)
        invariant p in Elems(visited)
        invariant PassNoteTargets(site, p, ps[..i], wiki) <= Elems(visited)
        invariant PassTargets(site, p, ps[..i], wiki) <= Elems(copied) + Elems(visited)
      {
        PassNoteTargetsSnoc(site, p, ps, i, wiki);
        PassTargetsSnoc(site, p, ps, i, wiki);
        if Handles(ps[i], wiki) {
          ghost var v0, c0 := visited, copied;
          PrefixElems(old(visited), v0);
          var r := ProcessLink(p, LinkOf(ps[i]));
          PrefixTrans(old(visited), v0, visited);
          PrefixTrans(old(copied), c0, copied);
          PrefixElems(v0, visited);
          PrefixElems(c0, copied);
          out := out + [Text(r)];
        } else {
          out := out + [ps[i]];
        }
        i := i + 1;
      }
      assert ps[..i] == ps;
      SubstituteAt(site, p, ps, wiki);
    }

    /** `process_link`: render the link, and copy its target (recursing into
        it when it is a note) unless it has been visited. */
    method ProcessLink(parent: string, l: Link) returns (rendered: string)
      requires Valid() && NotesCopied(visited, copied, {})
      requires parent in Elems(visited) && l in NoteLinks(site, parent)
      modifies this
      decreases site.vault.files.Keys - Elems(visited), 1
      ensures rendered == Rewrite(l, parent, Resolution(site, parent, l))
      ensures Valid() && NotesCopied(visited, copied, {}) && stack == old(stack)
      ensures |old(visited)| <= |visited| && visited[..|old(visited)|] == old(visited)
      ensures |old(copied)| <= |copied| && copied[..|old(copied)|] == old(copied)
      ensures IsNoteTarget(Resolution(site, parent, l)) ==> Resolution(site, parent, l).value in Elems(visited)
      ensures var r := Resolution(site, parent, l);
              r.Some? ==> r.value in Elems(copied) + Elems(visited)
      ensures var r := Resolution(site, parent, l);
              r.None? || r.value in old(visited)
              ==> visited == old(visited) && copied == old(copied) && written == old(written)
      ensures var r := Resolution(site, parent, l);
              r.Some? && r.value !in old(visited)
              ==> |old(copied)| < |copied| && copied[..|old(copied)|] == old(copied) && copied[|old(copied)|] == r.value
      ensures var r := Resolution(site, parent, l);
              r.Some? && r.value !in old(visited) && !EndsWith(r.value, ".md")
              ==> copied == old(copied) + [r.value] && visited == old(visited) && written == old(written)
    {
      hide Rewrite, Resolution, Normalize, Substitute, Flatten, OutputText, Pieces, NoteLinks, Targets,
        Children, Reachable, VisitedOk, TraversalOk, CopiesOk, NotesCopied, PassNoteTargets, Valid,
        TargetsCopied, PassTargets;
      ValidParts();
      var target := Resolution(site, parent, l);
      rendered := Rewrite(l, parent, target);
      if target.Some? {
        var t := target.value;
        if t !in visited {
          LinkTarget(site, parent, l);
          CopyStep(site, visited, copied, copiedFrom, parent, t);
          PrefixElems(copied, copied + [t]);
          TargetsCopiedGrow(site, visited, copied, written, visited, copied + [t]);
          copied := copied + [t];
          copiedFrom := copiedFrom + [parent];
          PartsValid();
          if EndsWith(t, ".md") {
            VisitedReachable(site, visited, parent);
            ReachableStep(site, visited[0], parent, t);
            ghost var c1 := copied;
            ProcessFile(t);
            PrefixTrans(old(copied), c1, copied);
            PrefixElems(c1, copied);
          }
        } else {
          InElems(visited, t);
        }
      }
    }

    /** `process_file(starting_note, …, [])`: export everything reachable
        from the starting note. */
    method Export(start: string)
      requires start in site.vault.files
      requires visited == [] && copied == [] && written == [] && copiedFrom == [] && stack == []
      requires Valid()
      modifies this
      ensures Valid() && stack == []
      ensures visited != [] && visited[0] == start
      ensures forall f :: f in visited <==> Reachable(site, start, f)
      ensures WrittenElems(written) == Elems(visited)
      ensures forall i :: 0 <= i < |written| ==> written[i].1 == OutputText(site, written[i].0)
      ensures NoteElems(copied) == Elems(visited[1..])
      ensures forall f, t :: f in visited && t in Targets(site, f) && t != start ==> t in copied
    {
      NothingCopiedYet();
      ProcessFile(start);
      FinishedTraversal(site, visited, written);
      AllTargetsCopied(site, visited, copied, written);
    }
  }
}
