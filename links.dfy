/** The link value, the two match shapes it is built from, and the two
    renderers that turn it back into MkDocs link text (obsidian_mkdocs/utils.py). */
module Links {

  import opened Strings


  /** A parsed link: the target exactly as written, optional display text,
      optional in-page anchor. */
  datatype Link = Link(path: string, alias: Option<string>, anchor: Option<string>)

  /** Groups of a match of the bracketed pattern `[alias](path#anchor)`:
      group 1 (`text`), group 3 (`path`) and group 4 (`tail`, the `#anchor` part
      when that group took part in the match). */
  datatype BracketMatch = BracketMatch(text: string, path: string, tail: Option<string>)

  /** Groups of a match of the wikilink pattern `[[path#anchor|alias]]`: group 2
      (`path`), group 3 (`anchor`, with its leading `#`) and group 4 (`alias`,
      with its leading `|`). */
  datatype WikiMatch = WikiMatch(path: string, anchor: Option<string>, alias: Option<string>)

  // ---------------------------------------------------------------------------
  // Building a Link from a match

  /** `md_match_to_link`: the alias is group 1, the path is group 3, and the
      anchor is taken from group 3 as well (its first character dropped). */
  function BracketMatchToLink(m: BracketMatch): Link {
    Link(m.path, Some(m.text), if m.path != "" then Some(m.path[1..]) else None)
  }

  /** `wiki_match_to_link`: path verbatim; alias and anchor are their groups
      without the leading `|` or `#`, and absent when the group did not match. */
  function WikiMatchToLink(m: WikiMatch): (l: Link)
    ensures l.path == m.path
  {
    Link(m.path,
         if Present(m.alias) then Some(m.alias.value[1..]) else None,
         if Present(m.anchor) then Some(m.anchor.value[1..]) else None)
  }

  // ---------------------------------------------------------------------------
  // Renderers

  /** The `#anchor` suffix, empty when the anchor is absent or empty. */
  function AnchorPart(l: Link): string {
    if Present(l.anchor) then "#" + l.anchor.value else ""
  }

  /** The path with one trailing `.md` removed, if it has one. */
  function StripMd(path: string): string {
    if EndsWith(path, ".md") then path[..|path| - 3] else path
  }

  /** `render_link`: `[alias](path#anchor)`, the alias defaulting to the path
      without its `.md` extension. */
  function RenderLink(l: Link): string {
    var display := if Present(l.alias) then l.alias.value else StripMd(l.path);
    "[" + display + "](" + l.path + AnchorPart(l) + ")"
  }

  /** The width attribute MkDocs Material reads after an image link. */
  function WidthAttribute(width: string): string {
    "{width=\"" + width + "\"}"
  }

  /** `render_image_link`: a numeric alias is a width, not display text. */
  function RenderImageLink(l: Link): string {
    var size := if Present(l.alias) && IsNumeric(l.alias.value) then Some(l.alias.value) else None;
    var attr := if Present(size) then WidthAttribute(size.value) else "";
    var display := if Present(l.alias) && !Present(size) then l.alias.value else l.path;
    "[" + display + "](" + l.path + AnchorPart(l) + ")" + attr
  }

  lemma RenderLinkAnchor(l: Link)
    ensures Present(l.anchor) ==> EndsWith(RenderLink(l), "#" + l.anchor.value + ")")
    ensures !Present(l.anchor) ==> EndsWith(RenderLink(l), "](" + l.path + ")")
  {
  }

  /** With no alias the displayed text is the path less one `.md`. */
  lemma RenderLinkDefaultAlias(l: Link)
    requires !Present(l.alias)
    ensures EndsWith(l.path, ".md") ==>
              RenderLink(l) == "[" + l.path[..|l.path| - 3] + "](" + l.path + AnchorPart(l) + ")"
    ensures !EndsWith(l.path, ".md") ==>
              RenderLink(l) == "[" + l.path + "](" + l.path + AnchorPart(l) + ")"
  {
  }

  /** A numeric alias becomes a width attribute and the path is displayed:
      the image link is the standard link showing its path, plus the attribute. */
  lemma ImageLinkWithWidth(l: Link)
    requires Present(l.alias) && IsNumeric(l.alias.value)
    ensures RenderImageLink(l) == RenderLink(l.(alias := Some(l.path))) + WidthAttribute(l.alias.value)
  {
  }

  /** Any other alias is display text (the path when there is none), and there
      is no width attribute. */
  lemma ImageLinkWithoutWidth(l: Link)
    requires !(Present(l.alias) && IsNumeric(l.alias.value))
    ensures RenderImageLink(l) == RenderLink(l.(alias := if Present(l.alias) then l.alias else Some(l.path)))
  {
  }

  lemma ImageLinkExample()
    ensures RenderImageLink(Link("pic.png", Some("300"), None)) == "[pic.png](pic.png){width=\"300\"}"
  {
    assert IsNumeric("300") by {
      assert forall i :: 0 <= i < 3 ==> "300"[i] in {'0', '3'};
    }
  }

  // ---------------------------------------------------------------------------
  // The wikilink pattern on the text between `[[` and `]]`

  /** The anchor and alias groups, put back together. */
  function TailText(anchor: Option<string>, alias: Option<string>): string {
    (if anchor.Some? then anchor.value else "") + (if alias.Some? then alias.value else "")
  }

  /** The match groups, put back together, give the matched text. */
  function WikiInner(m: WikiMatch): string {
    m.path + TailText(m.anchor, m.alias)
  }

  /** What the groups `(#[^\|\]]+)?(\|[^\]]*?)?` admit. */
  predicate TailGroups(anchor: Option<string>, alias: Option<string>) {
    (anchor.Some? ==>
       |anchor.value| >= 2 && anchor.value[0] == '#' && Avoids(anchor.value[1..], {'|', ']'}))
    && (alias.Some? ==>
          |alias.value| >= 1 && alias.value[0] == '|' && Avoids(alias.value[1..], {']'}))
  }

  /** What each group of `([^\]#\|]*)(#[^\|\]]+)?(\|[^\]]*?)?` admits. */
  predicate WikiGroups(m: WikiMatch) {
    Avoids(m.path, {']', '#', '|'}) && TailGroups(m.anchor, m.alias)
  }

  /** The optional `#anchor` and `|alias` groups matched in full on `rest`,
      the text after the path. */
  function SplitTail(rest: string): (r: Option<(Option<string>, Option<string>)>)
    ensures r.Some? ==> TailGroups(r.value.0, r.value.1) && TailText(r.value.0, r.value.1) == rest
  {
    if rest == [] then Some((None, None))
    else if rest[0] == '|' then
      if Avoids(rest[1..], {']'}) then Some((None, Some(rest))) else None
    else if rest[0] == '#' then
      var j := SpanAvoiding(rest[1..], {'|', ']'});
      var anchor := rest[..1 + j];
      var after := rest[1 + j..];
      assert anchor[1..] == rest[1..][..j];
      assert rest == anchor + after;
      if j == 0 then None
      else if after == [] then Some((Some(anchor), None))
      else if after[0] == '|' && Avoids(after[1..], {']'}) then Some((Some(anchor), Some(after)))
      else None
    else None
  }

  /** Full match of the wikilink groups on `inner`: path as long as possible,
      then an optional `#anchor` of at least one character, then an optional
      `|alias`; nothing matches when the text does not split this way. */
  function SplitWiki(inner: string): (r: Option<WikiMatch>)
    ensures r.Some? ==> WikiGroups(r.value) && WikiInner(r.value) == inner
  {
    var k := SpanAvoiding(inner, {']', '#', '|'});
    assert inner == inner[..k] + inner[k..];
    match SplitTail(inner[k..])
    case None => None
    case Some(groups) => Some(WikiMatch(inner[..k], groups.0, groups.1))
  }

  lemma {:induction false} SplitTailComplete(anchor: Option<string>, alias: Option<string>)
    requires TailGroups(anchor, alias)
    ensures SplitTail(TailText(anchor, alias)) == Some((anchor, alias))
  {
    var rest := TailText(anchor, alias);
    if anchor.Some? {
      var a := anchor.value;
      var tail := if alias.Some? then alias.value else "";
      assert rest == a + tail;
      var j := |a| - 1;
      assert rest[1..][..j] == a[1..];
      SpanAvoidingUnique(rest[1..], {'|', ']'}, j);
      assert rest[..1 + j] == a;
      assert rest[1 + j..] == tail;
    } else if alias.Some? {
      assert rest == alias.value;
    } else {
      assert rest == [];
    }
  }

  /** The groups are determined by the text: every admissible split of a
      wikilink's inner text is the one `SplitWiki` finds. */
  lemma SplitWikiComplete(m: WikiMatch)
    requires WikiGroups(m)
    ensures SplitWiki(WikiInner(m)) == Some(m)
  {
    var inner := WikiInner(m);
    var k := |m.path|;
    assert inner[..k] == m.path;
    var rest := TailText(m.anchor, m.alias);
    assert inner[k..] == rest;
    assert k < |inner| ==> inner[k] == rest[0];
    assert rest != [] ==> rest[0] in {'#', '|'};
    SpanAvoidingUnique(inner, {']', '#', '|'}, k);
    SplitTailComplete(m.anchor, m.alias);
  }

  /** The text a wikilink with these parts is written as (without `[[ ]]`). */
  function WikiText(path: string, anchor: Option<string>, alias: Option<string>): string {
    path
    + (if anchor.Some? then "#" + anchor.value else "")
    + (if alias.Some? then "|" + alias.value else "")
  }

  /** Reading a wikilink back gives its parts: path verbatim, anchor and alias
      without their separators. */
  lemma WikiLinkRoundTrip(path: string, anchor: Option<string>, alias: Option<string>)
    requires Avoids(path, {']', '#', '|'})
    requires anchor.Some? ==> anchor.value != "" && Avoids(anchor.value, {'|', ']'})
    requires alias.Some? ==> Avoids(alias.value, {']'})
    ensures SplitWiki(WikiText(path, anchor, alias)).Some?
    ensures WikiMatchToLink(SplitWiki(WikiText(path, anchor, alias)).value)
            == Link(path, alias, anchor)
  {
    var m := WikiMatch(path,
                       if anchor.Some? then Some("#" + anchor.value) else None,
                       if alias.Some? then Some("|" + alias.value) else None);
    assert m.anchor.Some? ==> m.anchor.value[1..] == anchor.value;
    assert m.alias.Some? ==> m.alias.value[1..] == alias.value;
    assert WikiInner(m) == WikiText(path, anchor, alias);
    SplitWikiComplete(m);
  }

  // ---------------------------------------------------------------------------
  // The bracketed pattern on a whole link

  /** Full match of `\[([^\]]+)\]\((([^)/]+)(#.*)*)\)` on `s`, for targets
      without `/` or `)`: the greedy path group then takes the whole target,
      anchor included, and group 4 does not take part. */
  function MatchBracketed(s: string): (r: Option<BracketMatch>)
    ensures r.Some? ==> s == "[" + r.value.text + "](" + r.value.path + ")"
    ensures r.Some? ==> r.value.text != "" && Avoids(r.value.text, {']'})
    ensures r.Some? ==> r.value.path != "" && Avoids(r.value.path, {')', '/'}) && r.value.tail.None?
  {
    if |s| < 2 || s[0] != '[' then None
    else
      var k := SpanAvoiding(s[1..], {']'});
      var text := s[1..][..k];
      var after := s[1 + k..];
      if k == 0 || |after| < 3 || after[..2] != "](" || after[|after| - 1] != ')' then None
      else
        var path := after[2..|after| - 1];
        if path == [] || !Avoids(path, {')', '/'}) then None
        else
          assert s == [s[0]] + text + after;
          assert after == after[..2] + path + [after[|after| - 1]];
          Some(BracketMatch(text, path, None))
  }

  lemma {:induction false} MatchBracketedComplete(text: string, path: string)
    requires text != "" && Avoids(text, {']'})
    requires path != "" && Avoids(path, {')', '/'})
    ensures MatchBracketed("[" + text + "](" + path + ")") == Some(BracketMatch(text, path, None))
  {
    var s := "[" + text + "](" + path + ")";
    assert s[1..][..|text|] == text;
    SpanAvoidingUnique(s[1..], {']'}, |text|);
    var after := s[1 + |text|..];
    assert after == "](" + path + ")";
    assert after[2..|after| - 1] == path;
  }

  /** A bracketed link never carries a `scheme://` target: its path group
      excludes `/`. */
  lemma BracketedNeverExternal(s: string)
    requires MatchBracketed(s).Some?
    ensures !Contains(BracketMatchToLink(MatchBracketed(s).value).path, "://")
  {
    AvoidsSlashNotExternal(MatchBracketed(s).value.path);
  }

  /** A standard link with an explicit alias, once rendered, matches the
      bracketed pattern again with its alias as group 1 and path and anchor
      together as group 3. */
  lemma RenderedLinkMatches(l: Link)
    requires Present(l.alias) && Avoids(l.alias.value, {']'})
    requires l.path != "" && Avoids(l.path, {')', '/'})
    requires l.anchor.Some? ==> Avoids(l.anchor.value, {')', '/'})
    ensures MatchBracketed(RenderLink(l)) == Some(BracketMatch(l.alias.value, l.path + AnchorPart(l), None))
  {
    var target := l.path + AnchorPart(l);
    assert Avoids(target, {')', '/'}) by {
      forall i | 0 <= i < |target| ensures target[i] !in {')', '/'} {
        if i >= |l.path| + 1 { assert target[i] == l.anchor.value[i - |l.path| - 1]; }
      }
    }
    MatchBracketedComplete(l.alias.value, target);
    assert RenderLink(l) == "[" + l.alias.value + "](" + target + ")";
  }

  /** The bracketed reading takes the anchor from the path group, so the
      anchor it reports is the path without its first character. */
  lemma BracketAnchorIsPathTail(s: string)
    requires MatchBracketed(s).Some?
    ensures BracketMatchToLink(MatchBracketed(s).value).anchor == Some(MatchBracketed(s).value.path[1..])
  {
  }

  /** Rendering, reading back with `md_match_to_link` and rendering again gives
      the same text only when path and anchor together are one character:
      otherwise the path's tail is appended as a spurious anchor. */
  lemma RerenderFixedPointOnlyForOneCharacter(l: Link)
    requires Present(l.alias) && Avoids(l.alias.value, {']'})
    requires l.path != "" && Avoids(l.path, {')', '/'})
    requires l.anchor.Some? ==> Avoids(l.anchor.value, {')', '/'})
    ensures MatchBracketed(RenderLink(l)).Some?
    ensures var again := BracketMatchToLink(MatchBracketed(RenderLink(l)).value);
            RenderLink(again) == RenderLink(l) <==> |l.path| == 1 && !Present(l.anchor)
  {
    RenderedLinkMatches(l);
    var target := l.path + AnchorPart(l);
    var again := BracketMatchToLink(BracketMatch(l.alias.value, target, None));
    if |target| >= 2 {
      assert AnchorPart(again) == "#" + target[1..];
      assert |RenderLink(again)| > |RenderLink(l)|;
    } else {
      assert AnchorPart(l) == "";
    }
  }

  lemma BracketAnchorExample()
    ensures BracketMatchToLink(MatchBracketed("[x](foo)").value) == Link("foo", Some("x"), Some("oo"))
    ensures RenderLink(BracketMatchToLink(MatchBracketed("[x](foo)").value)) == "[x](foo#oo)"
  {
    MatchBracketedComplete("x", "foo");
    assert "[x](foo)" == "[" + "x" + "](" + "foo" + ")";
  }
}
