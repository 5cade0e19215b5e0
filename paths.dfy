/** Vault-relative paths as `/`-separated text: the parts of `os.path` the
    exporter uses (`join`, `dirname`, `relpath`, and `as_posix`, which is the
    identity on these paths). */
module Paths {

  import opened Strings

  /** The non-empty components of `p`, as `os.path` sees them: repeated and
      trailing separators produce no component. */
  function Segments(p: string): (r: seq<string>)
    ensures forall i :: 0 <= i < |r| ==> r[i] != "" && Avoids(r[i], {'/'})
    decreases |p|
  {
    if p == "" then []
    else
      var k := SpanAvoiding(p, {'/'});
      (if k == 0 then [] else [p[..k]]) + (if k == |p| then [] else Segments(p[k + 1..]))
  }

  /** Components joined with `/`. */
  function JoinSegments(xs: seq<string>): string {
    if xs == [] then ""
    else if |xs| == 1 then xs[0]
    else xs[0] + "/" + JoinSegments(xs[1..])
  }

  /** Splitting a joined path gives back its components. */
  lemma {:induction false} SegmentsOfJoin(xs: seq<string>)
    requires forall i :: 0 <= i < |xs| ==> xs[i] != "" && Avoids(xs[i], {'/'})
    ensures Segments(JoinSegments(xs)) == xs
  {
    if xs != [] {
      var p := JoinSegments(xs);
      var x := xs[0];
      if |xs| == 1 {
        assert p[..|x|] == x;
        SpanAvoidingUnique(p, {'/'}, |x|);
      } else {
        assert p == x + "/" + JoinSegments(xs[1..]);
        assert p[..|x|] == x;
        SpanAvoidingUnique(p, {'/'}, |x|);
        assert p[|x| + 1..] == JoinSegments(xs[1..]);
        SegmentsOfJoin(xs[1..]);
      }
    }
  }

  /** `Segments` unfolded at the first separator `k` (or the end). */
  lemma SegmentsAt(p: string, k: nat)
    requires k <= |p| && Avoids(p[..k], {'/'}) && (k < |p| ==> p[k] == '/')
    ensures p == "" ==> Segments(p) == []
    ensures p != "" && k == |p| ==> Segments(p) == (if k == 0 then [] else [p[..k]])
    ensures k < |p| ==> Segments(p) == (if k == 0 then [] else [p[..k]]) + Segments(p[k + 1..])
  {
    if p != "" {
      SpanAvoidingUnique(p, {'/'}, k);
      assert Segments(p) == (if k == 0 then [] else [p[..k]]) + (if k == |p| then [] else Segments(p[k + 1..]));
    }
  }

  /** `a + "/" + b` has the components of `a` followed by those of `b`. */
  lemma {:induction false} SegmentsOfSlashJoin(a: string, b: string)
    ensures Segments(a + "/" + b) == Segments(a) + Segments(b)
    decreases |a|
  {
    hide Segments;
    var p := a + "/" + b;
    var k := SpanAvoiding(a, {'/'});
    assert p[..k] == a[..k];
    if k == |a| {
      assert p[k] == '/';
      SegmentsAt(p, k);
      SegmentsAt(a, k);
      assert p[k + 1..] == b;
    } else {
      assert p[k] == a[k];
      SegmentsAt(p, k);
      SegmentsAt(a, k);
      assert p[k + 1..] == a[k + 1..] + "/" + b;
      SegmentsOfSlashJoin(a[k + 1..], b);
    }
  }

  /** `os.path.join(a, b)`: `b` when it is absolute, otherwise `b` appended to
      `a` with one separator. */
  function PathJoin(a: string, b: string): string {
    if StartsWith(b, "/") then b
    else if a == "" || EndsWith(a, "/") then a + b
    else a + "/" + b
  }

  /** Joining onto a path keeps all of its components: joined onto a file
      path, the file name becomes a directory component. */
  lemma JoinKeepsBase(a: string, b: string)
    requires !StartsWith(b, "/")
    ensures Segments(PathJoin(a, b)) == Segments(a) + Segments(b)
  {
    if a == "" {
      assert PathJoin(a, b) == b;
    } else if EndsWith(a, "/") {
      assert PathJoin(a, b) == a + b;
      JoinAfterSlash(a[..|a| - 1], b);
      assert a[..|a| - 1] + "/" == a;
    } else {
      assert PathJoin(a, b) == a + "/" + b;
      SegmentsOfSlashJoin(a, b);
    }
  }

  lemma JoinAfterSlash(a': string, b: string)
    ensures Segments(a' + "/" + b) == Segments(a' + "/") + Segments(b)
  {
    var e: string := "";
    var a := a' + "/";
    assert a + e == a;
    SegmentsOfSlashJoin(a', e);
    assert Segments(a) == Segments(a');
    SegmentsOfSlashJoin(a', b);
  }

  /** Where the last component of `p` starts: just after its last `/`, or 0. */
  function LastCut(p: string): (k: nat)
    ensures k <= |p| && Avoids(p[k..], {'/'})
    ensures k > 0 ==> p[k - 1] == '/'
  {
    if p == "" then 0
    else if p[|p| - 1] == '/' then |p|
    else
      var k := LastCut(p[..|p| - 1]);
      assert p[k..] == p[..|p| - 1][k..] + [p[|p| - 1]];
      k
  }

  /** The last component of `p` (empty when `p` ends with `/`). */
  function Basename(p: string): string {
    p[LastCut(p)..]
  }

  /** Trailing separators removed. */
  function TrimSlashes(h: string): string {
    if h != "" && h[|h| - 1] == '/' then TrimSlashes(h[..|h| - 1]) else h
  }

  /** `os.path.dirname`: everything before the last component, without the
      trailing separators unless it is made of separators only. */
  function Dirname(p: string): string {
    var head := p[..LastCut(p)];
    if head != "" && TrimSlashes(head) != "" then TrimSlashes(head) else head
  }

  lemma {:induction false} SegmentsOfTrimSlashes(h: string)
    ensures Segments(TrimSlashes(h)) == Segments(h)
    decreases |h|
  {
    if h != "" && h[|h| - 1] == '/' {
      var h' := h[..|h| - 1];
      SegmentsOfTrimSlashes(h');
      assert h' + "/" + "" == h;
      SegmentsOfSlashJoin(h', "");
    }
  }

  /** A path's components are its directory's followed by its base name. */
  lemma DirnameThenBasename(p: string)
    requires Basename(p) != ""
    ensures Segments(p) == Segments(Dirname(p)) + [Basename(p)]
  {
    var k := LastCut(p);
    var head := p[..k];
    assert p == head + p[k..];
    SegmentsOfTrimSlashes(head);
    assert Segments(Dirname(p)) == Segments(head);
    HeadThenBase(head, p[k..]);
  }

  /** A directory part (empty or ending in `/`) followed by one component. */
  lemma HeadThenBase(head: string, b: string)
    requires head == "" || head[|head| - 1] == '/'
    requires b != "" && Avoids(b, {'/'})
    ensures Segments(head + b) == Segments(head) + [b]
  {
    SegmentsOfJoin([b]);
    if head == "" {
      assert head + b == b;
    } else {
      var h' := head[..|head| - 1];
      assert head == h' + "/" + "";
      assert head + b == h' + "/" + b;
      SegmentsOfSlashJoin(h', b);
      SegmentsOfSlashJoin(h', "");
    }
  }

  // ---------------------------------------------------------------------------
  // Relative paths

  /** The steps from directory `ds` to path `ts`: `..` for each component of
      `ds` past the common prefix, then the rest of `ts`. */
  function RelSegments(ts: seq<string>, ds: seq<string>): seq<string> {
    if ts != [] && ds != [] && ts[0] == ds[0] then RelSegments(ts[1..], ds[1..])
    else seq(|ds|, _ => "..") + ts
  }

  /** `os.path.relpath(target, start)` for normalised relative paths, with `.`
      for the start directory itself. */
  function RelPath(target: string, start: string): string {
    var steps := RelSegments(Segments(target), Segments(start));
    if steps == [] then "." else JoinSegments(steps)
  }

  /** No `.` or `..` component: the form of the vault's own paths. */
  predicate Plain(xs: seq<string>) {
    forall i :: 0 <= i < |xs| ==> xs[i] != "." && xs[i] != ".."
  }

  /** Following the steps `rel` from directory `base`: `..` goes up, `.` stays. */
  function Follow(base: seq<string>, rel: seq<string>): seq<string>
    decreases |rel|
  {
    if rel == [] then base
    else if rel[0] == ".." then Follow(if base == [] then [] else base[..|base| - 1], rel[1..])
    else if rel[0] == "." then Follow(base, rel[1..])
    else Follow(base + [rel[0]], rel[1..])
  }

  lemma {:induction false} FollowPlain(base: seq<string>, rest: seq<string>)
    requires Plain(rest)
    ensures Follow(base, rest) == base + rest
    decreases |rest|
  {
    if rest != [] {
      FollowPlain(base + [rest[0]], rest[1..]);
      assert base + [rest[0]] + rest[1..] == base + rest;
    }
  }

  lemma {:induction false} FollowUp(prefix: seq<string>, ds: seq<string>, rest: seq<string>)
    requires Plain(rest)
    ensures Follow(prefix + ds, seq(|ds|, _ => "..") + rest) == prefix + rest
    decreases |ds|
  {
    var ups := seq(|ds|, _ => "..");
    if ds == [] {
      assert ups == [];
      assert ups + rest == rest;
      assert prefix + ds == prefix;
      FollowPlain(prefix, rest);
    } else {
      assert (ups + rest)[0] == "..";
      assert (ups + rest)[1..] == seq(|ds| - 1, _ => "..") + rest;
      assert (prefix + ds)[..|prefix + ds| - 1] == prefix + ds[..|ds| - 1];
      FollowUp(prefix, ds[..|ds| - 1], rest);
    }
  }

  /** The relative steps, followed from the start directory, lead to the
      target: relpath inverts following a path. */
  lemma {:induction false} FollowRelSegments(prefix: seq<string>, ts: seq<string>, ds: seq<string>)
    requires Plain(ts)
    ensures Follow(prefix + ds, RelSegments(ts, ds)) == prefix + ts
    decreases |ts|
  {
    if ts != [] && ds != [] && ts[0] == ds[0] {
      assert prefix + ds == (prefix + [ds[0]]) + ds[1..];
      assert prefix + ts == (prefix + [ts[0]]) + ts[1..];
      FollowRelSegments(prefix + [ds[0]], ts[1..], ds[1..]);
    } else {
      FollowUp(prefix, ds, ts);
    }
  }

  /** The path `RelPath` writes, read from the start directory, names the
      target. */
  lemma RelPathLeadsToTarget(target: string, start: string)
    requires Plain(Segments(target))
    ensures Follow(Segments(start), Segments(RelPath(target, start))) == Segments(target)
  {
    var steps := RelSegments(Segments(target), Segments(start));
    FollowRelSegments([], Segments(target), Segments(start));
    assert [] + Segments(start) == Segments(start);
    assert [] + Segments(target) == Segments(target);
    if steps == [] {
      assert Segments(".") == ["."] by {
        SegmentsOfJoin(["."]);
      }
    } else {
      assert forall i :: 0 <= i < |steps| ==> steps[i] != "" && Avoids(steps[i], {'/'}) by {
        RelSegmentsWellFormed(Segments(target), Segments(start));
      }
      SegmentsOfJoin(steps);
    }
  }

  lemma {:induction false} RelSegmentsWellFormed(ts: seq<string>, ds: seq<string>)
    requires forall i :: 0 <= i < |ts| ==> ts[i] != "" && Avoids(ts[i], {'/'})
    ensures var r := RelSegments(ts, ds);
            forall i :: 0 <= i < |r| ==> r[i] != "" && Avoids(r[i], {'/'})
    decreases |ts|
  {
    if ts != [] && ds != [] && ts[0] == ds[0] {
      assert RelSegments(ts, ds) == RelSegments(ts[1..], ds[1..]);
      RelSegmentsWellFormed(ts[1..], ds[1..]);
    } else {
      var r := seq(|ds|, _ => "..") + ts;
      forall i | 0 <= i < |r| ensures r[i] != "" && Avoids(r[i], {'/'}) {
        if i < |ds| {
          assert r[i] == "..";
        } else {
          assert r[i] == ts[i - |ds|];
        }
      }
    }
  }

  /** A note linking to `c.md` from directory `a` writes `../c.md`. */
  lemma RelPathUpExample()
    ensures RelPath("c.md", "a") == "../c.md"
  {
    SegmentsOfJoin(["c.md"]);
    SegmentsOfJoin(["a"]);
    assert RelSegments(["c.md"], ["a"]) == ["..", "c.md"] by {
      assert seq(1, _ => "..") == [".."];
    }
    assert JoinSegments(["..", "c.md"]) == "../c.md";
  }
}
