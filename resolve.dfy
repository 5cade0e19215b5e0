/** Resolving a link's text to a vault file under the vault's link format
    (`checked_path`, `find_file`, `find_linked_file` in obsidian_mkdocs/utils.py). */
module Resolve {

  import opened Strings
  import opened Paths

  /** The vault: each file's vault-relative path with its text, and the files
      in the order a directory walk of the vault reports them. */
  datatype Vault = Vault(files: map<string, string>, walk: seq<string>)

  /** `checked_path`: the path with `.md` added if that file exists, else the
      path itself if it exists, else nothing. */
  function CheckedPath(v: Vault, p: string): (r: Option<string>)
    ensures r.Some? ==> r.value in v.files
    ensures p + ".md" in v.files ==> r == Some(p + ".md")
    ensures p + ".md" !in v.files ==> (r == Some(p) <==> p in v.files)
    ensures r.None? <==> p + ".md" !in v.files && p !in v.files
  {
    if p + ".md" in v.files then Some(p + ".md")
    else if p in v.files then Some(p)
    else None
  }

  // ---------------------------------------------------------------------------
  // Searching the walk

  /** Position of the first file in `walk` whose name is `name`. */
  function FirstNamed(walk: seq<string>, name: string): (r: Option<nat>)
    ensures r.Some? ==> r.value < |walk| && Basename(walk[r.value]) == name
    ensures r.Some? ==> forall j :: 0 <= j < r.value ==> Basename(walk[j]) != name
    ensures r.None? ==> forall j :: 0 <= j < |walk| ==> Basename(walk[j]) != name
  {
    if walk == [] then None
    else if Basename(walk[0]) == name then Some(0)
    else match FirstNamed(walk[1..], name)
      case None => None
      case Some(i) => Some(i + 1)
  }

  /** What `find_file` returns: the first file of the walk with that name. */
  function FoundFile(walk: seq<string>, name: string): (r: Option<string>)
    ensures r.Some? ==> Basename(r.value) == name
    ensures r.Some? ==> exists i :: 0 <= i < |walk| && walk[i] == r.value
                                    && forall j :: 0 <= j < i ==> Basename(walk[j]) != name
    ensures r.None? <==> forall j :: 0 <= j < |walk| ==> Basename(walk[j]) != name
  {
    match FirstNamed(walk, name)
    case None => None
    case Some(i) => Some(walk[i])
  }

  /** `find_file`: walk the vault and stop at the first file called `name`. */
  method FindFile(walk: seq<string>, name: string) returns (r: Option<string>)
    ensures r == FoundFile(walk, name)
  {
    var i := 0;
    while i < |walk|
      invariant 0 <= i <= |walk|
      invariant forall j :: 0 <= j < i ==> Basename(walk[j]) != name
    {
      if Basename(walk[i]) == name {
        return Some(walk[i]);
      }
      i := i + 1;
    }
    return None;
  }

  /** The walk lists every file of the vault once, and nothing else. */
  predicate WalkOk(v: Vault) {
    (forall p :: p in v.files ==> p in v.walk)
    && (forall i :: 0 <= i < |v.walk| ==> v.walk[i] in v.files)
    && (forall i, j :: 0 <= i < j < |v.walk| ==> v.walk[i] != v.walk[j])
  }

  /** No file of a tree-shaped vault has an empty name, so searching a walk
      that lists its files for the empty name finds nothing. */
  lemma EmptyNameNeverFound(v: Vault)
    requires TreeShaped(v) && WalkOk(v)
    ensures FoundFile(v.walk, "") == None
  {
    forall j | 0 <= j < |v.walk| ensures Basename(v.walk[j]) != "" {
      var p := v.walk[j];
      assert p in v.files;
      NormalEnds(p);
    }
  }

  // ---------------------------------------------------------------------------
  // Link formats

  /** `find_linked_file`: resolve `linkPath`, written in the file at `parent`,
      under the vault's link format `format`. */
  function FindLinkedFile(v: Vault, format: string, linkPath: string, parent: string): (r: Option<string>)
    ensures r.Some? ==> r.value in v.files
    ensures format != "absolute" && format != "relative" && format != "shortest" ==> r.None?
  {
    if format == "absolute" then CheckedPath(v, linkPath)
    else if format == "relative" then CheckedPath(v, PathJoin(parent, linkPath))
    else if format == "shortest" then
      if Contains(linkPath, "/") then CheckedPath(v, linkPath)
      else
        var found := match FoundFile(v.walk, linkPath + ".md")
          case Some(f) => Some(f)
          case None => FoundFile(v.walk, linkPath);
        if found.Some? then CheckedPath(v, found.value) else None
    else None
  }

  /** Under `shortest`, a link that contains `/` is read as under `absolute`. */
  lemma ShortestWithSlashIsAbsolute(v: Vault, linkPath: string, parent: string)
    requires Contains(linkPath, "/")
    ensures FindLinkedFile(v, "shortest", linkPath, parent) == FindLinkedFile(v, "absolute", linkPath, parent)
  {
  }

  /** Under `shortest`, a bare name resolves to the first note of the walk
      called `name.md`, whatever other files share the bare name. */
  lemma ShortestPrefersNote(v: Vault, name: string, parent: string, i: nat)
    requires !Contains(name, "/")
    requires i < |v.walk| && Basename(v.walk[i]) == name + ".md"
    requires forall j :: 0 <= j < i ==> Basename(v.walk[j]) != name + ".md"
    requires v.walk[i] in v.files && v.walk[i] + ".md" !in v.files
    ensures FindLinkedFile(v, "shortest", name, parent) == Some(v.walk[i])
  {
    assert FirstNamed(v.walk, name + ".md") == Some(i);
  }

  /** Under `shortest`, when no file is called `name.md`, a bare name resolves
      to the first file of the walk called exactly `name`. */
  lemma ShortestFallsBackToName(v: Vault, name: string, parent: string, i: nat)
    requires !Contains(name, "/")
    requires forall j :: 0 <= j < |v.walk| ==> Basename(v.walk[j]) != name + ".md"
    requires i < |v.walk| && Basename(v.walk[i]) == name
    requires forall j :: 0 <= j < i ==> Basename(v.walk[j]) != name
    requires v.walk[i] in v.files && v.walk[i] + ".md" !in v.files
    ensures FindLinkedFile(v, "shortest", name, parent) == Some(v.walk[i])
  {
    assert FirstNamed(v.walk, name + ".md") == None;
    assert FirstNamed(v.walk, name) == Some(i);
  }

  /** Under `shortest`, a bare name that no file of the walk carries is not
      found. */
  lemma ShortestUnknownName(v: Vault, name: string, parent: string)
    requires !Contains(name, "/")
    requires forall j :: 0 <= j < |v.walk| ==> Basename(v.walk[j]) != name + ".md" && Basename(v.walk[j]) != name
    ensures FindLinkedFile(v, "shortest", name, parent) == None
  {
    assert FirstNamed(v.walk, name + ".md") == None;
    assert FirstNamed(v.walk, name) == None;
  }

  // ---------------------------------------------------------------------------
  // The `relative` format joins onto the referencing file's own path

  /** A path as a real file tree stores it: non-empty components joined by
      single separators. */
  predicate Normal(p: string) {
    Segments(p) != [] && JoinSegments(Segments(p)) == p
  }

  /** A vault that a file system can hold: normal paths, and no file is a
      directory on the way to another. */
  predicate TreeShaped(v: Vault) {
    (forall p :: p in v.files ==> Normal(p))
    && (forall p, q :: p in v.files && q in v.files ==> !(Segments(p) < Segments(q)))
  }

  lemma {:induction false} JoinSegmentsEnds(xs: seq<string>)
    requires xs != []
    requires forall i :: 0 <= i < |xs| ==> xs[i] != "" && Avoids(xs[i], {'/'})
    ensures var p := JoinSegments(xs); p != "" && p[0] != '/' && p[|p| - 1] != '/'
  {
    var p := JoinSegments(xs);
    if |xs| > 1 {
      JoinSegmentsEnds(xs[1..]);
      assert p == xs[0] + "/" + JoinSegments(xs[1..]);
      assert p[0] == xs[0][0];
    }
  }

  lemma NormalEnds(p: string)
    requires Normal(p)
    ensures p != "" && p[0] != '/' && p[|p| - 1] != '/'
  {
    JoinSegmentsEnds(Segments(p));
  }

  lemma {:induction false} NoSegmentsAllSlashes(s: string)
    requires Segments(s) == []
    ensures forall i :: 0 <= i < |s| ==> s[i] == '/'
    decreases |s|
  {
    if s != [] {
      var k := SpanAvoiding(s, {'/'});
      assert k == 0;
      if |s| > 1 {
        NoSegmentsAllSlashes(s[1..]);
        assert forall i :: 1 <= i < |s| ==> s[i] == s[1..][i - 1];
      }
    }
  }

  /** A candidate below the referencing file's own path is never a file of a
      tree-shaped vault. */
  lemma BelowFileIsNoFile(v: Vault, parent: string, tail: string)
    requires TreeShaped(v) && parent in v.files
    requires !StartsWith(tail, "/")
    requires tail != "" && tail[|tail| - 1] != '/'
    ensures PathJoin(parent, tail) !in v.files
  {
    var c := PathJoin(parent, tail);
    JoinKeepsBase(parent, tail);
    if Segments(tail) == [] {
      NoSegmentsAllSlashes(tail);
      assert false;
    }
    assert Segments(parent) < Segments(c);
  }

  lemma SlashFirstIsNoFile(v: Vault, p: string)
    requires TreeShaped(v) && StartsWith(p, "/")
    ensures p !in v.files
  {
    assert p[0] == p[..1][0];
    if p in v.files { NormalEnds(p); }
  }

  lemma SlashLastIsNoFile(v: Vault, p: string)
    requires TreeShaped(v) && p != "" && p[|p| - 1] == '/'
    ensures p !in v.files
  {
    if p in v.files { NormalEnds(p); }
  }

  /** The joined candidate itself is no file. */
  lemma RelativeCandidateIsNoFile(v: Vault, linkPath: string, parent: string)
    requires TreeShaped(v) && parent in v.files
    ensures PathJoin(parent, linkPath) !in v.files
  {
    var c := PathJoin(parent, linkPath);
    if StartsWith(linkPath, "/") {
      SlashFirstIsNoFile(v, linkPath);
    } else if linkPath == "" {
      NormalEnds(parent);
      assert c == parent + "/";
      SlashLastIsNoFile(v, c);
    } else if linkPath[|linkPath| - 1] == '/' {
      assert c[|c| - 1] == linkPath[|linkPath| - 1];
      SlashLastIsNoFile(v, c);
    } else {
      BelowFileIsNoFile(v, parent, linkPath);
    }
  }

  /** The joined candidate with `.md` added is no file. */
  lemma RelativeNoteCandidateIsNoFile(v: Vault, linkPath: string, parent: string)
    requires TreeShaped(v) && parent in v.files
    ensures PathJoin(parent, linkPath) + ".md" !in v.files
  {
    var c := PathJoin(parent, linkPath);
    if StartsWith(linkPath, "/") {
      assert StartsWith(c + ".md", "/") by { assert (c + ".md")[..1] == c[..1]; }
      SlashFirstIsNoFile(v, c + ".md");
    } else {
      assert !StartsWith(linkPath + ".md", "/") by {
        if linkPath != "" {
          assert (linkPath + ".md")[..1] == linkPath[..1];
        } else {
          assert (linkPath + ".md")[..1] == ".";
        }
      }
      assert c + ".md" == PathJoin(parent, linkPath + ".md");
      BelowFileIsNoFile(v, parent, linkPath + ".md");
    }
  }

  /** Under `relative` the link is joined onto the referencing FILE's path
      rather than its directory, so in a tree-shaped vault nothing ever
      resolves: every link of such a vault is reported as not found. */
  lemma RelativeNeverResolves(v: Vault, linkPath: string, parent: string)
    requires TreeShaped(v) && parent in v.files
    ensures FindLinkedFile(v, "relative", linkPath, parent) == None
  {
    RelativeCandidateIsNoFile(v, linkPath, parent);
    RelativeNoteCandidateIsNoFile(v, linkPath, parent);
  }

  /** With the vault root holding `c.md`, the link `../c` in `a/b.md` is not
      found under `relative`: the candidate is `a/b.md/../c.md`. */
  lemma RelativeUpLinkExample()
    ensures var v := Vault(map["a/b.md" := "", "c.md" := ""], ["a/b.md", "c.md"]);
            FindLinkedFile(v, "relative", "../c", "a/b.md") == None
  {
    var v := Vault(map["a/b.md" := "", "c.md" := ""], ["a/b.md", "c.md"]);
    assert !StartsWith("../c", "/") by { assert "../c"[..1] == "."; }
    assert !EndsWith("a/b.md", "/") by { assert "a/b.md"[5..] == "d"; }
    assert PathJoin("a/b.md", "../c") == "a/b.md/../c";
    assert |"a/b.md/../c.md"| != |"a/b.md"| && |"a/b.md/../c.md"| != |"c.md"|;
    assert |"a/b.md/../c"| != |"a/b.md"| && |"a/b.md/../c"| != |"c.md"|;
  }

  /** `notes/foo` resolves to `notes/foo.md` under `absolute`. */
  lemma AbsoluteExample(parent: string)
    ensures var v := Vault(map["notes/foo.md" := ""], ["notes/foo.md"]);
            FindLinkedFile(v, "absolute", "notes/foo", parent) == Some("notes/foo.md")
  {
    assert "notes/foo" + ".md" == "notes/foo.md";
  }
}
