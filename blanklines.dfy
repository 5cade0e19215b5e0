/** The blank-line normaliser (`markdown_fix_blank_lines` and `MD_LIST_RE`
    in obsidian_mkdocs/utils.py): strict Markdown wants a blank line around
    every list or table, so one is inserted wherever a run of list-like lines
    starts or ends. */
module BlankLines {

  import opened Strings

  // ---------------------------------------------------------------------------
  // Lines

  /** Length of the first line of `s`, its line break included. */
  function LineEnd(s: string): (e: nat)
    requires s != ""
    ensures 0 < e <= |s| && Avoids(s[..e - 1], {'\n'})
    ensures e < |s| ==> s[e - 1] == '\n'
  {
    var k := SpanAvoiding(s, {'\n'});
    if k < |s| then k + 1
    else
      assert s[..k - 1] == s[..k][..k - 1];
      k
  }

  /** `str.splitlines(keepends=True)` with `\n` as the only line break. */
  function SplitLines(s: string): seq<string>
    decreases |s|
  {
    if s == "" then [] else [s[..LineEnd(s)]] + SplitLines(s[LineEnd(s)..])
  }

  function Concat(lines: seq<string>): string {
    if lines == [] then "" else lines[0] + Concat(lines[1..])
  }

  /** A line: not empty, with a line break at most at its end. */
  predicate IsLine(l: string) {
    l != "" && Avoids(l[..|l| - 1], {'\n'})
  }

  /** Every line but the last ends in a line break. */
  predicate Broken(lines: seq<string>) {
    forall i :: 0 <= i < |lines| - 1 ==> lines[i] != "" && lines[i][|lines[i]| - 1] == '\n'
  }

  /** Lines as `SplitLines` produces them. */
  predicate WellSplit(lines: seq<string>) {
    (forall i :: 0 <= i < |lines| ==> IsLine(lines[i])) && Broken(lines)
  }

  lemma ConsWellSplit(l: string, rest: seq<string>)
    requires IsLine(l) && WellSplit(rest)
    requires rest != [] ==> l[|l| - 1] == '\n'
    ensures WellSplit([l] + rest)
  {
    var all := [l] + rest;
    forall i | 1 <= i < |all| ensures all[i] == rest[i - 1] { }
  }

  lemma TailWellSplit(lines: seq<string>)
    requires WellSplit(lines) && lines != []
    ensures WellSplit(lines[1..])
  {
    forall i | 0 <= i < |lines| - 1 ensures lines[1..][i] == lines[i + 1] { }
  }

  lemma SplitLinesStep(s: string)
    requires s != ""
    ensures SplitLines(s) == [s[..LineEnd(s)]] + SplitLines(s[LineEnd(s)..])
  {
  }

  lemma ConcatCons(l: string, rest: seq<string>)
    ensures Concat([l] + rest) == l + Concat(rest)
  {
    assert ([l] + rest)[1..] == rest;
  }

  lemma {:induction false} SplitLinesConcat(s: string)
    ensures Concat(SplitLines(s)) == s
    decreases |s|
  {
    if s != "" {
      var e := LineEnd(s);
      SplitLinesConcat(s[e..]);
      SplitLinesStep(s);
      ConcatCons(s[..e], SplitLines(s[e..]));
      hide SplitLines, Concat;
      assert s == s[..e] + s[e..];
    }
  }

  lemma {:induction false} SplitLinesWellSplit(s: string)
    ensures WellSplit(SplitLines(s))
    decreases |s|
  {
    if s != "" {
      var e := LineEnd(s);
      var l := s[..e];
      var rest := SplitLines(s[e..]);
      SplitLinesWellSplit(s[e..]);
      SplitLinesStep(s);
      assert rest != [] ==> s[e..] != "";
      hide SplitLines, Concat;
      assert l[..|l| - 1] == s[..e - 1];
      ConsWellSplit(l, rest);
    }
  }

  /** Joining the lines gives back the text, and they are well split. */
  lemma {:induction false} SplitLinesJoin(s: string)
    ensures Concat(SplitLines(s)) == s
    ensures WellSplit(SplitLines(s))
  {
    SplitLinesConcat(s);
    SplitLinesWellSplit(s);
  }

  /** Splitting well-split lines, once joined, gives back those lines. */
  lemma {:induction false} SplitConcat(lines: seq<string>)
    requires WellSplit(lines)
    ensures SplitLines(Concat(lines)) == lines
  {
    if lines != [] {
      var l := lines[0];
      var rest := Concat(lines[1..]);
      var s := l + rest;
      assert Concat(lines) == s;
      TailWellSplit(lines);
      SplitConcat(lines[1..]);
      FirstLineEnd(l, rest, |lines| == 1);
      assert s[..|l|] == l && s[|l|..] == rest;
      assert lines == [l] + lines[1..];
    }
  }

  lemma FirstLineEnd(l: string, rest: string, last: bool)
    requires IsLine(l)
    requires !last ==> l[|l| - 1] == '\n'
    requires last ==> rest == ""
    ensures LineEnd(l + rest) == |l|
  {
    var s := l + rest;
    var k := |l| - 1;
    assert s[..k] == l[..k];
    if l[k] == '\n' {
      SpanAvoidingUnique(s, {'\n'}, k);
    } else {
      assert s == l;
      assert Avoids(s[..k + 1], {'\n'}) by {
        assert s[..k + 1] == l[..k] + [l[k]];
      }
      SpanAvoidingUnique(s, {'\n'}, k + 1);
    }
  }

  // ---------------------------------------------------------------------------
  // List-like lines: `^((\d+\. )|((-|\*|\+|\|) ))` after `lstrip`

  /** The ASCII characters `str.isspace` accepts. */
  predicate IsSpace(c: char) {
    c in {' ', '\t', '\n', '\r', '\U{000B}', '\U{000C}', '\U{001C}', '\U{001D}', '\U{001E}', '\U{001F}'}
  }

  /** `str.lstrip()`. */
  function LStrip(s: string): (r: string)
    ensures |r| <= |s| && r == s[|s| - |r|..]
    ensures forall i :: 0 <= i < |s| - |r| ==> IsSpace(s[i])
    ensures r == [] || !IsSpace(r[0])
    decreases |s|
  {
    if s != "" && IsSpace(s[0]) then
      var r := LStrip(s[1..]);
      assert s[1..][|s| - 1 - |r|..] == s[|s| - |r|..];
      assert forall i :: 1 <= i < |s| - |r| ==> s[i] == s[1..][i - 1];
      r
    else s
  }

  /** `\d+\. ` at the start of `s`. */
  predicate OrderedMarker(s: string)
    decreases |s|
  {
    |s| > 0 && IsDigit(s[0]) && (StartsWith(s[1..], ". ") || OrderedMarker(s[1..]))
  }

  /** `MD_LIST_RE` at the start of `s`: a numbered item, or one of `- * + |`
      followed by a space. */
  predicate ListMarker(s: string) {
    OrderedMarker(s) || (|s| >= 2 && s[0] in {'-', '*', '+', '|'} && s[1] == ' ')
  }

  /** `s` starts with the `k` digits of a numbered item, then `. `. */
  predicate DigitsThenDot(s: string, k: int) {
    1 <= k && k + 2 <= |s| && IsNumeric(s[..k]) && s[k..k + 2] == ". "
  }

  lemma {:induction false} OrderedMarkerWitness(s: string) returns (k: int)
    requires OrderedMarker(s)
    ensures DigitsThenDot(s, k)
    decreases |s|
  {
    var t := s[1..];
    if StartsWith(t, ". ") {
      k := 1;
      assert IsNumeric(s[..1]);
      assert s[1..3] == t[..2];
    } else {
      var j := OrderedMarkerWitness(t);
      k := j + 1;
      assert s[..k] == [s[0]] + t[..j];
      assert s[k] == t[j] && s[k + 1] == t[j + 1];
      assert s[k..k + 2] == t[j..j + 2];
    }
  }

  lemma {:induction false} OrderedMarkerComplete(s: string, k: int)
    requires DigitsThenDot(s, k)
    ensures OrderedMarker(s)
    decreases k
  {
    var t := s[1..];
    assert s[..k][0] == s[0];
    if k == 1 {
      assert t[..2] == s[1..3];
    } else {
      assert t[..k - 1] == s[..k][1..];
      assert t[k - 1..k + 1] == s[k..k + 2];
      OrderedMarkerComplete(t, k - 1);
    }
  }

  /** `OrderedMarker` is the pattern `\d+\. `: one or more digits, then a dot
      and a space. */
  lemma OrderedMarkerIff(s: string)
    ensures OrderedMarker(s) <==> exists k :: 1 <= k && k + 2 <= |s| && IsNumeric(s[..k]) && s[k..k + 2] == ". "
  {
    if OrderedMarker(s) {
      var k := OrderedMarkerWitness(s);
      assert DigitsThenDot(s, k);
    }
    if exists k :: 1 <= k && k + 2 <= |s| && IsNumeric(s[..k]) && s[k..k + 2] == ". " {
      var k :| 1 <= k && k + 2 <= |s| && IsNumeric(s[..k]) && s[k..k + 2] == ". ";
      OrderedMarkerComplete(s, k);
    }
  }

  /** A list item or table row, once leading whitespace is stripped. */
  predicate ListLike(line: string) {
    ListMarker(LStrip(line))
  }

  /** A line matches `MD_LIST_RE` after `lstrip` exactly when its stripped
      text starts with digits, a dot and a space, or with one of `- * + |`
      and a space. */
  lemma ListLikeIff(line: string)
    ensures var t := LStrip(line);
            ListLike(line)
            <==> (exists k :: 1 <= k && k + 2 <= |t| && IsNumeric(t[..k]) && t[k..k + 2] == ". ")
                 || (|t| >= 2 && t[0] in {'-', '*', '+', '|'} && t[1] == ' ')
  {
    OrderedMarkerIff(LStrip(line));
  }

  /** The blank line the normaliser inserts is not list-like. */
  lemma BlankNotListLike()
    ensures !ListLike("\n")
  {
    assert LStrip("\n") == LStrip("\n"[1..]);
    assert "\n"[1..] == "";
  }

  // ---------------------------------------------------------------------------
  // The normaliser

  /** The output for `lines` when the line before them had list-likeness
      `prev`: a `\n` before each line whose list-likeness differs. */
  function Fix(lines: seq<string>, prev: bool): string {
    if lines == [] then ""
    else
      var now := ListLike(lines[0]);
      (if now != prev then "\n" else "") + lines[0] + Fix(lines[1..], now)
  }

  /** What `markdown_fix_blank_lines` returns; the first line is compared with
      "not in a list". */
  function Normalize(content: string): string {
    Fix(SplitLines(content), false)
  }

  /** `markdown_fix_blank_lines`, line by line with its two flags. */
  method FixBlankLines(content: string) returns (newText: string)
    ensures newText == Normalize(content)
  {
    var lines := SplitLines(content);
    newText := "";
    var inList := false;
    var wasInList := false;
    for i := 0 to |lines|
      invariant newText + Fix(lines[i..], inList) == Fix(lines, false)
    {
      var line := lines[i];
      var sline := LStrip(line);
      wasInList := inList;
      inList := ListMarker(sline);
      if !wasInList && inList {
        line := "\n" + line;
      } else if wasInList && !inList {
        line := "\n" + line;
      }
      assert line == (if inList != wasInList then "\n" else "") + lines[i];
      FixStep(lines, i, wasInList);
      AppendAssoc(newText, line, Fix(lines[i + 1..], inList));
      newText := newText + line;
    }
    assert lines[|lines|..] == [];
  }

  lemma AppendAssoc(a: string, b: string, c: string)
    ensures a + b + c == a + (b + c)
  {
  }

  /** One step of `Fix` at position `i`. */
  lemma FixStep(lines: seq<string>, i: nat, prev: bool)
    requires i < |lines|
    ensures Fix(lines[i..], prev)
            == (if ListLike(lines[i]) != prev then "\n" else "") + lines[i] + Fix(lines[i + 1..], ListLike(lines[i]))
  {
    hide ListLike;
    assert lines[i..][0] == lines[i];
    assert lines[i..][1..] == lines[i + 1..];
  }

  // ---------------------------------------------------------------------------
  // What the output is made of

  /** The input's lines, each preceded by a blank line when its
      list-likeness differs from the line before. */
  function Expand(lines: seq<string>, prev: bool): seq<string> {
    if lines == [] then []
    else
      var now := ListLike(lines[0]);
      (if now != prev then ["\n"] else []) + [lines[0]] + Expand(lines[1..], now)
  }

  /** Number of lines whose list-likeness differs from the line before. */
  function Transitions(lines: seq<string>, prev: bool): nat {
    if lines == [] then 0
    else
      var now := ListLike(lines[0]);
      (if now != prev then 1 else 0) + Transitions(lines[1..], now)
  }

  lemma {:induction false} FixIsConcatExpand(lines: seq<string>, prev: bool)
    ensures Fix(lines, prev) == Concat(Expand(lines, prev))
  {
    hide ListLike;
    if lines != [] {
      var now := ListLike(lines[0]);
      var rest := Expand(lines[1..], now);
      FixIsConcatExpand(lines[1..], now);
      var m: seq<string> := if now != prev then ["\n"] else [];
      var pre: string := if now != prev then "\n" else "";
      assert Fix(lines, prev) == pre + lines[0] + Fix(lines[1..], now);
      assert Expand(lines, prev) == m + ([lines[0]] + rest);
      ConcatAppend(m, [lines[0]] + rest);
      ConcatAppend([lines[0]], rest);
      ConcatSingle(lines[0]);
      assert Concat(m) == pre by {
        if now != prev { ConcatSingle("\n"); } else { assert m == []; }
      }
      AppendAssoc(pre, lines[0], Fix(lines[1..], now));
    }
  }

  lemma ConcatSingle(l: string)
    ensures Concat([l]) == l
  {
    assert [l][1..] == [];
  }

  lemma {:induction false} FixLength(lines: seq<string>, prev: bool)
    ensures |Fix(lines, prev)| == |Concat(lines)| + Transitions(lines, prev)
  {
    hide ListLike;
    if lines != [] {
      FixLength(lines[1..], ListLike(lines[0]));
    }
  }

  lemma {:induction false} ConcatAppend(a: seq<string>, b: seq<string>)
    ensures Concat(a + b) == Concat(a) + Concat(b)
  {
    if a != [] {
      assert (a + b)[1..] == a[1..] + b;
      ConcatAppend(a[1..], b);
    } else {
      assert a + b == b;
    }
  }

  lemma {:induction false} ExpandWellSplit(lines: seq<string>, prev: bool)
    requires WellSplit(lines)
    ensures WellSplit(Expand(lines, prev))
  {
    hide ListLike;
    if lines != [] {
      var now := ListLike(lines[0]);
      assert WellSplit(lines[1..]) by {
        forall i | 0 <= i < |lines[1..]|
          ensures IsLine(lines[1..][i]) && (i < |lines[1..]| - 1 ==> lines[1..][i][|lines[1..][i]| - 1] == '\n')
        {
          assert lines[1..][i] == lines[i + 1];
        }
      }
      ExpandWellSplit(lines[1..], now);
      var rest := Expand(lines[1..], now);
      var head := (if now != prev then ["\n"] else []) + [lines[0]];
      var out := head + rest;
      assert IsLine("\n") by { assert "\n"[..0] == ""; }
      forall i | 0 <= i < |out| ensures IsLine(out[i]) && (i < |out| - 1 ==> out[i][|out[i]| - 1] == '\n') {
        if i >= |head| {
          assert out[i] == rest[i - |head|];
        } else if i == |head| - 1 {
          assert out[i] == lines[0];
          if i < |out| - 1 {
            assert rest != [];
            assert |lines| > 1;
          }
        }
      }
    }
  }

  /** The output's lines are the input's lines, in order and unchanged, with a
      blank line put before each line whose list-likeness differs from the
      previous line's (the first line is compared with "not in a list"); the
      output is longer than the input by the number of such lines. */
  lemma NormalizeLines(content: string)
    ensures SplitLines(Normalize(content)) == Expand(SplitLines(content), false)
    ensures |Normalize(content)| == |content| + Transitions(SplitLines(content), false)
  {
    hide ListLike;
    var lines := SplitLines(content);
    SplitLinesJoin(content);
    FixIsConcatExpand(lines, false);
    FixLength(lines, false);
    ExpandWellSplit(lines, false);
    SplitConcat(Expand(lines, false));
  }

  /** Two neighbouring lines that differ in list-likeness have a blank line
      between them, one of the two being that blank line. */
  predicate Fenced(a: string, b: string) {
    ListLike(a) == ListLike(b) || a == "\n" || b == "\n"
  }

  lemma {:induction false} ExpandFenced(lines: seq<string>, prev: bool)
    ensures var out := Expand(lines, prev);
            forall i :: 0 <= i < |out| - 1 ==> Fenced(out[i], out[i + 1])
    ensures var out := Expand(lines, prev);
            out != [] ==> out[0] == "\n" || ListLike(out[0]) == prev
  {
    hide ListLike;
    if lines != [] {
      var now := ListLike(lines[0]);
      ExpandFenced(lines[1..], now);
      var rest := Expand(lines[1..], now);
      var head := (if now != prev then ["\n"] else []) + [lines[0]];
      var out := head + rest;
      assert out == Expand(lines, prev);
      forall i | 0 <= i < |out| - 1 ensures Fenced(out[i], out[i + 1]) {
        if i >= |head| {
          assert out[i] == rest[i - |head|] && out[i + 1] == rest[i - |head| + 1];
        } else if i == |head| - 1 {
          assert out[i] == lines[0] && out[i + 1] == rest[0];
        } else {
          assert out[i] == "\n";
        }
      }
    }
  }

  /** What the normaliser is for: in its output every list or table is
      separated by a blank line from the text around it, and the text does not
      start with a list line. */
  lemma ListsSurroundedByBlankLines(content: string)
    ensures var out := SplitLines(Normalize(content));
            forall i :: 0 <= i < |out| - 1 ==> Fenced(out[i], out[i + 1])
    ensures var out := SplitLines(Normalize(content));
            out != [] ==> !ListLike(out[0])
  {
    hide ListLike;
    NormalizeLines(content);
    ExpandFenced(SplitLines(content), false);
    BlankNotListLike();
  }

  /** Normalising twice is not normalising once: the blank line inserted
      before a list is not list-like, so the second pass inserts another. */
  lemma NotIdempotent()
    ensures Normalize("- a\n") == "\n- a\n"
    ensures Normalize(Normalize("- a\n")) == "\n\n- a\n"
  {
    hide ListLike, LStrip;
    var s := "- a\n";
    var t := "\n- a\n";
    SplitOneLine();
    SplitTwoLines();
    DashLineListLike();
    BlankNotListLike();
    assert Fix([s], false) == "\n" + s + Fix([], true) by { assert [s][1..] == []; }
    assert Normalize(s) == t;
    assert Fix(["\n", s], false) == "" + "\n" + Fix([s], false) by { assert ["\n", s][1..] == [s]; }
  }

  lemma SplitOneLine()
    ensures SplitLines("- a\n") == ["- a\n"]
  {
    var s := "- a\n";
    assert IsLine(s) by { assert s[..3] == "- a"; }
    SplitConcat([s]);
    ConcatSingle(s);
  }

  lemma SplitTwoLines()
    ensures SplitLines("\n- a\n") == ["\n", "- a\n"]
  {
    var s := "- a\n";
    assert IsLine(s) by { assert s[..3] == "- a"; }
    assert IsLine("\n") by { assert "\n"[..0] == ""; }
    SplitConcat(["\n", s]);
    assert ["\n", s][1..] == [s];
    ConcatSingle(s);
    assert Concat(["\n", s]) == "\n" + s;
    assert "\n" + s == "\n- a\n";
  }

  lemma DashLineListLike()
    ensures ListLike("- a\n")
  {
    assert !IsSpace('-');
    assert LStrip("- a\n") == "- a\n";
  }
}
