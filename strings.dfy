/** Python string behaviour the model relies on: truthiness of optional
    strings, prefix and suffix tests, substring search and character spans. */
module Strings {

  datatype Option<T> = None | Some(value: T)

  /** Python truthiness of an optional string: present and not empty. */
  predicate Present(o: Option<string>) {
    o.Some? && o.value != ""
  }

  predicate IsDigit(c: char) {
    '0' <= c <= '9'
  }

  /** `str.isnumeric` on ASCII text: non-empty and made of digits only. */
  predicate IsNumeric(s: string) {
    |s| > 0 && forall i :: 0 <= i < |s| ==> IsDigit(s[i])
  }

  predicate StartsWith(s: string, prefix: string) {
    |prefix| <= |s| && s[..|prefix|] == prefix
  }

  predicate EndsWith(s: string, suffix: string) {
    |suffix| <= |s| && s[|s| - |suffix|..] == suffix
  }

  /** Python's `sub in s` for strings. */
  predicate Contains(s: string, sub: string)
    decreases |s|
  {
    StartsWith(s, sub) || (|s| > 0 && Contains(s[1..], sub))
  }

  /** No character of `s` is one of `cs`. */
  predicate Avoids(s: string, cs: set<char>) {
    forall i :: 0 <= i < |s| ==> s[i] !in cs
  }

  /** A string in which `/` does not occur cannot contain a `scheme://` marker. */
  lemma {:induction false} AvoidsSlashNotExternal(s: string)
    requires Avoids(s, {'/'})
    ensures !Contains(s, "://")
    decreases |s|
  {
    if |s| >= 3 {
      assert s[1] != '/';
    }
    if |s| > 0 {
      AvoidsSlashNotExternal(s[1..]);
    }
  }

  /** Length of the longest prefix of `s` avoiding `cs`. */
  function SpanAvoiding(s: string, cs: set<char>): (k: nat)
    ensures k <= |s| && Avoids(s[..k], cs)
    ensures k < |s| ==> s[k] in cs
    decreases |s|
  {
    if |s| == 0 || s[0] in cs then 0
    else
      var k := 1 + SpanAvoiding(s[1..], cs);
      assert s[..k] == [s[0]] + s[1..][..k - 1];
      k
  }

  /** Any prefix avoiding `cs` and followed by a member of `cs` (or by the
      end) is the longest one. */
  lemma {:induction false} SpanAvoidingUnique(s: string, cs: set<char>, k: nat)
    requires k <= |s| && Avoids(s[..k], cs) && (k < |s| ==> s[k] in cs)
    ensures SpanAvoiding(s, cs) == k
    decreases |s|
  {
    if k > 0 {
      assert s[0] == s[..k][0];
      assert s[1..][..k - 1] == s[..k][1..];
      SpanAvoidingUnique(s[1..], cs, k - 1);
    }
  }
}
