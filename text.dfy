/** String helpers standing in for Python's `str.startswith`, `str.endswith`,
    `str.lower` (on the ASCII letters) and the `in` operator on strings. */
module Text {

  predicate StartsWith(s: string, prefix: string) {
    |prefix| <= |s| && s[..|prefix|] == prefix
  }

  predicate EndsWith(s: string, suffix: string) {
    |suffix| <= |s| && s[|s| - |suffix|..] == suffix
  }

  /** `pat` occurs somewhere in `text`: the meaning of Python's `pat in text`. */
  ghost predicate Occurs(pat: string, text: string) {
    exists k :: OccursAt(pat, text, k)
  }

  /** `pat` starts at index `k` of `text`. */
  ghost predicate OccursAt(pat: string, text: string, k: int) {
    0 <= k && k + |pat| <= |text| && text[k..k + |pat|] == pat
  }

  /** Substring test by scanning `text` left to right. */
  function Contains(text: string, pat: string): bool
    decreases |text|
  {
    if |text| < |pat| then false
    else text[..|pat|] == pat || Contains(text[1..], pat)
  }

  /** The scan finds `pat` exactly when it occurs. */
  lemma {:induction false} ContainsOccurs(text: string, pat: string)
    ensures Contains(text, pat) <==> Occurs(pat, text)
    decreases |text|
  {
    if |text| < |pat| {
    } else if text[..|pat|] == pat {
      assert OccursAt(pat, text, 0);
    } else {
      ContainsOccurs(text[1..], pat);
      if Contains(text[1..], pat) {
        var k :| OccursAt(pat, text[1..], k);
        assert 0 <= k && k + |pat| <= |text| - 1;
        TailSlice(text, k, |pat|);
        assert OccursAt(pat, text, k + 1);
      } else {
        forall k | 0 <= k
          ensures !OccursAt(pat, text, k)
        {
          if k > 0 && k + |pat| <= |text| {
            TailSlice(text, k - 1, |pat|);
            assert !OccursAt(pat, text[1..], k - 1);
          }
        }
      }
    }
  }

  /** A slice of the tail is a slice of the text, one further on. */
  lemma TailSlice(text: string, k: nat, n: nat)
    requires 1 + k + n <= |text|
    ensures text[1..][k..k + n] == text[k + 1..k + 1 + n]
  {
    var x, y := text[1..][k..k + n], text[k + 1..k + 1 + n];
    forall i | 0 <= i < n
      ensures x[i] == y[i]
    {
      assert text[1..][k + i] == text[k + 1 + i];
    }
  }

  /** Python's `str.lower` restricted to ASCII: only 'A'..'Z' change. */
  function LowerChar(c: char): (r: char)
    ensures 'A' <= c <= 'Z' ==> r as int == c as int + 32
    ensures !('A' <= c <= 'Z') ==> r == c
  {
    if 'A' <= c <= 'Z' then (c as int + 32) as char else c
  }

  function Lower(s: string): (r: string)
    ensures |r| == |s|
    ensures forall i :: 0 <= i < |s| ==> r[i] == LowerChar(s[i])
  {
    seq(|s|, i requires 0 <= i < |s| => LowerChar(s[i]))
  }

  /** `os.path.basename(path)`: what follows the last `/`. */
  function Basename(path: string): string {
    path[|path| - TailLength(path)..]
  }

  /** Number of characters after the last `/` (all of them if there is none). */
  function TailLength(path: string): (n: nat)
    ensures n <= |path|
    decreases |path|
  {
    if path == [] || path[|path| - 1] == '/' then 0 else 1 + TailLength(path[..|path| - 1])
  }
}
