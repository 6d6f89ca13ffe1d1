/** Normalisation of an arXiv identifier: `extract_arxiv_id` and the
    version-stripping substitution of `download_source` in
    claude/arxiv_to_epub.py.

    The two regular expressions of the source are hand-coded scanners:
    `\d+\.\d+(?:v\d+)?` is `IdMatchLength`, and the `(?:abs|pdf)/` search
    is `FindMarkedId`. The language the first one describes is stated
    independently, position by position, by `IdSplit`. */
module ArxivId {
  import opened Wrappers
  import opened Text

  /** The `ValueError("Invalid arXiv URL or ID format")` of the source. */
  datatype Error = InvalidArxivId


  /** `\d`, restricted to the ASCII digits. */
  predicate IsDigit(c: char) {
    '0' <= c <= '9'
  }

  /** The characters at `lo..hi` of `s` are digits. */
  predicate DigitsBetween(s: string, lo: nat, hi: nat)
    requires lo <= hi <= |s|
  {
    forall j {:trigger IsDigit(s[j])} :: lo <= j < hi ==> IsDigit(s[j])
  }

  /** The `m` characters from `i` on read `\d+\.\d+(?:v\d+)?`: digits up to
      the dot at offset `a`, digits up to offset `b`, and, if the text goes
      on past `b`, a `v` followed by digits up to offset `m`. */
  predicate IdSplit(s: string, i: nat, m: nat, a: nat, b: nat) {
    && i + m <= |s| && 0 < a && a + 1 < b <= m
    && DigitsBetween(s, i, i + a) && s[i + a] == '.' && DigitsBetween(s, i + a + 1, i + b)
    && (b == m || (b + 1 < m && s[i + b] == 'v' && DigitsBetween(s, i + b + 1, i + m)))
  }

  /** An identifier of `m` characters starts at `i`. */
  ghost predicate IdShapeAt(s: string, i: nat, m: nat) {
    exists a: nat, b: nat :: IdSplit(s, i, m, a, b)
  }

  /** `t` as a whole is an identifier. */
  ghost predicate IsIdShape(t: string) {
    IdShapeAt(t, 0, |t|)
  }

  /** Length of the run of digits starting at `i`. */
  function DigitRun(s: string, i: nat): (n: nat)
    requires i <= |s|
    ensures i + n <= |s|
    ensures i + n == |s| || !IsDigit(s[i + n])
    decreases |s| - i
  {
    if i < |s| && IsDigit(s[i]) then 1 + DigitRun(s, i + 1) else 0
  }

  /** Everything the run covers is a digit. */
  lemma {:induction false} DigitRunDigits(s: string, i: nat)
    requires i <= |s|
    ensures DigitsBetween(s, i, i + DigitRun(s, i))
    decreases |s| - i
  {
    if i < |s| && IsDigit(s[i]) {
      DigitRunDigits(s, i + 1);
    }
  }

  /** A run of `n` digits is at most as long as the run `DigitRun` finds, and
      exactly as long when a non-digit closes it. */
  lemma {:induction false} DigitRunExact(s: string, i: nat, n: nat)
    requires i + n <= |s| && DigitsBetween(s, i, i + n)
    ensures DigitRun(s, i) >= n
    ensures i + n < |s| && !IsDigit(s[i + n]) ==> DigitRun(s, i) == n
    decreases n
  {
    if n > 0 {
      DigitRunExact(s, i + 1, n - 1);
    }
  }

  /** Length of what `\d+\.\d+(?:v\d+)?` matches at `i`, 0 for no match:
      each `\d+` takes every digit it can. */
  function IdMatchLength(s: string, i: nat): (n: nat)
    requires i <= |s|
    ensures i + n <= |s|
  {
    var a := DigitRun(s, i);
    if a == 0 || i + a == |s| || s[i + a] != '.' then 0
    else
      var b := DigitRun(s, i + a + 1);
      if b == 0 then 0 else a + 1 + b + VersionLength(s, i + a + 1 + b)
  }

  /** Length of the optional `v\d+` at `k`: taken when a digit follows the `v`. */
  function VersionLength(s: string, k: nat): (n: nat)
    requires k <= |s|
    ensures k + n <= |s|
  {
    if k + 1 < |s| && s[k] == 'v' && IsDigit(s[k + 1]) then 1 + DigitRun(s, k + 1) else 0
  }

  /** Whatever the scan matches is an identifier. */
  lemma {:induction false} IdMatchSound(s: string, i: nat)
    requires i <= |s| && IdMatchLength(s, i) > 0
    ensures IdShapeAt(s, i, IdMatchLength(s, i))
  {
    var a := DigitRun(s, i);
    var b := DigitRun(s, i + a + 1);
    var k := i + a + 1 + b;
    DigitRunDigits(s, i);
    DigitRunDigits(s, i + a + 1);
    if VersionLength(s, k) > 0 {
      DigitRunDigits(s, k + 1);
    }
    assert IdSplit(s, i, IdMatchLength(s, i), a, a + 1 + b);
  }

  /** The scan matches wherever an identifier starts, and it matches the
      longest one there (so greedy matching loses nothing). */
  lemma {:induction false} IdMatchLongest(s: string, i: nat, m: nat)
    requires IdShapeAt(s, i, m)
    ensures m <= IdMatchLength(s, i)
  {
    var a: nat, b: nat :| IdSplit(s, i, m, a, b);
    DigitRunExact(s, i, a);
    DigitRunExact(s, i + a + 1, b - a - 1);
    if b < m {
      assert IdMatchLength(s, i) == b + VersionLength(s, i + b);
      VersionLongest(s, i + b, m - b);
    }
  }

  /** A `v` followed by `v - 1` digits is taken whole, or more. */
  lemma VersionLongest(s: string, k: nat, v: nat)
    requires k + v <= |s| && 1 < v && s[k] == 'v' && DigitsBetween(s, k + 1, k + v)
    ensures v <= VersionLength(s, k)
  {
    DigitRunExact(s, k + 1, v - 1);
  }

  /** An identifier found inside a text is an identifier on its own. */
  lemma ShapeSlice(s: string, i: nat, m: nat)
    requires IdShapeAt(s, i, m)
    ensures IsIdShape(s[i..i + m])
  {
    var a: nat, b: nat :| IdSplit(s, i, m, a, b);
    var t := s[i..i + m];
    assert forall x :: 0 <= x < |t| ==> t[x] == s[i + x];
    assert IdSplit(t, 0, m, a, b);
  }

  /** An identifier that is a prefix of a text is found at its start. */
  lemma ShapePrefix(s: string, m: nat)
    requires m <= |s| && IsIdShape(s[..m])
    ensures IdShapeAt(s, 0, m)
  {
    var t := s[..m];
    var a: nat, b: nat :| IdSplit(t, 0, m, a, b);
    assert forall x :: 0 <= x < |t| ==> t[x] == s[x];
    assert IdSplit(s, 0, m, a, b);
  }

  /** The last character of an identifier is a digit. */
  lemma ShapeEndsInDigit(s: string, i: nat, m: nat)
    requires IdShapeAt(s, i, m)
    ensures 0 < m && IsDigit(s[i + m - 1])
  {
    var a: nat, b: nat :| IdSplit(s, i, m, a, b);
    if b == m {
      assert IsDigit(s[i + b - 1]);
    } else {
      assert IsDigit(s[i + m - 1]);
    }
  }

  /** The scan at the start of a text covers exactly the identifier it is, or
      the identifier before its final newline; and whatever it covers is one. */
  lemma BareMatchLength(s: string)
    ensures IsIdShape(s) ==> IdMatchLength(s, 0) == |s|
    ensures |s| > 0 && s[|s| - 1] == '\n' && IsIdShape(s[..|s| - 1]) ==> IdMatchLength(s, 0) == |s| - 1
    ensures IdMatchLength(s, 0) > 0 ==> IsIdShape(s[..IdMatchLength(s, 0)])
  {
    var n := IdMatchLength(s, 0);
    if n > 0 {
      IdMatchSound(s, 0);
      ShapeSlice(s, 0, n);
      assert s[0..n] == s[..n];
    }
    if IsIdShape(s) {
      IdMatchLongest(s, 0, |s|);
    }
    if |s| > 0 && s[|s| - 1] == '\n' && IsIdShape(s[..|s| - 1]) {
      NewlineIdLength(s);
    }
  }

  /** Before a final newline, the scan stops at the newline. */
  lemma NewlineIdLength(s: string)
    requires |s| > 0 && s[|s| - 1] == '\n' && IsIdShape(s[..|s| - 1])
    ensures IdMatchLength(s, 0) == |s| - 1
  {
    ShapePrefix(s, |s| - 1);
    IdMatchLongest(s, 0, |s| - 1);
    if IdMatchLength(s, 0) == |s| {
      IdMatchSound(s, 0);
      ShapeEndsInDigit(s, 0, |s|);
    }
  }

  /** `re.match(r'^\d+\.\d+(?:v\d+)?$', s)`: Python's `$` also matches just
      before a final newline, so the text is an identifier, or one followed by
      a newline. */
  function MatchesBareId(s: string): (b: bool)
    ensures b <==> IsIdShape(s) || (|s| > 0 && s[|s| - 1] == '\n' && IsIdShape(s[..|s| - 1]))
  {
    BareMatchLength(s);
    assert s[..|s|] == s;
    var n := IdMatchLength(s, 0);
    n > 0 && (n == |s| || (n + 1 == |s| && s[n] == '\n'))
  }

  /** `abs/` or `pdf/` starts at index `q`. */
  predicate MarkerAt(path: string, q: nat) {
    && q + 4 <= |path|
    && ((path[q] == 'a' && path[q + 1] == 'b' && path[q + 2] == 's')
        || (path[q] == 'p' && path[q + 1] == 'd' && path[q + 2] == 'f'))
    && path[q + 3] == '/'
  }

  /** A marker at `q` is followed by something the scan matches. */
  predicate MarkedIdAt(path: string, q: nat) {
    MarkerAt(path, q) && IdMatchLength(path, q + 4) > 0
  }

  /** `re.search` of `(?:abs|pdf)/(\d+\.\d+(?:v\d+)?)`: the first index from
      `from` on where a marker is followed by an identifier. */
  function FindMarkedId(path: string, from: nat): (r: Option<nat>)
    requires from <= |path|
    ensures r.Some? ==> from <= r.value && MarkedIdAt(path, r.value)
    ensures r.Some? ==> forall q :: from <= q < r.value ==> !MarkedIdAt(path, q)
    ensures r.None? ==> forall q :: from <= q <= |path| ==> !MarkedIdAt(path, q)
    decreases |path| - from
  {
    if MarkedIdAt(path, from) then Some(from)
    else if from == |path| then None
    else FindMarkedId(path, from + 1)
  }


  /** An identifier of `m` characters follows a marker at `q`. */
  ghost predicate IdAfterMarker(path: string, q: nat, m: nat) {
    MarkerAt(path, q) && IdShapeAt(path, q + 4, m)
  }

  /** `id` is what a leftmost search finds: it follows the first marker that
      is followed by an identifier at all, and it is the longest there. */
  ghost predicate LeftmostLongestId(path: string, id: string) {
    exists q: nat ::
      && IdAfterMarker(path, q, |id|) && path[q + 4..q + 4 + |id|] == id
      && (forall m: nat :: IdAfterMarker(path, q, m) ==> m <= |id|)
      && (forall q': nat, m: nat :: q' < q ==> !IdAfterMarker(path, q', m))
  }

  /** A marker followed by an identifier is a place where the scan matches. */
  lemma IdAfterMarkerIsMarked(path: string, q: nat, m: nat)
    requires IdAfterMarker(path, q, m)
    ensures MarkedIdAt(path, q) && m <= IdMatchLength(path, q + 4)
  {
    IdMatchLongest(path, q + 4, m);
  }

  /** The text the scan matches after the marker at `q` is an identifier. */
  lemma MatchedTextIsId(path: string, q: nat)
    requires MarkedIdAt(path, q)
    ensures var n := IdMatchLength(path, q + 4);
      IsIdShape(path[q + 4..q + 4 + n]) && IdAfterMarker(path, q, n)
  {
    IdMatchSound(path, q + 4);
    ShapeSlice(path, q + 4, IdMatchLength(path, q + 4));
  }

  /** The text matched after the first marked position is the leftmost,
      longest identifier after a marker. */
  lemma FirstMarkedIdIsLeftmostLongest(path: string, q: nat)
    requires MarkedIdAt(path, q)
    requires forall q' :: 0 <= q' < q ==> !MarkedIdAt(path, q')
    ensures var id := path[q + 4..q + 4 + IdMatchLength(path, q + 4)];
      IsIdShape(id) && LeftmostLongestId(path, id)
  {
    MatchedTextIsId(path, q);
    var n := IdMatchLength(path, q + 4);
    forall m: nat | IdAfterMarker(path, q, m)
      ensures m <= n
    {
      IdAfterMarkerIsMarked(path, q, m);
    }
    forall q': nat, m: nat | q' < q
      ensures !IdAfterMarker(path, q', m)
    {
      if IdAfterMarker(path, q', m) {
        IdAfterMarkerIsMarked(path, q', m);
      }
    }
  }

  /** The search finds a marked position exactly when some marker is followed
      by an identifier. */
  lemma FindMarkedIdComplete(path: string)
    ensures FindMarkedId(path, 0).None? <==> forall q: nat, m: nat :: !IdAfterMarker(path, q, m)
  {
    var f := FindMarkedId(path, 0);
    forall q: nat, m: nat | IdAfterMarker(path, q, m)
      ensures f.Some? && f.value <= q
    {
      IdAfterMarkerIsMarked(path, q, m);
    }
    if f.Some? {
      MatchedTextIsId(path, f.value);
    }
  }

  /** `match.group(1)` of that search, if there is a match: nothing exactly
      when no marker is followed by an identifier, and otherwise the leftmost,
      longest identifier after a marker. */
  function SearchId(path: string): (r: Option<string>)
    ensures r.None? <==> forall q: nat, m: nat :: !IdAfterMarker(path, q, m)
    ensures r.Some? ==> IsIdShape(r.value) && LeftmostLongestId(path, r.value)
  {
    FindMarkedIdComplete(path);
    match FindMarkedId(path, 0)
    case None => None
    case Some(q) =>
      FirstMarkedIdIsLeftmostLongest(path, q);
      Some(path[q + 4..q + 4 + IdMatchLength(path, q + 4)])
  }

  /** `extract_arxiv_id`: a URL (anything starting with `http`) yields the
      identifier its path holds after `abs/` or `pdf/`, and fails when there is
      none; anything else is accepted, unchanged, exactly when the whole input
      is an identifier (a final newline tolerated, as `$` does). `pathOf`
      stands for `urlparse(url).path`. */
  function ExtractArxivId(pathOf: string -> string, input: string): (r: Result<string, Error>)
    ensures StartsWith(input, "http") ==>
      (r.Err? <==> forall q: nat, m: nat :: !IdAfterMarker(pathOf(input), q, m))
    ensures StartsWith(input, "http") && r.Ok? ==>
      IsIdShape(r.value) && LeftmostLongestId(pathOf(input), r.value)
    ensures !StartsWith(input, "http") ==>
      (r.Ok? <==> IsIdShape(input) || (|input| > 0 && input[|input| - 1] == '\n' && IsIdShape(input[..|input| - 1])))
    ensures !StartsWith(input, "http") && r.Ok? ==> r.value == input
  {
    if StartsWith(input, "http") then
      match SearchId(pathOf(input))
      case Some(id) => Ok(id)
      case None => Err(InvalidArxivId)
    else if MatchesBareId(input) then Ok(input)
    else Err(InvalidArxivId)
  }

  lemma NotAnIdRejected(pathOf: string -> string)
    ensures ExtractArxivId(pathOf, "not-an-id") == Err(InvalidArxivId)
  {
    assert !StartsWith("not-an-id", "http");
    assert DigitRun("not-an-id", 0) == 0;
  }

  /** Length of the run of digits ending just before `e`. */
  function DigitRunBack(s: string, e: nat): (n: nat)
    requires e <= |s|
    ensures n <= e && DigitsBetween(s, e - n, e)
    ensures n == e || !IsDigit(s[e - n - 1])
  {
    if e > 0 && IsDigit(s[e - 1]) then 1 + DigitRunBack(s, e - 1) else 0
  }

  lemma DigitRunBackExact(s: string, e: nat, n: nat)
    requires n < e <= |s| && DigitsBetween(s, e - n, e) && !IsDigit(s[e - n - 1])
    ensures DigitRunBack(s, e) == n
  {
    if n > 0 {
      DigitRunBackExact(s, e - 1, n - 1);
    }
  }

  /** Where `$` matches last: before a final newline, else at the end. */
  function ContentEnd(id: string): (e: nat)
    ensures e <= |id|
  {
    if |id| > 0 && id[|id| - 1] == '\n' then |id| - 1 else |id|
  }

  /** `v\d+` spans `id[k..e]`. */
  predicate VersionTail(id: string, k: nat, e: nat) {
    k + 1 < e <= |id| && id[k] == 'v' && DigitsBetween(id, k + 1, e)
  }

  /** A version tail ending at `e` starts where the backward run of digits does. */
  lemma VersionTailFound(id: string, e: nat)
    requires e <= |id|
    ensures forall k: nat :: VersionTail(id, k, e) ==> DigitRunBack(id, e) == e - k - 1
  {
    forall k: nat | VersionTail(id, k, e)
      ensures DigitRunBack(id, e) == e - k - 1
    {
      DigitRunBackExact(id, e, e - k - 1);
    }
  }

  /** `re.sub(r'v\d+$', '', id)`: a `v<digits>` that ends the string (or ends
      it but for a final newline) is dropped; without one the text is kept. */
  function StripVersion(id: string): (r: string)
    ensures forall k: nat :: VersionTail(id, k, ContentEnd(id)) ==> r == id[..k] + id[ContentEnd(id)..]
    ensures (forall k: nat :: !VersionTail(id, k, ContentEnd(id))) ==> r == id
  {
    var e := ContentEnd(id);
    VersionTailFound(id, e);
    var d := DigitRunBack(id, e);
    if 0 < d < e && id[e - d - 1] == 'v' then
      assert VersionTail(id, e - d - 1, e);
      id[..e - d - 1] + id[e..]
    else id
  }

  /** `$` matches right after an identifier that ends the text or is followed
      only by a final newline. */
  lemma IdContentEnd(u: string, e: nat, a: nat, b: nat)
    requires IdSplit(u, 0, e, a, b)
    requires e == |u| || (e + 1 == |u| && u[e] == '\n')
    ensures ContentEnd(u) == e
  {
    if e == |u| {
      assert IsDigit(u[e - 1]);
    }
  }

  /** An identifier without a version, at the end, is kept. */
  lemma StripUnversioned(u: string, e: nat, a: nat)
    requires IdSplit(u, 0, e, a, e)
    requires e == |u| || (e + 1 == |u| && u[e] == '\n')
    ensures StripVersion(u) == u
  {
    IdContentEnd(u, e, a, e);
    DigitRunBackExact(u, e, e - a - 1);
  }

  /** Stripping, where `u` is the identifier `u[..e]` followed by nothing or
      by a final newline. */
  lemma StripVersionAt(u: string, e: nat, a: nat, b: nat)
    requires IdSplit(u, 0, e, a, b)
    requires e == |u| || (e + 1 == |u| && u[e] == '\n')
    ensures StripVersion(u) == u[..b] + u[e..]
  {
    if b == e {
      StripUnversioned(u, e, a);
      assert u == u[..b] + u[e..];
    } else {
      IdContentEnd(u, e, a, b);
      assert VersionTail(u, b, e);
    }
  }

  /** Stripping turns a versioned identifier into its base identifier (the
      part before the `v`) and leaves an unversioned one as it is, with or
      without a final newline; the base is itself an unversioned identifier. */
  lemma {:induction false} StripVersionGivesBase(t: string, a: nat, b: nat)
    requires IdSplit(t, 0, |t|, a, b)
    ensures StripVersion(t) == t[..b]
    ensures StripVersion(t + "\n") == t[..b] + "\n"
    ensures IdSplit(t[..b], 0, b, a, b)
  {
    StripVersionAt(t, |t|, a, b);
    var u := t + "\n";
    assert u[..|t|] == t;
    assert IdSplit(u, 0, |t|, a, b);
    StripVersionAt(u, |t|, a, b);
    assert u[..b] == t[..b];
    var base := t[..b];
    assert forall x :: 0 <= x < b ==> base[x] == t[x];
  }
}
