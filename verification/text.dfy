/** The handful of Python string operations the history viewer relies on:
    the `in` substring test, `str.split(sep)[-1]`, `str.strip()`,
    slicing with a start past the end, `" ".join(...)` and
    `str.splitlines()[0]`. Strings are sequences of characters. */
module Text {
  import opened Results

  /** Characters for which Python's `str.isspace()` holds, i.e. what
      `str.strip()` with no argument removes. */
  predicate IsSpace(c: char) {
    || c == ' ' || c == '\t' || c == '\n' || c == '\r'
    || c == '\U{0B}' || c == '\U{0C}'
    || ('\U{1C}' <= c <= '\U{1F}')
    || c == '\U{85}' || c == '\U{A0}' || c == '\U{1680}'
    || ('\U{2000}' <= c <= '\U{200A}')
    || c == '\U{2028}' || c == '\U{2029}' || c == '\U{202F}'
    || c == '\U{205F}' || c == '\U{3000}'
  }

  /** Characters at which Python's `str.splitlines()` ends a line. */
  predicate IsLineBreak(c: char) {
    || c == '\n' || c == '\r' || c == '\U{0B}' || c == '\U{0C}'
    || c == '\U{1C}' || c == '\U{1D}' || c == '\U{1E}'
    || c == '\U{85}' || c == '\U{2028}' || c == '\U{2029}'
  }

  predicate AllSpace(s: string) {
    forall k :: 0 <= k < |s| ==> IsSpace(s[k])
  }

  /** `sub` occurs in `s` starting at index `i`. */
  predicate OccursAt(s: string, sub: string, i: int) {
    0 <= i && i + |sub| <= |s| && s[i..i + |sub|] == sub
  }

  lemma OccursShiftAll(s: string, sub: string)
    requires |s| > 0
    ensures forall j :: 1 <= j ==> (OccursAt(s, sub, j) <==> OccursAt(s[1..], sub, j - 1))
  {
  }

  /** An occurrence inside an occurrence is an occurrence. */
  lemma OccursWithin(a: string, b: string, c: string, i: int, j: int)
    requires OccursAt(a, b, i) && OccursAt(b, c, j)
    ensures OccursAt(a, c, i + j)
  {
    forall k | 0 <= k < |c| ensures a[i + j + k] == c[k] {
      assert c[k] == b[j + k];
      assert b[j + k] == a[i + j + k];
    }
    assert a[i + j..i + j + |c|] == c;
  }

  /** A prefix of an occurrence is an occurrence. */
  lemma OccursPrefix(s: string, sub: string, i: int, n: nat)
    requires OccursAt(s, sub, i) && n <= |sub|
    ensures OccursAt(s, sub[..n], i)
  {
  }

  /** Index of the leftmost occurrence of `sub` in `s`, if any. */
  function FindFirst(s: string, sub: string): (r: Option<nat>)
    ensures r.Some? ==> OccursAt(s, sub, r.value)
    decreases |s|
  {
    if |sub| <= |s| && s[..|sub|] == sub then Some(0)
    else if |s| == 0 then None
    else
      match FindFirst(s[1..], sub)
      case None => None
      case Some(i) => Some(i + 1)
  }

  /** `FindFirst` finds an occurrence, none before it, and reports none
      only when there is none. */
  lemma {:induction false} FindFirstSpec(s: string, sub: string)
    ensures var r := FindFirst(s, sub);
      && (r.Some? ==> forall j :: 0 <= j < r.value ==> !OccursAt(s, sub, j))
      && (r.None? ==> forall j :: !OccursAt(s, sub, j))
    decreases |s|
  {
    if |sub| <= |s| && s[..|sub|] == sub {
      assert OccursAt(s, sub, 0);
    } else if |s| > 0 {
      FindFirstSpec(s[1..], sub);
      assert !OccursAt(s, sub, 0);
      OccursShiftAll(s, sub);
    }
  }

  /** Python's `sub in s`. */
  function Contains(s: string, sub: string): bool {
    FindFirst(s, sub).Some?
  }

  /** `sub in s` holds exactly when `sub` occurs somewhere in `s`. */
  lemma ContainsIff(s: string, sub: string)
    ensures Contains(s, sub) <==> exists i :: OccursAt(s, sub, i)
  {
    FindFirstSpec(s, sub);
  }

  /** Python's `s[n:]` for `n >= 0`: empty when `n` is past the end. */
  function Drop(s: string, n: nat): (r: string)
    ensures n <= |s| ==> |r| == |s| - n && r == s[n..]
    ensures n > |s| ==> r == []
  {
    if n <= |s| then s[n..] else []
  }

  /** An occurrence in a suffix is an occurrence in the whole string. */
  lemma OccursInSuffix(s: string, sub: string, n: nat, j: int)
    requires n <= |s| && OccursAt(s[n..], sub, j)
    ensures OccursAt(s, sub, n + j)
  {
  }

  /** Python's `s.split(sep)` scan: from position `p`, with the current
      piece starting at `start`, skip ahead over each non-overlapping
      `sep` found left to right; the result is where the last piece starts. */
  function PieceStart(s: string, sep: string, p: nat, start: nat): (n: nat)
    requires |sep| > 0 && start <= p <= |s|
    ensures start <= n <= |s|
    decreases |s| - p
  {
    if p + |sep| > |s| then start
    else if OccursAt(s, sep, p) then PieceStart(s, sep, p + |sep|, p + |sep|)
    else PieceStart(s, sep, p + 1, start)
  }

  /** No `sep` occurs at or after the start of the last piece, when none
      occurred between `start` and `p`. */
  lemma {:induction false} PieceStartClean(s: string, sep: string, p: nat, start: nat)
    requires |sep| > 0 && start <= p <= |s|
    requires forall j :: start <= j < p ==> !OccursAt(s, sep, j)
    ensures forall j :: PieceStart(s, sep, p, start) <= j ==> !OccursAt(s, sep, j)
    decreases |s| - p
  {
    if p + |sep| > |s| {
    } else if OccursAt(s, sep, p) {
      PieceStartClean(s, sep, p + |sep|, p + |sep|);
    } else {
      PieceStartClean(s, sep, p + 1, start);
    }
  }

  /** A `sep` ends at position `n` of `s`. */
  predicate SepEndsAt(s: string, sep: string, n: int) {
    n >= |sep| && OccursAt(s, sep, n - |sep|)
  }

  /** A `sep` ends right where the last piece starts, unless the scan
      never left the piece it started in. */
  lemma {:induction false} PieceStartAfterSep(s: string, sep: string, p: nat, start: nat)
    requires |sep| > 0 && start <= p <= |s|
    ensures var n := PieceStart(s, sep, p, start);
      n == start || SepEndsAt(s, sep, n)
    decreases |s| - p
  {
    if p + |sep| <= |s| {
      if OccursAt(s, sep, p) {
        assert SepEndsAt(s, sep, p + |sep|);
        PieceStartAfterSep(s, sep, p + |sep|, p + |sep|);
      } else {
        PieceStartAfterSep(s, sep, p + 1, start);
      }
    }
  }

  /** Python's `s.split(sep)[-1]`: the piece left after splitting `s`
      left to right at every non-overlapping occurrence of `sep`. It is a
      suffix of `s` holding no `sep`, and unless it is all of `s`, a `sep`
      comes right before it. */
  function AfterLast(s: string, sep: string): (r: string)
    requires |sep| > 0
    ensures |r| <= |s| && r == s[|s| - |r|..]
    ensures !Contains(r, sep)
    ensures Contains(s, sep) ==> OccursAt(s, sep, |s| - |r| - |sep|)
    ensures !Contains(s, sep) ==> r == s
  {
    var n := PieceStart(s, sep, 0, 0);
    PieceStartClean(s, sep, 0, 0);
    PieceStartAfterSep(s, sep, 0, 0);
    AfterLastFacts(s, sep, n);
    s[n..]
  }

  /** What the scan's two lemmas give, in terms of `sub in s`. */
  lemma AfterLastFacts(s: string, sep: string, n: nat)
    requires n <= |s|
    requires forall j :: n <= j ==> !OccursAt(s, sep, j)
    requires n > 0 ==> n >= |sep| && OccursAt(s, sep, n - |sep|)
    ensures !Contains(s[n..], sep)
    ensures Contains(s, sep) <==> n > 0
  {
    ContainsIff(s[n..], sep);
    ContainsIff(s, sep);
    if Contains(s[n..], sep) {
      var j :| OccursAt(s[n..], sep, j);
      OccursInSuffix(s, sep, n, j);
    }
  }

  /** Number of whitespace characters at the front of `s`. */
  function LeadingSpaces(s: string): (n: nat)
    ensures n <= |s|
    ensures AllSpace(s[..n])
    ensures n < |s| ==> !IsSpace(s[n])
  {
    if |s| > 0 && IsSpace(s[0]) then
      var n := 1 + LeadingSpaces(s[1..]);
      assert s[..n] == [s[0]] + s[1..][..n - 1];
      n
    else 0
  }

  /** Number of whitespace characters right before position `e` of `s`. */
  function SpacesBefore(s: string, e: nat): (n: nat)
    requires e <= |s|
    ensures n <= e
    ensures forall k :: e - n <= k < e ==> IsSpace(s[k])
    ensures n < e ==> !IsSpace(s[e - 1 - n])
    decreases e
  {
    if e > 0 && IsSpace(s[e - 1]) then 1 + SpacesBefore(s, e - 1) else 0
  }

  /** Number of whitespace characters at the back of `s`. */
  function TrailingSpaces(s: string): (n: nat)
    ensures n <= |s|
    ensures AllSpace(s[|s| - n..])
    ensures n < |s| ==> !IsSpace(s[|s| - 1 - n])
  {
    SpacesBefore(s, |s|)
  }

  /** A string with no whitespace at either end. */
  predicate IsStripped(s: string) {
    |s| > 0 ==> !IsSpace(s[0]) && !IsSpace(s[|s| - 1])
  }

  /** Python's `s.strip()`: `s` is `r` with whitespace only on either side. */
  function Strip(s: string): (r: string)
    ensures IsStripped(r)
    ensures exists i :: OccursAt(s, r, i) && AllSpace(s[..i]) && AllSpace(s[i + |r|..])
  {
    var i := LeadingSpaces(s);
    var t := s[i..];
    var n := TrailingSpaces(t);
    var r := t[..|t| - n];
    assert OccursAt(s, r, i);
    assert s[i + |r|..] == t[|t| - n..];
    assert |r| > 0 ==> r[0] == s[i] && r[|r| - 1] == t[|t| - 1 - n];
    r
  }

  function TotalLength(parts: seq<string>): nat {
    if |parts| == 0 then 0 else TotalLength(parts[..|parts| - 1]) + |parts[|parts| - 1]|
  }

  /** Python's `sep.join(parts)`. */
  function Join(sep: string, parts: seq<string>): (r: string)
    ensures |parts| == 0 ==> |r| == 0
    ensures |parts| > 0 ==> |r| == TotalLength(parts) + (|parts| - 1) * |sep|
  {
    if |parts| == 0 then []
    else if |parts| == 1 then parts[0]
    else
      Join(sep, parts[..|parts| - 1]) + sep + parts[|parts| - 1]
  }

  /** Joining a concatenation is joining each half, with one separator between. */
  lemma {:induction false} JoinAppend(sep: string, a: seq<string>, b: seq<string>)
    requires |a| > 0 && |b| > 0
    ensures Join(sep, a + b) == Join(sep, a) + sep + Join(sep, b)
    decreases |b|
  {
    if |b| == 1 {
      assert (a + b)[..|a + b| - 1] == a;
    } else {
      var b' := b[..|b| - 1];
      assert (a + b)[..|a + b| - 1] == a + b';
      JoinAppend(sep, a, b');
    }
  }

  /** Length of the first line of `s`: the characters before the first line break. */
  function LineLength(s: string): (n: nat)
    ensures n <= |s|
    ensures forall k :: 0 <= k < n ==> !IsLineBreak(s[k])
    ensures n < |s| ==> IsLineBreak(s[n])
  {
    if |s| == 0 || IsLineBreak(s[0]) then 0 else 1 + LineLength(s[1..])
  }

  /** Python's `s.splitlines()[0]`: `None` stands for the IndexError raised
      on the empty string, whose `splitlines()` is the empty list. */
  function FirstLine(s: string): (r: Option<string>)
    ensures r.None? <==> |s| == 0
    ensures r.Some? ==> |r.value| <= |s| && r.value == s[..|r.value|]
    ensures r.Some? ==> forall k :: 0 <= k < |r.value| ==> !IsLineBreak(r.value[k])
    ensures r.Some? && |r.value| < |s| ==> IsLineBreak(s[|r.value|])
  {
    if |s| == 0 then None else Some(s[..LineLength(s)])
  }
}
