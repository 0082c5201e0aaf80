/**
  The few Python `str` operations the scraper relies on, as pure functions
  over `string` (a sequence of Unicode scalar values, as Python's `str` is a
  sequence of code points): `strip()`, `find`, `in`, `split(sep)[0]`,
  `replace(pat, '')` and `lower()`.
 */
module Text {
  import opened Wrappers

  /** The characters Python's `str.isspace` accepts, hence those `strip()` removes. */
  predicate IsSpace(c: char) {
    || ('\t' <= c <= '\r')          // \t \n \x0b \x0c \r
    || ('\U{1c}' <= c <= '\U{1f}')  // file, group, record and unit separators
    || c == ' ' || c == '\U{85}' || c == '\U{a0}' || c == '\U{1680}'
    || ('\U{2000}' <= c <= '\U{200a}')
    || c == '\U{2028}' || c == '\U{2029}' || c == '\U{202f}' || c == '\U{205f}' || c == '\U{3000}'
  }

  /** A string with no whitespace at either end: what `strip()` returns. */
  predicate IsStripped(s: string) {
    s == [] || (!IsSpace(s[0]) && !IsSpace(s[|s| - 1]))
  }

  /** `s.lstrip()`: drops whitespace from the front. */
  function StripStart(s: string): string
    decreases |s|
  {
    if s != [] && IsSpace(s[0]) then StripStart(s[1..]) else s
  }

  /** `s.rstrip()`: drops whitespace from the back. */
  function StripEnd(s: string): string
    decreases |s|
  {
    if s != [] && IsSpace(s[|s| - 1]) then StripEnd(s[..|s| - 1]) else s
  }

  /** `s.strip()`. */
  function Strip(s: string): string {
    StripEnd(StripStart(s))
  }

  /** `lstrip()` leaves a suffix that does not start with whitespace, and what it
      removed is all whitespace. */
  lemma {:induction false} StripStartShape(s: string)
    ensures |StripStart(s)| <= |s| && StripStart(s) == s[|s| - |StripStart(s)|..]
    ensures forall k | 0 <= k < |s| - |StripStart(s)| :: IsSpace(s[k])
    ensures StripStart(s) != [] ==> !IsSpace(StripStart(s)[0])
    decreases |s|
  {
    if s != [] && IsSpace(s[0]) {
      var t := s[1..];
      StripStartShape(t);
      assert StripStart(s) == StripStart(t);
      forall k | 0 <= k < |s| - |StripStart(s)| ensures IsSpace(s[k]) {
        if k > 0 {
          assert s[k] == t[k - 1];
        }
      }
    }
  }

  /** `rstrip()` leaves a prefix that does not end with whitespace, and what it
      removed is all whitespace. */
  lemma {:induction false} StripEndShape(s: string)
    ensures |StripEnd(s)| <= |s| && StripEnd(s) == s[..|StripEnd(s)|]
    ensures forall k | |StripEnd(s)| <= k < |s| :: IsSpace(s[k])
    ensures StripEnd(s) != [] ==> !IsSpace(StripEnd(s)[|StripEnd(s)| - 1])
    decreases |s|
  {
    if s != [] && IsSpace(s[|s| - 1]) {
      var t := s[..|s| - 1];
      StripEndShape(t);
      assert StripEnd(s) == StripEnd(t);
      forall k | |StripEnd(s)| <= k < |s| ensures IsSpace(s[k]) {
        if k < |t| {
          assert s[k] == t[k];
        }
      }
    }
  }

  /** `Strip(s)` is the slice `s[a..b]`, it is stripped, and everything outside
      the slice is whitespace. */
  lemma StripSpan(s: string) returns (a: nat, b: nat)
    ensures a <= b <= |s| && Strip(s) == s[a..b] && IsStripped(Strip(s))
    ensures forall k | 0 <= k < a :: IsSpace(s[k])
    ensures forall k | b <= k < |s| :: IsSpace(s[k])
  {
    var t := StripStart(s);
    StripStartShape(s);
    var r := StripEnd(t);
    StripEndShape(t);
    a := |s| - |t|;
    b := a + |r|;
    assert t == s[a..];
    assert r == t[..|r|];
    SliceOfDrop(s, a, b);
    assert r != [] ==> r[0] == t[0];
    forall k | b <= k < |s| ensures IsSpace(s[k]) {
      assert s[k] == t[k - a];
    }
  }

  lemma SliceOfDrop(s: string, a: nat, b: nat)
    requires a <= b <= |s|
    ensures s[a..][..b - a] == s[a..b]
  {
  }

  /** Stripping empties a string exactly when the string is all whitespace. */
  lemma StripEmpty(s: string)
    ensures Strip(s) == [] <==> forall k | 0 <= k < |s| :: IsSpace(s[k])
  {
    var a, b := StripSpan(s);
    if Strip(s) != [] {
      assert !IsSpace(s[a]);
    }
  }

  /** A string that is already stripped is left alone, so `strip()` is idempotent. */
  lemma {:induction false} StripStripped(s: string)
    requires IsStripped(s)
    ensures Strip(s) == s
  {
    assert StripStart(s) == s;
    assert StripEnd(s) == s;
  }

  /** One leading whitespace character in front of stripped text is all that `strip()` removes. */
  lemma StripLeadingSpace(w: string)
    requires w != [] && IsSpace(w[0]) && IsStripped(w[1..])
    ensures Strip(w) == w[1..]
  {
    assert StripStart(w) == StripStart(w[1..]);
    StripStripped(w[1..]);
  }

  /** `pat` occurs in `s` starting at index `i`. */
  predicate OccursAt(s: string, pat: string, i: nat) {
    i + |pat| <= |s| && s[i..i + |pat|] == pat
  }

  /** Python's `pat in s`. */
  predicate Contains(s: string, pat: string) {
    exists i: nat | i <= |s| :: OccursAt(s, pat, i)
  }

  lemma SliceOfSlice(s: string, lo: nat, hi: nat, j: nat, len: nat)
    requires lo <= hi <= |s| && j + len <= hi - lo
    ensures s[lo..hi][j..j + len] == s[lo + j..lo + j + len]
  {
    var a, b := s[lo..hi][j..j + len], s[lo + j..lo + j + len];
    forall k | 0 <= k < len ensures a[k] == b[k] {
    }
  }

  /** A string that lacks `pat` has no slice that contains it. */
  lemma SliceLacks(s: string, lo: nat, hi: nat, pat: string)
    requires lo <= hi <= |s| && !Contains(s, pat)
    ensures !Contains(s[lo..hi], pat)
  {
    forall j: nat | j <= hi - lo ensures !OccursAt(s[lo..hi], pat, j) {
      if j + |pat| <= hi - lo {
        SliceOfSlice(s, lo, hi, j, |pat|);
        assert !OccursAt(s, pat, lo + j);
      }
    }
  }

  /** The first index at or after `from` where `pat` occurs. */
  function FindFrom(s: string, pat: string, from: nat): (r: Option<nat>)
    ensures r.Some? ==> from <= r.value && OccursAt(s, pat, r.value)
    ensures r.Some? ==> forall j: nat | from <= j < r.value :: !OccursAt(s, pat, j)
    ensures r.None? ==> forall j: nat | from <= j :: !OccursAt(s, pat, j)
    decreases |s| - from
  {
    if from + |pat| > |s| then None
    else if s[from..from + |pat|] == pat then Some(from)
    else FindFrom(s, pat, from + 1)
  }

  /** Python's `s.find(pat)`, with None for -1. */
  function Find(s: string, pat: string): (r: Option<nat>)
    ensures r.Some? ==> OccursAt(s, pat, r.value) && forall j: nat | j < r.value :: !OccursAt(s, pat, j)
    ensures r.None? <==> !Contains(s, pat)
  {
    FindFrom(s, pat, 0)
  }

  /** Python's `s.split(sep)[0]`: the part of `s` before the first occurrence of `sep`,
      or the whole of `s` when `sep` does not occur (an empty `sep` raises in Python). */
  function Before(s: string, sep: string): (r: string)
    requires sep != []
    ensures r <= s && !Contains(r, sep)
    ensures Contains(s, sep) ==> OccursAt(s, sep, |r|) && forall j: nat | j < |r| :: !OccursAt(s, sep, j)
    ensures !Contains(s, sep) ==> r == s
  {
    match Find(s, sep)
    case Some(i) =>
      assert s[..i] == s[0..i];
      forall j: nat | j <= i ensures !OccursAt(s[0..i], sep, j) {
        if j + |sep| <= i {
          SliceOfSlice(s, 0, i, j, |sep|);
          assert !OccursAt(s, sep, j);
        }
      }
      s[..i]
    case None => s
  }

  /** Python's `s.replace(pat, '')`: one left-to-right pass deleting the leftmost
      non-overlapping occurrences of `pat`. */
  function RemoveAll(s: string, pat: string): (r: string)
    requires pat != []
    ensures |r| <= |s|
    ensures !Contains(s, pat) ==> r == s
    decreases |s|
  {
    if |s| < |pat| then s
    else if s[..|pat|] == pat then
      assert OccursAt(s, pat, 0);
      RemoveAll(s[|pat|..], pat)
    else
      TailLacks(s, pat);
      [s[0]] + RemoveAll(s[1..], pat)
  }

  lemma TailLacks(s: string, pat: string)
    requires s != []
    ensures !Contains(s, pat) ==> !Contains(s[1..], pat) && s == [s[0]] + s[1..]
  {
    if !Contains(s, pat) {
      SliceLacks(s, 1, |s|, pat);
      assert s[1..|s|] == s[1..];
    }
  }

  /** A leading `pat` is deleted and the pass carries on after it. */
  lemma RemoveAllLeading(pat: string, w: string)
    requires pat != []
    ensures RemoveAll(pat + w, pat) == RemoveAll(w, pat)
  {
    assert (pat + w)[..|pat|] == pat;
    assert (pat + w)[|pat|..] == w;
  }

  /** Where no occurrence of `pat` begins, the pass copies one character and moves on. */
  lemma RemoveAllStep(s: string, pat: string)
    requires pat != [] && s != [] && !OccursAt(s, pat, 0)
    ensures RemoveAll(s, pat) == [s[0]] + RemoveAll(s[1..], pat)
  {
    if |s| >= |pat| {
      assert s[..|pat|] == s[0..0 + |pat|];
    }
  }

  /** Dropping the first character shifts every occurrence one place left. */
  lemma ShiftLacks(s: string, pat: string, j: nat)
    requires s != [] && !OccursAt(s, pat, j + 1)
    ensures !OccursAt(s[1..], pat, j)
  {
    if j + |pat| <= |s| - 1 {
      assert s[1..|s|] == s[1..];
      SliceOfSlice(s, 1, |s|, j, |pat|);
    }
  }

  /** Text in which no occurrence of `pat` begins is copied through unchanged. */
  lemma {:induction false} RemoveAllKeeps(s: string, k: nat, pat: string)
    requires pat != [] && k <= |s|
    requires forall j: nat | j < k :: !OccursAt(s, pat, j)
    ensures RemoveAll(s, pat) == s[..k] + RemoveAll(s[k..], pat)
    decreases k
  {
    if k > 0 {
      assert !OccursAt(s, pat, 0);
      var t := s[1..];
      forall j: nat | j < k - 1 ensures !OccursAt(t, pat, j) {
        ShiftLacks(s, pat, j);
      }
      RemoveAllKeeps(t, k - 1, pat);
      SplitAfterFirst(s, k);
      calc {
        RemoveAll(s, pat);
        { RemoveAllStep(s, pat); }
        [s[0]] + RemoveAll(t, pat);
        [s[0]] + (t[..k - 1] + RemoveAll(t[k - 1..], pat));
        { AppendAssoc([s[0]], t[..k - 1], RemoveAll(t[k - 1..], pat)); }
        ([s[0]] + t[..k - 1]) + RemoveAll(t[k - 1..], pat);
        s[..k] + RemoveAll(s[k..], pat);
      }
    } else {
      assert s[..0] + s[0..] == s;
    }
  }

  lemma AppendAssoc(a: string, b: string, c: string)
    ensures a + (b + c) == (a + b) + c
  {
  }

  /** `s[..k]` is its first character followed by the rest, and `s[k..]` read from `s[1..]`. */
  lemma SplitAfterFirst(s: string, k: nat)
    requires 0 < k <= |s|
    ensures [s[0]] + s[1..][..k - 1] == s[..k] && s[1..][k - 1..] == s[k..]
  {
  }

  /** The rule of `replace`: the text before the first occurrence of `pat` is
      kept, that occurrence is deleted, and the pass carries on after it. */
  lemma RemoveAllFirst(s: string, pat: string)
    requires pat != [] && Find(s, pat).Some?
    ensures var k := Find(s, pat).value;
      k + |pat| <= |s| && RemoveAll(s, pat) == s[..k] + RemoveAll(s[k + |pat|..], pat)
  {
    var k := Find(s, pat).value;
    RemoveAllKeeps(s, k, pat);
    assert s[k..] == pat + s[k + |pat|..];
    RemoveAllLeading(pat, s[k + |pat|..]);
  }

  /** One occurrence of `pat`, preceded by text in which no occurrence begins and
      followed by text too short to hold one, is the only thing the pass deletes. */
  lemma RemoveAllAround(u: string, pat: string, v: string)
    requires pat != [] && |v| < |pat|
    requires forall j: nat | j < |u| :: !OccursAt(u + pat + v, pat, j)
    ensures RemoveAll(u + pat + v, pat) == u + v
  {
    var s := u + pat + v;
    RemoveAllKeeps(s, |u|, pat);
    assert s[..|u|] == u;
    assert s[|u|..] == pat + v;
    RemoveAllLeading(pat, v);
  }

  /** The character `lower()` maps `c` to, as far as matching against lower-case
      ASCII text is concerned: A-Z, and the Kelvin sign, which lowers to 'k'. */
  function LowerChar(c: char): char {
    if 'A' <= c <= 'Z' then (c as int + 32) as char
    else if c == '\U{212a}' then 'k'
    else c
  }

  /** `s.lower()`, character by character. */
  function Lower(s: string): (r: string)
    ensures |r| == |s| && forall i | 0 <= i < |s| :: r[i] == LowerChar(s[i])
  {
    if s == [] then [] else [LowerChar(s[0])] + Lower(s[1..])
  }
}
