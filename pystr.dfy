/**
 * The parts of Python's `str` behaviour that the reward scorer relies on:
 * substring search, `str.strip()` and `str.lower()`.
 */
module PyStr {
  import opened Wrappers

  // ---------------------------------------------------------------------------
  // Substring search
  // ---------------------------------------------------------------------------

  /** `pat` occurs in `s` starting at index `i`. */
  predicate OccursAt(s: string, pat: string, i: nat) {
    i + |pat| <= |s| && s[i..i + |pat|] == pat
  }

  /** `pat` occurs somewhere in `s` (Python's `pat in s`). */
  ghost predicate Contains(s: string, pat: string) {
    exists k: nat :: OccursAt(s, pat, k)
  }

  /** The first index at or after `i` where `pat` occurs (Python's `s.find(pat, i)`, with `None` for -1). */
  function FindFrom(s: string, pat: string, i: nat): (r: Option<nat>)
    ensures r.Some? ==> i <= r.value && OccursAt(s, pat, r.value)
    ensures r.Some? ==> forall k: nat :: i <= k < r.value ==> !OccursAt(s, pat, k)
    ensures r.None? ==> forall k: nat :: i <= k ==> !OccursAt(s, pat, k)
    decreases |s| - i
  {
    if |s| < i + |pat| then None
    else if s[i..i + |pat|] == pat then Some(i)
    else FindFrom(s, pat, i + 1)
  }

  /** Concatenation regroups freely. */
  lemma AppendAssoc(x: string, y: string, z: string)
    ensures x + (y + z) == x + y + z
  {
  }

  /** One character that differs from the pattern's rules out an occurrence. */
  lemma NotAtMismatch(s: string, pat: string, k: nat, m: nat)
    requires m < |pat| && k + m < |s| && s[k + m] != pat[m]
    ensures !OccursAt(s, pat, k)
  {
    if k + |pat| <= |s| {
      assert s[k..k + |pat|][m] == s[k + m];
    }
  }

  /** A tag such as `<answer>`: it starts with `<` and has no other `<`. */
  predicate OpensOnce(pat: string) {
    |pat| > 0 && pat[0] == '<' && '<' !in pat[1..]
  }

  /** An occurrence inside a slice is an occurrence in the whole text, shifted by the slice's start. */
  lemma OccursInSlice(s: string, lo: nat, hi: nat, pat: string, k: nat)
    requires lo <= hi <= |s|
    ensures OccursAt(s[lo..hi], pat, k) <==> k + |pat| <= hi - lo && OccursAt(s, pat, lo + k)
  {
    if k + |pat| <= hi - lo {
      var x, y := s[lo..hi][k..k + |pat|], s[lo + k..lo + k + |pat|];
      forall m | 0 <= m < |pat|
        ensures x[m] == y[m]
      {
        assert x[m] == s[lo..hi][k + m];
      }
      assert x == y;
    }
  }

  /** `pat` occurs in `s` and in `t` at the same indices. */
  ghost predicate SameOccurrences(s: string, t: string, pat: string) {
    forall k: nat :: OccursAt(s, pat, k) == OccursAt(t, pat, k)
  }

  /** The search only looks at where `pat` occurs: texts with the same occurrences give the same answer. */
  lemma FindFromAgree(s: string, t: string, pat: string, i: nat)
    requires SameOccurrences(s, t, pat)
    ensures FindFrom(s, pat, i) == FindFrom(t, pat, i)
  {
    var a, b := FindFrom(s, pat, i), FindFrom(t, pat, i);
    if a.Some? && b.Some? {
      assert OccursAt(s, pat, b.value);
      assert OccursAt(t, pat, a.value);
    }
  }

  /** A tag that opens once cannot straddle a `<` of the text: it would need a second `<`. */
  lemma NoStraddle(s: string, pat: string, k: nat, e: nat)
    requires OpensOnce(pat) && e < |s| && s[e] == '<' && k < e < k + |pat|
    ensures !OccursAt(s, pat, k)
  {
  }

  /** A pattern without `<` cannot occur across a `<` of the text. */
  lemma NoOccurrenceOverLt(s: string, pat: string, k: nat, e: nat)
    requires '<' !in pat && e < |s| && s[e] == '<' && k <= e < k + |pat|
    ensures !OccursAt(s, pat, k)
  {
  }

  /**
   * A tag that opens once occurs in `x + y` only inside `x` or inside `y`
   * when `y` starts with `<` (or is empty).
   */
  lemma NoOccurrenceInConcat(x: string, y: string, pat: string)
    requires OpensOnce(pat) && !Contains(x, pat) && !Contains(y, pat)
    requires y == [] || y[0] == '<'
    ensures !Contains(x + y, pat)
  {
    var s := x + y;
    assert s[0..|x|] == x && s[|x|..|s|] == y;
    forall k: nat
      ensures !OccursAt(s, pat, k)
    {
      if k + |pat| <= |x| {
        OccursInSlice(s, 0, |x|, pat, k);
      } else if |x| <= k {
        OccursInSlice(s, |x|, |s|, pat, k - |x|);
      } else if y != [] {
        NoStraddle(s, pat, k, |x|);
      }
    }
  }

  /**
   * If a tag that opens once occurs at `e` and no occurrence lies wholly inside `s[i..e]`,
   * the search from `i` stops exactly at `e`.
   */
  lemma {:induction false} FindStopsAt(s: string, pat: string, i: nat, e: nat)
    requires OpensOnce(pat) && i <= e && OccursAt(s, pat, e)
    requires forall k: nat :: i <= k && k + |pat| <= e ==> !OccursAt(s, pat, k)
    ensures FindFrom(s, pat, i) == Some(e)
  {
    forall k: nat | i <= k < e
      ensures !OccursAt(s, pat, k)
    {
      if e < k + |pat| {
        NoStraddle(s, pat, k, e);
      }
    }
  }

  /**
   * If a tag that opens once occurs at `e` and `s[i..e]` does not contain it,
   * the search from `i` finds it at `e`.
   */
  lemma FindAfterGap(s: string, pat: string, i: nat, e: nat)
    requires OpensOnce(pat) && i <= e && OccursAt(s, pat, e)
    requires !Contains(s[i..e], pat)
    ensures FindFrom(s, pat, i) == Some(e)
  {
    forall k: nat | i <= k && k + |pat| <= e
      ensures !OccursAt(s, pat, k)
    {
      OccursInSlice(s, i, e, pat, k - i);
    }
    FindStopsAt(s, pat, i, e);
  }

  // ---------------------------------------------------------------------------
  // str.strip()
  // ---------------------------------------------------------------------------

  /**
   * Python's `str.isspace()` for one character: the ASCII controls TAB..CR and
   * FS..US, SPACE, NEL, NO-BREAK SPACE and the Unicode space separators.
   */
  predicate IsSpace(c: char) {
    var n := c as int;
    (9 <= n <= 13) || (28 <= n <= 32) || n == 0x85 || n == 0xA0 || n == 0x1680
    || (0x2000 <= n <= 0x200A) || n == 0x2028 || n == 0x2029 || n == 0x202F
    || n == 0x205F || n == 0x3000
  }

  /** On ASCII, the whitespace set is the one Python's `str.isspace()` reports: TAB, LF, VT, FF, CR, FS, GS, RS, US and SPACE. */
  lemma IsSpaceAscii(c: char)
    requires c as int < 128
    ensures IsSpace(c) <==> c in {'\t', '\n', '\U{0B}', '\U{0C}', '\r', '\U{1C}', '\U{1D}', '\U{1E}', '\U{1F}', ' '}
  {
  }

  /** `r` sits at index `i` of `s`, with only whitespace before and after it. */
  ghost predicate StripWitness(s: string, r: string, i: nat) {
    i + |r| <= |s| && s[i..i + |r|] == r
    && (forall k :: 0 <= k < i ==> IsSpace(s[k]))
    && (forall k :: i + |r| <= k < |s| ==> IsSpace(s[k]))
  }

  /**
   * `r` is `s` with its leading and trailing whitespace removed: a contiguous piece
   * of `s`, whitespace on both sides of it, and no whitespace at either end of it.
   */
  ghost predicate IsStripOf(r: string, s: string) {
    (r == [] || (!IsSpace(r[0]) && !IsSpace(r[|r| - 1])))
    && exists i: nat :: StripWitness(s, r, i)
  }

  /** The index of the first non-whitespace character at or after `i` (where `s.lstrip()` starts). */
  function SkipSpaces(s: string, i: nat): (n: nat)
    requires i <= |s|
    ensures i <= n <= |s|
    ensures forall k :: i <= k < n ==> IsSpace(s[k])
    ensures n < |s| ==> !IsSpace(s[n])
    decreases |s| - i
  {
    if i < |s| && IsSpace(s[i]) then SkipSpaces(s, i + 1) else i
  }

  /** The end of `s[lo..j]` once its trailing whitespace is dropped (where `s.rstrip()` ends). */
  function DropSpaces(s: string, lo: nat, j: nat): (m: nat)
    requires lo <= j <= |s|
    ensures lo <= m <= j
    ensures forall k :: m <= k < j ==> IsSpace(s[k])
    ensures lo < m ==> !IsSpace(s[m - 1])
  {
    if lo < j && IsSpace(s[j - 1]) then DropSpaces(s, lo, j - 1) else j
  }

  /** `s.strip()` */
  function Strip(s: string): (r: string)
    ensures IsStripOf(r, s)
  {
    var lo := SkipSpaces(s, 0);
    var hi := DropSpaces(s, lo, |s|);
    assert StripWitness(s, s[lo..hi], lo);
    s[lo..hi]
  }

  /** The description of stripping admits one result only. */
  lemma StripUnique(s: string, r1: string, r2: string)
    requires IsStripOf(r1, s) && IsStripOf(r2, s)
    ensures r1 == r2
  {
    var i1: nat :| StripWitness(s, r1, i1);
    var i2: nat :| StripWitness(s, r2, i2);
    if r1 != [] {
      assert s[i1] == r1[0] && s[i1 + |r1| - 1] == r1[|r1| - 1];
    }
    if r2 != [] {
      assert s[i2] == r2[0] && s[i2 + |r2| - 1] == r2[|r2| - 1];
    }
  }

  // ---------------------------------------------------------------------------
  // str.lower()
  // ---------------------------------------------------------------------------

  /** Lower-cases an ASCII capital letter; every other character is kept. */
  function LowerChar(c: char): (r: char)
    ensures !('A' <= r <= 'Z')
    ensures ('a' <= r <= 'z') <==> ('a' <= c <= 'z' || 'A' <= c <= 'Z')
    ensures !('A' <= c <= 'Z') ==> r == c
    ensures 'A' <= c <= 'Z' ==> r == "abcdefghijklmnopqrstuvwxyz"[c as int - 'A' as int]
  {
    if 'A' <= c <= 'Z' then (c as int + 32) as char else c
  }

  /** Case folding neither makes nor unmakes whitespace. */
  lemma LowerCharSpace(c: char)
    ensures IsSpace(LowerChar(c)) == IsSpace(c)
  {
  }

  /** `s.lower()`, folding ASCII letters. */
  function Lower(s: string): (r: string)
    ensures |r| == |s|
    ensures forall k :: 0 <= k < |s| ==> r[k] == LowerChar(s[k])
  {
    if s == [] then [] else [LowerChar(s[0])] + Lower(s[1..])
  }

  /** Lower-casing twice is lower-casing once. */
  lemma LowerIdempotent(s: string)
    ensures Lower(Lower(s)) == Lower(s)
  {
  }

  /** Lower-casing a piece of a text is taking that piece of the lower-cased text. */
  lemma LowerSlice(s: string, lo: nat, hi: nat)
    requires lo <= hi <= |s|
    ensures Lower(s[lo..hi]) == Lower(s)[lo..hi]
  {
    var x, y := Lower(s[lo..hi]), Lower(s)[lo..hi];
    assert |x| == |y| == hi - lo;
    forall k | 0 <= k < hi - lo
      ensures x[k] == y[k]
    {
      assert s[lo..hi][k] == s[lo + k];
      assert x[k] == LowerChar(s[lo + k]) == y[k];
    }
    assert x == y;
  }

  /** Lower-casing keeps a strip witness a strip witness. */
  lemma LowerStripWitness(s: string, r: string, i: nat)
    requires StripWitness(s, r, i)
    ensures StripWitness(Lower(s), Lower(r), i)
  {
    var ls := Lower(s);
    LowerSlice(s, i, i + |r|);
    forall k | 0 <= k < i
      ensures IsSpace(ls[k])
    {
      LowerCharSpace(s[k]);
    }
    forall k | i + |r| <= k < |s|
      ensures IsSpace(ls[k])
    {
      LowerCharSpace(s[k]);
    }
  }

  /** Stripping and lower-casing commute. */
  lemma LowerStrip(s: string)
    ensures Lower(Strip(s)) == Strip(Lower(s))
  {
    var r := Strip(s);
    var i: nat :| StripWitness(s, r, i);
    LowerStripWitness(s, r, i);
    if r != [] {
      LowerCharSpace(r[0]);
      LowerCharSpace(r[|r| - 1]);
    }
    assert IsStripOf(Lower(r), Lower(s));
    StripUnique(Lower(s), Lower(r), Strip(Lower(s)));
  }

  /** Two texts that differ only in letter case strip to texts that differ only in letter case. */
  lemma {:induction false} StripIgnoresCase(x: string, y: string)
    requires Lower(x) == Lower(y)
    ensures Lower(Strip(x)) == Lower(Strip(y))
  {
    LowerStrip(x);
    LowerStrip(y);
  }

  /** The same piece of two texts that differ only in letter case strips to texts that differ only in letter case. */
  lemma StripSliceIgnoresCase(x: string, y: string, lo: nat, hi: nat)
    requires Lower(x) == Lower(y) && lo <= hi <= |x|
    ensures Lower(Strip(x[lo..hi])) == Lower(Strip(y[lo..hi]))
  {
    LowerSlice(x, lo, hi);
    LowerSlice(y, lo, hi);
    StripIgnoresCase(x[lo..hi], y[lo..hi]);
  }
}
