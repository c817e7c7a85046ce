/** The string operations the service applies to labels, names and emails:
    JavaScript's `String.prototype.trim`, the `/\s+/g` whitespace class,
    and `toLowerCase` (restricted as stated on LowerChar). The scans walk
    the string by index. */
module Text {

  /** ECMAScript WhiteSpace and LineTerminator code points: the characters
      `trim` removes and `\s` matches. */
  predicate IsSpace(c: char) {
    var n := c as int;
    n == 0x09 || n == 0x0A || n == 0x0B || n == 0x0C || n == 0x0D || n == 0x20
    || n == 0xA0 || n == 0x1680 || (0x2000 <= n <= 0x200A)
    || n == 0x2028 || n == 0x2029 || n == 0x202F || n == 0x205F
    || n == 0x3000 || n == 0xFEFF
  }

  predicate NoSpace(s: string) {
    forall i :: 0 <= i < |s| ==> !IsSpace(s[i])
  }

  /** Neither starts nor ends with whitespace. */
  predicate IsTrimmed(s: string) {
    s == [] || (!IsSpace(s[0]) && !IsSpace(s[|s| - 1]))
  }

  /** The first index at or after `i` that holds no whitespace, or `|s|`. */
  function SkipSpaces(s: string, i: nat): (j: nat)
    requires i <= |s|
    ensures i <= j <= |s|
    ensures forall k :: i <= k < j ==> IsSpace(s[k])
    ensures j == |s| || !IsSpace(s[j])
    decreases |s| - i
  {
    if i < |s| && IsSpace(s[i]) then SkipSpaces(s, i + 1) else i
  }

  /** The smallest index `k`, not below `lo`, such that `s[k..j]` is all
      whitespace. */
  function SkipSpacesBack(s: string, lo: nat, j: nat): (k: nat)
    requires lo <= j <= |s|
    ensures lo <= k <= j
    ensures forall m :: k <= m < j ==> IsSpace(s[m])
    ensures k == lo || !IsSpace(s[k - 1])
    decreases j - lo
  {
    if lo < j && IsSpace(s[j - 1]) then SkipSpacesBack(s, lo, j - 1) else j
  }

  /** `s.trim()`: `s` without its leading and trailing whitespace. */
  function Trim(s: string): (r: string)
    ensures IsTrimmed(r)
    ensures |r| <= |s|
    ensures r == [] <==> forall i :: 0 <= i < |s| ==> IsSpace(s[i])
    ensures IsTrimmed(s) ==> r == s
  {
    var a := SkipSpaces(s, 0);
    var b := SkipSpacesBack(s, a, |s|);
    assert a < |s| ==> a < b;
    s[a..b]
  }

  /** What `trim` removes is exactly the whitespace at both ends: the result
      is the slice of `s` between a run of leading and a run of trailing
      whitespace. */
  lemma TrimIsSlice(s: string)
    ensures var a := SkipSpaces(s, 0);
      && a + |Trim(s)| <= |s| && Trim(s) == s[a..a + |Trim(s)|]
      && (forall k :: 0 <= k < a ==> IsSpace(s[k]))
      && (forall k :: a + |Trim(s)| <= k < |s| ==> IsSpace(s[k]))
  {
    var a := SkipSpaces(s, 0);
    var b := SkipSpacesBack(s, a, |s|);
    assert a < |s| ==> a < b;
    assert Trim(s) == s[a..b];
  }

  /** `toLowerCase` on one character: ASCII A-Z and the Latin-1 capitals
      U+00C0..U+00DE (except U+00D7, the multiplication sign) move 0x20 down
      the table; everything else is kept. */
  function LowerChar(c: char): (r: char)
    ensures ('A' <= c <= 'Z') ==> 'a' <= r <= 'z'
    ensures !IsUpper(r)
    ensures IsSpace(r) <==> IsSpace(c)
    ensures !IsUpper(c) ==> r == c
  {
    if IsUpper(c) then (c as int + 0x20) as char else c
  }

  predicate IsUpper(c: char) {
    ('A' <= c <= 'Z') || (0xC0 <= c as int <= 0xDE && c as int != 0xD7)
  }

  /** `s.toLowerCase()`, character by character. */
  function Lower(s: string): (r: string)
    ensures |r| == |s|
    ensures forall i :: 0 <= i < |s| ==> r[i] == LowerChar(s[i])
  {
    seq(|s|, i requires 0 <= i < |s| => LowerChar(s[i]))
  }

  /** `toLowerCase` works character by character, so it distributes over
      concatenation. */
  lemma LowerAppend(a: string, b: string)
    ensures Lower(a + b) == Lower(a) + Lower(b)
  {
    assert forall i :: 0 <= i < |a + b| ==> Lower(a + b)[i] == (Lower(a) + Lower(b))[i];
  }

  predicate IsLower(s: string) {
    forall i :: 0 <= i < |s| ==> !IsUpper(s[i])
  }

  /** `s[i..].replace(/\s+/g, ".")`: every maximal run of whitespace from
      index `i` on becomes one dot. */
  function DotsFrom(s: string, i: nat): (r: string)
    requires i <= |s|
    ensures |r| <= |s| - i
    decreases |s| - i
  {
    if i == |s| then []
    else if IsSpace(s[i]) then "." + DotsFrom(s, SkipSpaces(s, i + 1))
    else [s[i]] + DotsFrom(s, i + 1)
  }

  /** `s.replace(/\s+/g, ".")` */
  function DotSpaceRuns(s: string): (r: string)
    ensures NoSpace(r)
    ensures |r| <= |s|
    ensures NoSpace(s) ==> r == s
  {
    DotsHaveNoSpace(s, 0);
    assert NoSpace(s) ==> DotsFrom(s, 0) == s by {
      if NoSpace(s) {
        DotsAcrossPlain(s, 0, |s|);
      }
    }
    DotsFrom(s, 0)
  }

  /** `trim`'s scan stops at the first non-whitespace character: any `j`
      past a run of whitespace from `i` and at a non-space (or the end) is
      where it stops. */
  lemma SkipSpacesStopsAt(s: string, i: nat, j: nat)
    requires i <= j <= |s|
    requires forall k :: i <= k < j ==> IsSpace(s[k])
    requires j == |s| || !IsSpace(s[j])
    ensures SkipSpaces(s, i) == j
  {
  }

  /** Every whitespace run is replaced, so none is left. */
  lemma {:induction false} DotsHaveNoSpace(s: string, i: nat)
    requires i <= |s|
    ensures NoSpace(DotsFrom(s, i))
    decreases |s| - i
  {
    if i < |s| {
      if IsSpace(s[i]) {
        DotsHaveNoSpace(s, SkipSpaces(s, i + 1));
      } else {
        DotsHaveNoSpace(s, i + 1);
      }
    }
  }

  /** One unfolding of `DotsFrom` at a character that is kept. */
  lemma DotsPlainStep(s: string, i: nat)
    requires i < |s| && !IsSpace(s[i])
    ensures DotsFrom(s, i) == [s[i]] + DotsFrom(s, i + 1)
  {
  }

  /** One unfolding of `DotsFrom` at the start of a whitespace run. */
  lemma DotsSpaceStep(s: string, i: nat)
    requires i < |s| && IsSpace(s[i])
    ensures DotsFrom(s, i) == "." + DotsFrom(s, SkipSpaces(s, i + 1))
  {
  }

  /** The whitespace scan of `t` does not depend on what precedes it. */
  lemma SkipSpacesShift(p: string, t: string, i: nat)
    requires i <= |t|
    ensures SkipSpaces(p + t, |p| + i) == |p| + SkipSpaces(t, i)
  {
    var s := p + t;
    var j := SkipSpaces(t, i);
    assert forall k :: |p| + i <= k < |p| + j ==> s[k] == t[k - |p|];
    assert |p| + j < |s| ==> s[|p| + j] == t[j];
    SkipSpacesStopsAt(s, |p| + i, |p| + j);
  }

  /** A stretch without whitespace is copied as it is. */
  lemma {:induction false} DotsAcrossPlain(s: string, i: nat, j: nat)
    requires i <= j <= |s|
    requires forall k :: i <= k < j ==> !IsSpace(s[k])
    ensures DotsFrom(s, i) == s[i..j] + DotsFrom(s, j)
    decreases j - i
  {
    if i < j {
      DotsPlainStep(s, i);
      DotsAcrossPlain(s, i + 1, j);
      assert s[i..j] == [s[i]] + s[i + 1..j];
    }
  }

  /** The replacement of `t` does not depend on what precedes it. */
  lemma {:induction false} DotsShift(p: string, t: string, i: nat)
    requires i <= |t|
    ensures DotsFrom(p + t, |p| + i) == DotsFrom(t, i)
    decreases |t| - i, 1
  {
    if i == |t| {
      assert DotsFrom(t, i) == [];
    } else if IsSpace(t[i]) {
      DotsShiftAtSpace(p, t, i);
    } else {
      DotsShiftAtPlain(p, t, i);
    }
  }

  /** `DotsShift` at the start of a whitespace run. */
  lemma {:induction false} DotsShiftAtSpace(p: string, t: string, i: nat)
    requires i < |t| && IsSpace(t[i])
    ensures DotsFrom(p + t, |p| + i) == DotsFrom(t, i)
    decreases |t| - i, 0
  {
    ShiftSpaceStep(p, t, i);
    DotsShift(p, t, SkipSpaces(t, i + 1));
  }

  /** `DotsShift` at a character that is kept. */
  lemma {:induction false} DotsShiftAtPlain(p: string, t: string, i: nat)
    requires i < |t| && !IsSpace(t[i])
    ensures DotsFrom(p + t, |p| + i) == DotsFrom(t, i)
    decreases |t| - i, 0
  {
    ShiftPlainStep(p, t, i);
    DotsShift(p, t, i + 1);
  }

  /** `DotsSpaceStep` at the same run of `t` and of `p + t`. */
  lemma ShiftSpaceStep(p: string, t: string, i: nat)
    requires i < |t| && IsSpace(t[i])
    ensures DotsFrom(p + t, |p| + i) == "." + DotsFrom(p + t, |p| + SkipSpaces(t, i + 1))
    ensures DotsFrom(t, i) == "." + DotsFrom(t, SkipSpaces(t, i + 1))
  {
    assert (p + t)[|p| + i] == t[i];
    DotsSpaceStep(p + t, |p| + i);
    DotsSpaceStep(t, i);
    SkipSpacesShift(p, t, i + 1);
  }

  /** `DotsPlainStep` at the same character of `t` and of `p + t`. */
  lemma ShiftPlainStep(p: string, t: string, i: nat)
    requires i < |t| && !IsSpace(t[i])
    ensures DotsFrom(p + t, |p| + i) == [t[i]] + DotsFrom(p + t, |p| + i + 1)
    ensures DotsFrom(t, i) == [t[i]] + DotsFrom(t, i + 1)
  {
    assert (p + t)[|p| + i] == t[i];
    DotsPlainStep(p + t, |p| + i);
    DotsPlainStep(t, i);
  }

  /** Each maximal whitespace run becomes one dot, and what lies around it
      is kept in order: a plain prefix, then a run, then a rest that does
      not start with whitespace. Together with `NoSpace(s) ==>
      DotSpaceRuns(s) == s` this fixes the result on every string. */
  lemma DotSpaceRunsJoin(a: string, w: string, b: string)
    requires NoSpace(a)
    requires w != [] && forall k :: 0 <= k < |w| ==> IsSpace(w[k])
    requires b == [] || !IsSpace(b[0])
    ensures DotSpaceRuns(a + w + b) == a + "." + DotSpaceRuns(b)
  {
    DotsJoin(a, w, b);
  }

  /** `DotSpaceRunsJoin` stated on `DotsFrom`. */
  lemma DotsJoin(a: string, w: string, b: string)
    requires NoSpace(a)
    requires w != [] && forall k :: 0 <= k < |w| ==> IsSpace(w[k])
    requires b == [] || !IsSpace(b[0])
    ensures DotsFrom(a + w + b, 0) == a + "." + DotsFrom(b, 0)
  {
    assert a + w + b == a + (w + b);
    DotsPrefix(a, w + b);
    DotsRun(w, b);
  }

  /** A prefix without whitespace is copied as it is. */
  lemma DotsPrefix(a: string, t: string)
    requires NoSpace(a)
    ensures DotsFrom(a + t, 0) == a + DotsFrom(t, 0)
  {
    var s := a + t;
    DotsAcrossPlain(s, 0, |a|);
    assert s[0..|a|] == a;
    DotsShift(a, t, 0);
  }

  /** A leading whitespace run becomes one dot. */
  lemma DotsRun(w: string, b: string)
    requires w != [] && forall k :: 0 <= k < |w| ==> IsSpace(w[k])
    requires b == [] || !IsSpace(b[0])
    ensures DotsFrom(w + b, 0) == "." + DotsFrom(b, 0)
  {
    var t := w + b;
    DotsSpaceStep(t, 0);
    assert SkipSpaces(t, 1) == |w| by {
      assert forall k :: 1 <= k < |w| ==> t[k] == w[k];
      assert |w| < |t| ==> t[|w|] == b[0];
      SkipSpacesStopsAt(t, 1, |w|);
    }
    DotsShift(w, b, 0);
  }
}
