/** `natural_strcmp`: comparing strings with the numbers in them taken as numbers. */
module NaturalOrder {
  import opened CStrings

  /** The end of the run of zeros, or of digits, that starts at position `i`. */
  function ZeroEnd(s: cstring, i: nat): (e: nat)
    requires i <= |s|
    ensures i <= e <= |s| && At(s, e) != '0'
    ensures forall k | i <= k < e :: s[k] == '0'
    decreases |s| - i
  {
    if At(s, i) == '0' then ZeroEnd(s, i + 1) else i
  }

  function DigitEnd(s: cstring, i: nat): (e: nat)
    requires i <= |s|
    ensures i <= e <= |s| && !IsDigit(At(s, e))
    ensures forall k | i <= k < e :: IsDigit(s[k])
    decreases |s| - i
  {
    if IsDigit(At(s, i)) then DigitEnd(s, i + 1) else i
  }

  /** A number starts here: a digit, or a sign with a digit behind it. */
  predicate NumberAt(s: cstring, i: nat) {
    IsDigit(At(s, i)) || (IsSign(At(s, i)) && IsDigit(At(s, i + 1)))
  }

  /** Where the digits of the number at `i` begin, after sign and zeros, and where they end. */
  function NumStart(s: cstring, i: nat): (p: nat)
    requires i <= |s|
    ensures i <= p <= |s|
  {
    ZeroEnd(s, if IsSign(At(s, i)) then i + 1 else i)
  }

  function NumEnd(s: cstring, i: nat): (e: nat)
    requires i <= |s|
    ensures NumStart(s, i) <= e <= |s|
    ensures NumberAt(s, i) ==> i < e && IsDigit(s[e - 1])
  {
    DigitEnd(s, NumStart(s, i))
  }

  /** The first difference between `n` digits from `p` in `s` and from `q` in `t`. */
  function DigitDiff(s: cstring, p: nat, t: cstring, q: nat, n: nat): int
    requires p + n <= |s| && q + n <= |t|
    decreases n
  {
    if n == 0 then 0
    else if s[p] != t[q] then s[p] as int - t[q] as int
    else DigitDiff(s, p + 1, t, q + 1, n - 1)
  }

  /** The comparison of two numbers: 0 if the comparison goes on behind them. */
  function NumberDiff(s: cstring, a: nat, t: cstring, b: nat): int
    requires a <= |s| && b <= |t|
  {
    var negA, negB := At(s, a) == '-', At(t, b) == '-';
    var p, q := NumStart(s, a), NumStart(t, b);
    var m, n := NumEnd(s, a) - p, NumEnd(t, b) - q;
    if negA != negB then if negA then -1 else 1
    else if m != n then if negA then n - m else m - n
    else if negA then DigitDiff(t, q, s, p, m)
    else DigitDiff(s, p, t, q, m)
  }

  /** The comparison of what follows position `a` in `s` with what follows `b` in `t`. */
  function Compare(s: cstring, a: nat, t: cstring, b: nat): int
    requires a <= |s| && b <= |t|
    decreases |s| - a
  {
    if At(s, a) == NUL || At(t, b) == NUL then
      if At(s, a) != NUL then 1 else if At(t, b) != NUL then -1 else 0
    else if NumberAt(s, a) && NumberAt(t, b) then
      var d := NumberDiff(s, a, t, b);
      if d != 0 then d else Compare(s, NumEnd(s, a), t, NumEnd(t, b))
    else if At(s, a) != At(t, b) then At(s, a) as int - At(t, b) as int
    else Compare(s, a + 1, t, b + 1)
  }

  /** The result for strings that may be NULL. */
  function NaturalCompare(s: Option<cstring>, t: Option<cstring>): int {
    match (s, t)
    case (None, None) => 0
    case (None, Some(_)) => -1
    case (Some(_), None) => 1
    case (Some(x), Some(y)) => Compare(x, 0, y, 0)
  }

  // ----- the C function -----

  /** The bounds of the digits of the number at `i`. */
  method ScanNumber(s: cstring, i: nat) returns (start: nat, end: nat)
    requires i <= |s|
    ensures start == NumStart(s, i) && end == NumEnd(s, i)
  {
    start := i;
    if At(s, start) == '-' || At(s, start) == '+' {
      start := start + 1;
    }
    while At(s, start) == '0'
      invariant i <= start <= |s| && ZeroEnd(s, start) == NumStart(s, i)
      decreases |s| - start
    {
      start := start + 1;
    }
    end := start;
    while IsDigit(At(s, end))
      invariant start <= end <= |s| && DigitEnd(s, end) == DigitEnd(s, start)
      decreases |s| - end
    {
      end := end + 1;
    }
  }

  /** The innermost loop, over two digit runs of one length. */
  method CompareDigits(s: cstring, start: nat, end: nat, t: cstring, from: nat, neg: bool) returns (r: int)
    requires start <= end <= |s| && from + (end - start) <= |t|
    ensures r == if neg then DigitDiff(t, from, s, start, end - start)
                 else DigitDiff(s, start, t, from, end - start)
  {
    var pa, pb := start, from;
    while pa < end
      invariant start <= pa <= end && pb == from + (pa - start)
      invariant DigitDiff(s, start, t, from, end - start) == DigitDiff(s, pa, t, pb, end - pa)
      invariant DigitDiff(t, from, s, start, end - start) == DigitDiff(t, pb, s, pa, end - pa)
    {
      if s[pa] != t[pb] {
        return if neg then t[pb] as int - s[pa] as int else s[pa] as int - t[pb] as int;
      }
      pa, pb := pa + 1, pb + 1;
    }
    return 0;
  }

  method NaturalStrcmp(s: Option<cstring>, t: Option<cstring>) returns (r: int)
    ensures r == NaturalCompare(s, t)
  {
    if s.None? && t.None? {
      return 0;
    }
    if s.None? {
      return -1;
    }
    if t.None? {
      return 1;
    }
    r := CompareStrings(s.value, t.value);
  }

  /** The numeric branch: the difference of the two numbers, and where they end. */
  method CompareNumbers(s: cstring, a: nat, t: cstring, b: nat) returns (r: int, a': nat, b': nat)
    requires a <= |s| && b <= |t|
    ensures r == NumberDiff(s, a, t, b) && a' == NumEnd(s, a) && b' == NumEnd(t, b)
  {
    var negA, negB := At(s, a) == '-', At(t, b) == '-';
    var pa, pb;
    pa, a' := ScanNumber(s, a);
    pb, b' := ScanNumber(t, b);
    var lenA: int, lenB: int := a' - pa, b' - pb;
    if negA == negB {
      if lenA != lenB {
        r := if negA then lenB - lenA else lenA - lenB;
      } else {
        r := CompareDigits(s, pa, a', t, pb, negA);
      }
    } else {
      r := if negA then -1 else 1;
    }
  }

  method CompareStrings(s: cstring, t: cstring) returns (r: int)
    ensures r == Compare(s, 0, t, 0)
  {
    var a, b := 0, 0;
    while At(s, a) != NUL && At(t, b) != NUL
      invariant 0 <= a <= |s| && 0 <= b <= |t|
      invariant Compare(s, a, t, b) == Compare(s, 0, t, 0)
      decreases |s| - a
    {
      if (IsDigit(At(s, a)) || ((At(s, a) == '-' || At(s, a) == '+') && IsDigit(At(s, a + 1))))
         && (IsDigit(At(t, b)) || ((At(t, b) == '-' || At(t, b) == '+') && IsDigit(At(t, b + 1)))) {
        var a', b';
        r, a', b' := CompareNumbers(s, a, t, b);
        if r != 0 {
          return;
        }
        a, b := a', b';
      } else {
        if At(s, a) != At(t, b) {
          return At(s, a) as int - At(t, b) as int;
        }
        a, b := a + 1, b + 1;
      }
    }
    return if At(s, a) != NUL then 1 else if At(t, b) != NUL then -1 else 0;
  }

  // ----- exchanging the arguments -----

  lemma {:induction false} DigitDiffSwap(s: cstring, p: nat, t: cstring, q: nat, n: nat)
    requires p + n <= |s| && q + n <= |t|
    ensures DigitDiff(t, q, s, p, n) == -DigitDiff(s, p, t, q, n)
    decreases n
  {
    if n > 0 && s[p] == t[q] {
      DigitDiffSwap(s, p + 1, t, q + 1, n - 1);
    }
  }

  lemma {:induction false} CompareSwap(s: cstring, a: nat, t: cstring, b: nat)
    requires a <= |s| && b <= |t|
    ensures Compare(t, b, s, a) == -Compare(s, a, t, b)
    decreases |s| - a
  {
    if At(s, a) != NUL && At(t, b) != NUL {
      if NumberAt(s, a) && NumberAt(t, b) {
        NumberDiffSwap(s, a, t, b);
        if NumberDiff(s, a, t, b) == 0 {
          CompareSwap(s, NumEnd(s, a), t, NumEnd(t, b));
        }
      } else if At(s, a) == At(t, b) {
        CompareSwap(s, a + 1, t, b + 1);
      }
    }
  }

  lemma NumberDiffSwap(s: cstring, a: nat, t: cstring, b: nat)
    requires a <= |s| && b <= |t|
    ensures NumberDiff(t, b, s, a) == -NumberDiff(s, a, t, b)
  {
    var p, q := NumStart(s, a), NumStart(t, b);
    if NumEnd(s, a) - p == NumEnd(t, b) - q {
      DigitDiffSwap(s, p, t, q, NumEnd(s, a) - p);
    }
  }

  /** Whatever the strings hold, signed numbers included. */
  lemma Antisymmetric(s: Option<cstring>, t: Option<cstring>)
    ensures NaturalCompare(t, s) == -NaturalCompare(s, t)
    ensures NaturalCompare(s, s) == 0
  {
    if s.Some? {
      CompareSwap(s.value, 0, s.value, 0);
      if t.Some? {
        CompareSwap(s.value, 0, t.value, 0);
      }
    }
  }

  // ----- strings without numbers -----

  lemma {:induction false} PlainCompare(s: cstring, a: nat, t: cstring, b: nat)
    requires a <= |s| && b <= |t| && forall i | 0 <= i < |s| :: !IsDigit(s[i])
    ensures Compare(s, a, t, b) < 0 <==> StrCmp(s[a..], t[b..]) < 0
    ensures Compare(s, a, t, b) == 0 <==> s[a..] == t[b..]
    decreases |s| - a
  {
    if a < |s| && b < |t| {
      assert s[a..][0] == s[a] && t[b..][0] == t[b];
      assert s[a..][1..] == s[a + 1..] && t[b..][1..] == t[b + 1..];
      if s[a] == t[b] {
        PlainCompare(s, a + 1, t, b + 1);
        SameHead(s[a..], t[b..]);
      }
    }
  }

  lemma SameHead(s: cstring, t: cstring)
    requires s != [] && t != [] && s[0] == t[0]
    ensures s == t <==> s[1..] == t[1..]
  {
    assert s == [s[0]] + s[1..] && t == [t[0]] + t[1..];
  }

  /** NULL comes first, and where one string has no digit, the bytes decide. */
  lemma WithoutNumbers(s: cstring, t: cstring)
    requires forall i | 0 <= i < |s| :: !IsDigit(s[i])
    ensures NaturalCompare(None, Some(t)) < 0
    ensures NaturalCompare(Some(s), Some(t)) < 0 <==> BytesBefore(s, t)
    ensures NaturalCompare(Some(t), Some(s)) < 0 <==> BytesBefore(t, s)
  {
    PlainCompare(s, 0, t, 0);
    CompareSwap(s, 0, t, 0);
    StrCmpBytes(s, t);
    StrCmpBytes(t, s);
    StrCmpOrder(s, t, []);
    assert s[0..] == s && t[0..] == t;
  }

  // ----- the value of digits -----

  function Val(s: cstring, p: nat, e: nat): (v: nat)
    requires p <= e <= |s| && forall k | p <= k < e :: IsDigit(s[k])
    decreases e
  {
    if p == e then 0
    else
      assert IsDigit(s[e - 1]);
      10 * Val(s, p, e - 1) + (s[e - 1] as int - '0' as int)
  }

  lemma {:induction false} ValSkipZeros(s: cstring, p: nat, z: nat, e: nat)
    requires p <= z <= e <= |s| && forall k | p <= k < e :: IsDigit(s[k])
    requires forall k | p <= k < z :: s[k] == '0'
    ensures Val(s, p, e) == Val(s, z, e)
    decreases e
  {
    if z < e {
      ValSkipZeros(s, p, z, e - 1);
    } else if p < e {
      ValSkipZeros(s, p, z - 1, e - 1);
    }
  }

  lemma {:induction false} ValPositive(s: cstring, p: nat, e: nat)
    requires p < e <= |s| && s[p] != '0' && forall k | p <= k < e :: IsDigit(s[k])
    ensures Val(s, p, e) > 0
    decreases e
  {
    if p + 1 < e {
      ValPositive(s, p, e - 1);
    }
  }

  /** Of two digit runs without leading zeros, the longer is the greater. */
  lemma {:induction false} ValLonger(s: cstring, p: nat, e: nat, t: cstring, q: nat, f: nat)
    requires p <= e <= |s| && forall k | p <= k < e :: IsDigit(s[k])
    requires q < f <= |t| && t[q] != '0' && forall k | q <= k < f :: IsDigit(t[k])
    requires e - p < f - q
    ensures Val(s, p, e) < Val(t, q, f)
    decreases e
  {
    if p == e {
      ValPositive(t, q, f);
    } else {
      ValLonger(s, p, e - 1, t, q, f - 1);
    }
  }

  lemma {:induction false} DigitDiffLast(s: cstring, p: nat, t: cstring, q: nat, n: nat)
    requires p + n + 1 <= |s| && q + n + 1 <= |t|
    ensures
      var d := DigitDiff(s, p, t, q, n);
      DigitDiff(s, p, t, q, n + 1) == if d != 0 then d else s[p + n] as int - t[q + n] as int
    decreases n
  {
    if n > 0 && s[p] == t[q] {
      DigitDiffLast(s, p + 1, t, q + 1, n - 1);
    }
  }

  /** Of two digit runs of one length, the first difference decides. */
  lemma {:induction false} ValSameLength(s: cstring, p: nat, t: cstring, q: nat, n: nat)
    requires p + n <= |s| && forall k | p <= k < p + n :: IsDigit(s[k])
    requires q + n <= |t| && forall k | q <= k < q + n :: IsDigit(t[k])
    ensures
      var (d, x, y) := (DigitDiff(s, p, t, q, n), Val(s, p, p + n), Val(t, q, q + n));
      (d < 0 <==> x < y) && (d == 0 <==> x == y)
    decreases n
  {
    if n > 0 {
      DigitDiffLast(s, p, t, q, n - 1);
      ValSameLength(s, p, t, q, n - 1);
    }
  }

  /** The number at `i`, counting a `-` in front of it. */
  function NumVal(s: cstring, i: nat): int
    requires i <= |s|
  {
    var v: int := Val(s, NumStart(s, i), NumEnd(s, i));
    if At(s, i) == '-' then -v else v
  }

  function Sign(x: int): int { if x < 0 then -1 else if x > 0 then 1 else 0 }

  lemma MagnitudeDiff(s: cstring, p: nat, e: nat, t: cstring, q: nat, f: nat)
    requires p <= e <= |s| && At(s, p) != '0' && forall k | p <= k < e :: IsDigit(s[k])
    requires q <= f <= |t| && At(t, q) != '0' && forall k | q <= k < f :: IsDigit(t[k])
    ensures
      var d := if e - p != f - q then (e - p) - (f - q) else DigitDiff(s, p, t, q, e - p);
      Sign(d) == Sign(Val(s, p, e) - Val(t, q, f))
  {
    if e - p < f - q {
      ValLonger(s, p, e, t, q, f);
    } else if e - p > f - q {
      ValLonger(t, q, f, s, p, e);
    } else {
      ValSameLength(s, p, t, q, e - p);
    }
  }

  /** Two numbers compare as integers do, except that a `-` counts even before a zero. */
  lemma NumberDiffIsDifference(s: cstring, a: nat, t: cstring, b: nat)
    requires a <= |s| && b <= |t|
    ensures
      var (neg, neg') := (At(s, a) == '-', At(t, b) == '-');
      var (x, y) := (NumVal(s, a), NumVal(t, b));
      Sign(NumberDiff(s, a, t, b))
      == if neg != neg' && x == 0 == y then (if neg then -1 else 1) else Sign(x - y)
  {
    var p, q := NumStart(s, a), NumStart(t, b);
    var e, f := NumEnd(s, a), NumEnd(t, b);
    MagnitudeDiff(s, p, e, t, q, f);
    DigitDiffSwapIf(s, p, e, t, q, f);
  }

  lemma DigitDiffSwapIf(s: cstring, p: nat, e: nat, t: cstring, q: nat, f: nat)
    requires p <= e <= |s| && q <= f <= |t|
    ensures e - p == f - q ==> DigitDiff(t, q, s, p, e - p) == -DigitDiff(s, p, t, q, e - p)
  {
    if e - p == f - q {
      DigitDiffSwap(s, p, t, q, e - p);
    }
  }

  /** A string that is one integer: an optional sign, then digits to the end. */
  predicate IsInteger(s: cstring) {
    NumberAt(s, 0) && NumEnd(s, 0) == |s|
  }

  /** Integers of any length compare by value, unless both are zero and only one has a `-`. */
  lemma IntegersByValue(s: cstring, t: cstring)
    requires IsInteger(s) && IsInteger(t)
    ensures Sign(Compare(s, 0, t, 0)) == Sign(NumVal(s, 0) - NumVal(t, 0))
       <==> !(NumVal(s, 0) == 0 == NumVal(t, 0) && (At(s, 0) == '-') != (At(t, 0) == '-'))
  {
    NumberDiffIsDifference(s, 0, t, 0);
  }
}
