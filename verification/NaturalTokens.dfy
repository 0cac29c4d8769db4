/** When `natural_strcmp` is an order: exactly on the strings without a `+` before a digit. */
module NaturalTokens {
  import opened CStrings
  import opened NaturalOrder

  /** A character, or a number.  A number right behind a `-` counts negative. */
  datatype Tok = Ch(c: char) | Num(value: int)

  function Tokens(s: cstring, i: nat): (r: seq<Tok>)
    requires i <= |s|
    ensures r == [] <==> i == |s|
    decreases |s| - i
  {
    if i == |s| then []
    else if IsDigit(s[i]) then
      var e := DigitEnd(s, i);
      var v: int := Val(s, i, e);
      [Num(if i > 0 && s[i - 1] == '-' then -v else v)] + Tokens(s, e)
    else [Ch(s[i])] + Tokens(s, i + 1)
  }

  /** Among characters, every number stands where the digits stand. */
  function TokDiff(x: Tok, y: Tok): int {
    match (x, y)
    case (Ch(c), Ch(d)) => c as int - d as int
    case (Num(m), Num(n)) => m - n
    case (Ch(c), Num(_)) => if c < '0' then -1 else 1
    case (Num(_), Ch(d)) => if d < '0' then 1 else -1
  }

  /** Lexicographic comparison of token lists. */
  function LexDiff(x: seq<Tok>, y: seq<Tok>): int {
    if x == [] || y == [] then |x| - |y|
    else
      var d := TokDiff(x[0], y[0]);
      if d != 0 then d else LexDiff(x[1..], y[1..])
  }

  /** No character token is a digit. */
  ghost predicate Plain(x: seq<Tok>) {
    forall t <- x :: t.Ch? ==> !IsDigit(t.c)
  }

  lemma {:induction false} TokensPlain(s: cstring, i: nat)
    requires i <= |s|
    ensures Plain(Tokens(s, i))
    decreases |s| - i
  {
    if i < |s| {
      TokensPlain(s, if IsDigit(s[i]) then DigitEnd(s, i) else i + 1);
    }
  }

  lemma {:induction false} LexOrder(x: seq<Tok>, y: seq<Tok>, z: seq<Tok>)
    requires Plain(x) && Plain(y) && Plain(z)
    ensures Sign(LexDiff(y, x)) == -Sign(LexDiff(x, y))
    ensures LexDiff(x, y) == 0 <==> x == y
    ensures LexDiff(x, y) <= 0 && LexDiff(y, z) <= 0 ==> LexDiff(x, z) <= 0
  {
    if x != [] && y != [] {
      assert x == [x[0]] + x[1..] && y == [y[0]] + y[1..];
      LexOrder(x[1..], y[1..], if z == [] then [] else z[1..]);
    }
  }

  /** No `+` stands right before a digit. */
  predicate NoPlus(s: cstring) {
    forall i | 0 <= i < |s| :: !(s[i] == '+' && IsDigit(At(s, i + 1)))
  }

  // ----- on such strings the comparison is the lexicographic one -----

  predicate BehindMinus(s: cstring, i: nat) {
    0 < i <= |s| && s[i - 1] == '-'
  }

  /** Positions the comparison can reach together: never two digits both behind a `-`. */
  predicate Aligned(s: cstring, a: nat, t: cstring, b: nat) {
    && a <= |s| && b <= |t|
    && (IsDigit(At(s, a)) && IsDigit(At(t, b)) ==> !BehindMinus(s, a) && !BehindMinus(t, b))
  }

  lemma DigitsAfterZeros(s: cstring, i: nat)
    requires i <= |s| && IsDigit(At(s, i))
    ensures NumStart(s, i) <= NumEnd(s, i) == DigitEnd(s, i)
    ensures Val(s, i, DigitEnd(s, i)) == Val(s, NumStart(s, i), DigitEnd(s, i))
  {
    DigitEndFrom(s, i, ZeroEnd(s, i));
    ValSkipZeros(s, i, ZeroEnd(s, i), DigitEnd(s, i));
  }

  lemma {:induction false} DigitEndFrom(s: cstring, i: nat, k: nat)
    requires i <= k <= |s| && forall j | i <= j < k :: IsDigit(s[j])
    ensures DigitEnd(s, k) == DigitEnd(s, i)
    decreases k - i
  {
    if i < k {
      DigitEndFrom(s, i + 1, k);
    }
  }

  /** A number's own token; behind a `-` that is not its sign it is negative all the same. */
  function NumTok(s: cstring, i: nat): Tok
    requires i <= |s|
  {
    Num(if BehindMinus(s, i) && At(s, i) != '-' then -NumVal(s, i) else NumVal(s, i))
  }

  /** A number without `+` as tokens. */
  lemma TokensOfNumber(s: cstring, i: nat)
    requires i < |s| && NumberAt(s, i) && s[i] != '+'
    ensures
      var rest := [NumTok(s, i)] + Tokens(s, NumEnd(s, i));
      Tokens(s, i) == if s[i] == '-' then [Ch('-')] + rest else rest
  {
    if s[i] == '-' {
      TokensOfMinus(s, i);
    } else {
      TokensOfDigits(s, i);
    }
  }

  lemma TokensOfMinus(s: cstring, i: nat)
    requires i + 1 < |s| && s[i] == '-' && IsDigit(s[i + 1])
    ensures Tokens(s, i) == [Ch('-')] + ([Num(NumVal(s, i))] + Tokens(s, NumEnd(s, i)))
  {
    var v, e := NumVal(s, i), NumEnd(s, i);
    assert Tokens(s, i + 1) == [Num(v)] + Tokens(s, e) by {
      MinusValue(s, i);
      TokensOfDigits(s, i + 1);
    }
    MinusToken(s, i);
  }

  lemma MinusToken(s: cstring, i: nat)
    requires i < |s| && s[i] == '-'
    ensures Tokens(s, i) == [Ch('-')] + Tokens(s, i + 1)
  {
  }

  lemma MinusValue(s: cstring, i: nat)
    requires i + 1 < |s| && s[i] == '-' && IsDigit(s[i + 1])
    ensures NumEnd(s, i) == NumEnd(s, i + 1) && NumVal(s, i) == -NumVal(s, i + 1)
  {
    assert NumStart(s, i) == NumStart(s, i + 1);
  }

  lemma TokensOfDigits(s: cstring, i: nat)
    requires i < |s| && IsDigit(s[i])
    ensures
      var v := NumVal(s, i);
      Tokens(s, i) == [Num(if BehindMinus(s, i) then -v else v)] + Tokens(s, NumEnd(s, i))
  {
    ValueOfDigits(s, i);
    TokensAtDigit(s, i);
  }

  lemma ValueOfDigits(s: cstring, i: nat)
    requires i < |s| && IsDigit(s[i])
    ensures NumEnd(s, i) == DigitEnd(s, i) && NumVal(s, i) == Val(s, i, DigitEnd(s, i))
  {
    DigitsAfterZeros(s, i);
  }

  lemma TokensAtDigit(s: cstring, i: nat)
    requires i < |s| && IsDigit(s[i])
    ensures
      var v: int := Val(s, i, DigitEnd(s, i));
      Tokens(s, i) == [Num(if BehindMinus(s, i) then -v else v)] + Tokens(s, DigitEnd(s, i))
  {
  }

  lemma LexCons(t: Tok, u: Tok, x: seq<Tok>, y: seq<Tok>)
    ensures LexDiff([t] + x, [u] + y) == if TokDiff(t, u) != 0 then TokDiff(t, u) else LexDiff(x, y)
  {
    assert ([t] + x)[1..] == x && ([u] + y)[1..] == y;
  }

  lemma NumberStep(s: cstring, a: nat, t: cstring, b: nat)
    requires NoPlus(s) && NoPlus(t) && Aligned(s, a, t, b)
    requires a < |s| && b < |t| && NumberAt(s, a) && NumberAt(t, b)
    ensures
      var (x, y) := (Tokens(s, NumEnd(s, a)), Tokens(t, NumEnd(t, b)));
      var d := NumberDiff(s, a, t, b);
      Sign(LexDiff(Tokens(s, a), Tokens(t, b))) == if d != 0 then Sign(d) else Sign(LexDiff(x, y))
  {
    var x, y := Tokens(s, NumEnd(s, a)), Tokens(t, NumEnd(t, b));
    var m, n := NumTok(s, a), NumTok(t, b);
    var minus := Ch('-');
    assert s[a] != '+' && t[b] != '+';
    NumberDiffIsDifference(s, a, t, b);
    TokensOfNumber(s, a);
    TokensOfNumber(t, b);
    LexCons(m, n, x, y);
    LexCons(minus, minus, [m] + x, [n] + y);
    LexCons(minus, n, [m] + x, y);
    LexCons(m, minus, x, [n] + y);
  }

  lemma ByteStep(s: cstring, a: nat, t: cstring, b: nat)
    requires NoPlus(s) && NoPlus(t) && Aligned(s, a, t, b)
    requires a < |s| && b < |t| && !(NumberAt(s, a) && NumberAt(t, b))
    ensures
      var d := LexDiff(Tokens(s, a), Tokens(t, b));
      if s[a] != t[b] then Sign(d) == Sign(s[a] as int - t[b] as int)
      else Aligned(s, a + 1, t, b + 1) && d == LexDiff(Tokens(s, a + 1), Tokens(t, b + 1))
  {
    if !IsDigit(s[a]) && !IsDigit(t[b]) {
      BothBytes(s, a, t, b);
    } else if IsDigit(s[a]) {
      DigitAgainstByte(s, a, t, b);
    } else {
      DigitAgainstByte(t, b, s, a);
    }
  }

  lemma BothBytes(s: cstring, a: nat, t: cstring, b: nat)
    requires a < |s| && b < |t| && !IsDigit(s[a]) && !IsDigit(t[b])
    ensures
      var d := LexDiff(Tokens(s, a), Tokens(t, b));
      d == if s[a] != t[b] then s[a] as int - t[b] as int else LexDiff(Tokens(s, a + 1), Tokens(t, b + 1))
  {
    LexCons(Ch(s[a]), Ch(t[b]), Tokens(s, a + 1), Tokens(t, b + 1));
  }

  /** A digit against a byte that is none: the byte decides, from either side. */
  lemma DigitAgainstByte(s: cstring, a: nat, t: cstring, b: nat)
    requires a < |s| && b < |t| && IsDigit(s[a]) && !IsDigit(t[b])
    ensures
      var (x, y) := (Tokens(s, a), Tokens(t, b));
      && Sign(LexDiff(x, y)) == Sign(s[a] as int - t[b] as int)
      && Sign(LexDiff(y, x)) == Sign(t[b] as int - s[a] as int)
  {
    TokensAtDigit(s, a);
    var x, y := Tokens(s, a), Tokens(t, b);
    LexCons(x[0], Ch(t[b]), x[1..], Tokens(t, b + 1));
    LexCons(Ch(t[b]), x[0], Tokens(t, b + 1), x[1..]);
  }

  /** On strings without `+` before a digit, `natural_strcmp` compares token lists
      lexicographically, numbers by value however long they are. */
  lemma {:induction false} CompareIsLexicographic(s: cstring, a: nat, t: cstring, b: nat)
    requires NoPlus(s) && NoPlus(t) && Aligned(s, a, t, b)
    ensures Sign(Compare(s, a, t, b)) == Sign(LexDiff(Tokens(s, a), Tokens(t, b)))
    decreases |s| - a
  {
    if a < |s| && b < |t| {
      if NumberAt(s, a) && NumberAt(t, b) {
        NumberStep(s, a, t, b);
        CompareIsLexicographic(s, NumEnd(s, a), t, NumEnd(t, b));
      } else {
        ByteStep(s, a, t, b);
        if s[a] == t[b] {
          CompareIsLexicographic(s, a + 1, t, b + 1);
        }
      }
    }
  }

  // ----- the order, and where it ends -----

  ghost predicate PlusFree(s: Option<cstring>) {
    s.Some? ==> NoPlus(s.value)
  }

  /** NULL first, then by tokens: `natural_strcmp` is a total preorder, and strings tie
      exactly when their tokens are the same. */
  lemma TotalPreorder(s: Option<cstring>, t: Option<cstring>, u: Option<cstring>)
    requires PlusFree(s) && PlusFree(t) && PlusFree(u)
    ensures NaturalCompare(t, s) == -NaturalCompare(s, t)
    ensures NaturalCompare(s, t) <= 0 && NaturalCompare(t, u) <= 0 ==> NaturalCompare(s, u) <= 0
    ensures s.Some? && t.Some? ==>
      (NaturalCompare(s, t) == 0 <==> Tokens(s.value, 0) == Tokens(t.value, 0))
  {
    Antisymmetric(s, t);
    if s.Some? && t.Some? {
      CompareIsLexicographic(s.value, 0, t.value, 0);
      TokensPlain(s.value, 0);
      TokensPlain(t.value, 0);
      LexOrder(Tokens(s.value, 0), Tokens(t.value, 0), []);
      if u.Some? {
        CompareIsLexicographic(t.value, 0, u.value, 0);
        CompareIsLexicographic(s.value, 0, u.value, 0);
        TokensPlain(u.value, 0);
        LexOrder(Tokens(s.value, 0), Tokens(t.value, 0), Tokens(u.value, 0));
      }
    }
  }

  /** Strings that agree up to a place with no digit compare as they do from there on. */
  lemma {:induction false} CommonPrefix(s: cstring, t: cstring, i: nat, p: nat)
    requires i <= p <= |s| && p <= |t| && s[..p] == t[..p]
    requires !IsDigit(At(s, p)) && !IsDigit(At(t, p))
    ensures Compare(s, i, t, i) == Compare(s, p, t, p)
    decreases p - i
  {
    if i < p {
      SameKind(s, t, i, p);
      if NumberAt(s, i) {
        SameNumber(s, t, i, p);
        CommonPrefix(s, t, NumEnd(s, i), p);
      } else {
        CommonPrefix(s, t, i + 1, p);
      }
    }
  }

  lemma SameKind(s: cstring, t: cstring, i: nat, p: nat)
    requires i < p <= |s| && p <= |t| && s[..p] == t[..p]
    requires !IsDigit(At(s, p)) && !IsDigit(At(t, p))
    ensures s[i] == t[i] && (NumberAt(s, i) <==> NumberAt(t, i))
  {
    assert s[i] == s[..p][i] && t[i] == t[..p][i];
    assert i + 1 < p ==> s[i + 1] == s[..p][i + 1] && t[i + 1] == t[..p][i + 1];
  }

  lemma {:induction false} SameRuns(s: cstring, t: cstring, i: nat, p: nat)
    requires i <= p <= |s| && p <= |t| && s[..p] == t[..p]
    requires !IsDigit(At(s, p)) && !IsDigit(At(t, p))
    ensures ZeroEnd(s, i) == ZeroEnd(t, i) <= p && DigitEnd(s, i) == DigitEnd(t, i) <= p
    decreases p - i
  {
    if i < p {
      assert s[i] == s[..p][i] && t[i] == t[..p][i];
      SameRuns(s, t, i + 1, p);
    }
  }

  lemma {:induction false} SameDigits(s: cstring, t: cstring, i: nat, n: nat)
    requires i + n <= |s| && i + n <= |t| && forall k | i <= k < i + n :: s[k] == t[k]
    ensures DigitDiff(s, i, t, i, n) == 0
    decreases n
  {
    if n > 0 {
      SameDigits(s, t, i + 1, n - 1);
    }
  }

  lemma SameNumber(s: cstring, t: cstring, i: nat, p: nat)
    requires i < p <= |s| && p <= |t| && s[..p] == t[..p]
    requires !IsDigit(At(s, p)) && !IsDigit(At(t, p)) && NumberAt(s, i)
    ensures NumEnd(s, i) == NumEnd(t, i) <= p && NumberDiff(s, i, t, i) == 0
  {
    SameBounds(s, t, i, p);
    assert forall k | 0 <= k < p :: s[k] == s[..p][k] && t[k] == t[..p][k];
    SameDigits(s, t, NumStart(s, i), NumEnd(s, i) - NumStart(s, i));
    SameDigits(t, s, NumStart(s, i), NumEnd(s, i) - NumStart(s, i));
  }

  lemma SameBounds(s: cstring, t: cstring, i: nat, p: nat)
    requires i < p <= |s| && p <= |t| && s[..p] == t[..p]
    requires !IsDigit(At(s, p)) && !IsDigit(At(t, p))
    ensures NumStart(s, i) == NumStart(t, i) && NumEnd(s, i) == NumEnd(t, i) <= p
    ensures At(s, i) == At(t, i)
  {
    assert s[i] == s[..p][i] && t[i] == t[..p][i];
    var d := if IsSign(s[i]) then i + 1 else i;
    SameRuns(s, t, d, p);
    SameRuns(s, t, ZeroEnd(s, d), p);
  }

  /** Every string with a `+` before a digit closes a cycle with two strings without. */
  lemma PlusMakesCycle(s: cstring) returns (t: cstring, u: cstring)
    requires !NoPlus(s)
    ensures NoPlus(t) && NoPlus(u)
    ensures Compare(s, 0, t, 0) < 0 && Compare(t, 0, u, 0) < 0 && Compare(u, 0, s, 0) < 0
  {
    var p := FirstPlus(s, 0);
    t, u := s[..p] + [','], s[..p] + ['-', '1'];
    assert At(s, p) == '+' && At(t, p) == ',' && At(u, p) == '-' && At(u, p + 1) == '1';
    assert t[..p] == s[..p] && u[..p] == s[..p];
    CommonPrefix(s, t, 0, p);
    CommonPrefix(t, u, 0, p);
    CommonPrefix(u, s, 0, p);
    assert NumberAt(s, p) && NumberAt(u, p) && !NumberAt(t, p);
    PrefixNoPlus(s, p, t);
    PrefixNoPlus(s, p, u);
  }

  lemma PrefixNoPlus(s: cstring, p: nat, t: cstring)
    requires p < |s| && s[p] == '+' && p < |t| && t[..p] == s[..p]
    requires forall i | 0 <= i < p :: !(s[i] == '+' && IsDigit(At(s, i + 1)))
    requires forall i | p <= i < |t| :: t[i] != '+'
    requires !IsDigit(t[p])
    ensures NoPlus(t)
  {
    assert forall k | 0 <= k < p :: t[k] == t[..p][k] && s[k] == s[..p][k];
    forall i | 0 <= i < |t|
      ensures !(t[i] == '+' && IsDigit(At(t, i + 1)))
    {
      if i + 1 < p {
        assert !(s[i] == '+' && IsDigit(At(s, i + 1)));
      }
    }
  }

  lemma {:induction false} FirstPlus(s: cstring, i: nat) returns (p: nat)
    requires i <= |s| && forall k | 0 <= k < i :: !(s[k] == '+' && IsDigit(At(s, k + 1)))
    requires !NoPlus(s)
    ensures p < |s| && s[p] == '+' && IsDigit(At(s, p + 1))
    ensures forall k | 0 <= k < p :: !(s[k] == '+' && IsDigit(At(s, k + 1)))
    decreases |s| - i
  {
    if s[i] == '+' && IsDigit(At(s, i + 1)) {
      p := i;
    } else {
      p := FirstPlus(s, i + 1);
    }
  }

  /** The restriction cannot be relaxed for a single string: together with the strings
      without `+` before a digit, `s` is ordered transitively just when it is one of them. */
  lemma OrderExactly(s: cstring)
    ensures NoPlus(s) <==>
      forall t: cstring, u: cstring | NoPlus(t) && NoPlus(u) ::
        Compare(s, 0, t, 0) <= 0 && Compare(t, 0, u, 0) <= 0 ==> Compare(s, 0, u, 0) <= 0
  {
    if NoPlus(s) {
      forall t: cstring, u: cstring | NoPlus(t) && NoPlus(u)
        ensures Compare(s, 0, t, 0) <= 0 && Compare(t, 0, u, 0) <= 0 ==> Compare(s, 0, u, 0) <= 0
      {
        TotalPreorder(Some(s), Some(t), Some(u));
      }
    } else {
      var t, u := PlusMakesCycle(s);
      CompareSwap(u, 0, s, 0);
    }
  }
}
