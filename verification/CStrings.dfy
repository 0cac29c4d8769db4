/** C strings: sequences of non-zero bytes.  The terminating NUL is not part of
    the sequence; `At` reads it back one position past the end. */
module CStrings {
  type byte = c: char | 0 < c as int < 256 witness 'a'
  type cstring = seq<byte>

  datatype Option<+T> = None | Some(value: T)

  const NUL: char := '\0'

  /** What `s[i]` reads in C for an index inside the string or at its terminator. */
  function At(s: cstring, i: nat): char {
    if i < |s| then s[i] else NUL
  }

  predicate IsSign(c: char) { c == '-' || c == '+' }

  predicate IsDigit(c: char) { '0' <= c <= '9' }

  /** `isspace` in the C locale. */
  predicate IsSpace(c: char) {
    c == ' ' || 9 <= c as int <= 13
  }

  /** `g_ascii_isspace`. */
  predicate IsBlank(c: char) { c in [' ', '\t', '\n', '\r', '\U{C}'] }

  function LeadingBlanks(s: cstring): (n: nat)
    ensures n <= |s|
  {
    if s == [] || !IsBlank(s[0]) then 0 else 1 + LeadingBlanks(s[1..])
  }

  function TrailingBlanks(s: cstring): (n: nat)
    ensures n <= |s|
  {
    if s == [] || !IsBlank(s[|s| - 1]) then 0 else 1 + TrailingBlanks(s[..|s| - 1])
  }

  function TrimEnd(s: cstring): cstring { s[..|s| - TrailingBlanks(s)] }

  function TrimFront(s: cstring): cstring { s[LeadingBlanks(s)..] }

  /** `strchr` as an index: the first position of `c`, or the length of `s`. */
  function Find(s: cstring, c: char): (n: nat)
    ensures n <= |s|
    ensures c !in s[..n]
    ensures n < |s| ==> s[n] == c
  {
    if s == [] || s[0] == c then 0 else 1 + Find(s[1..], c)
  }

  lemma {:induction false} FindFirst(a: cstring, c: byte, b: cstring)
    requires c !in a
    ensures Find(a + [c] + b, c) == |a|
  {
    if a != [] {
      assert (a + [c] + b)[1..] == a[1..] + [c] + b;
      FindFirst(a[1..], c, b);
    }
  }

  lemma FindAbsent(s: cstring, c: char)
    requires c !in s
    ensures Find(s, c) == |s|
  {
  }

  /** `strcmp`: the difference of the first bytes that differ, terminators included. */
  function StrCmp(a: cstring, b: cstring): int {
    if a == [] || b == [] || a[0] != b[0] then At(a, 0) as int - At(b, 0) as int
    else StrCmp(a[1..], b[1..])
  }

  lemma {:induction false} StrCmpOrder(a: cstring, b: cstring, c: cstring)
    ensures StrCmp(a, b) == -StrCmp(b, a)
    ensures StrCmp(a, b) == 0 <==> a == b
    ensures StrCmp(a, b) <= 0 && StrCmp(b, c) <= 0 ==> StrCmp(a, c) <= 0
  {
    if a != [] && b != [] && a[0] == b[0] {
      assert a == [a[0]] + a[1..] && b == [b[0]] + b[1..];
      StrCmpOrder(a[1..], b[1..], if c == [] then [] else c[1..]);
    }
  }

  /** `b` goes on from `a[..k]`, or has the greater byte there. */
  predicate PassedAt(a: cstring, b: cstring, k: nat) {
    k <= |a| && k < |b| && a[..k] == b[..k] && (k == |a| || a[k] < b[k])
  }

  /** The order of byte strings: by the first byte that differs, prefixes first. */
  ghost predicate BytesBefore(a: cstring, b: cstring) {
    exists k: nat :: PassedAt(a, b, k)
  }

  lemma {:induction false} StrCmpBytes(a: cstring, b: cstring)
    ensures StrCmp(a, b) < 0 <==> BytesBefore(a, b)
  {
    if a != [] && b != [] && a[0] == b[0] {
      StrCmpBytes(a[1..], b[1..]);
      assert a == [a[0]] + a[1..] && b == [b[0]] + b[1..];
      if k: nat :| PassedAt(a[1..], b[1..], k) {
        assert a[..k + 1] == [a[0]] + a[1..][..k] && b[..k + 1] == [b[0]] + b[1..][..k];
        assert PassedAt(a, b, k + 1);
      }
      if k: nat :| PassedAt(a, b, k) {
        assert k > 0;
        assert a[1..][..k - 1] == a[..k][1..] && b[1..][..k - 1] == b[..k][1..];
        assert PassedAt(a[1..], b[1..], k - 1);
      }
    } else {
      if StrCmp(a, b) < 0 {
        assert PassedAt(a, b, 0);
      }
    }
  }

  /** `g_strcmp0`. */
  function StrCmp0(a: Option<cstring>, b: Option<cstring>): int {
    match (a, b)
    case (None, None) => 0
    case (None, Some(_)) => -1
    case (Some(_), None) => 1
    case (Some(x), Some(y)) => StrCmp(x, y)
  }

  /** NULL comes first. */
  ghost predicate TextBefore(a: Option<cstring>, b: Option<cstring>) {
    b.Some? && (a.None? || BytesBefore(a.value, b.value))
  }

  lemma StrCmp0Bytes(a: Option<cstring>, b: Option<cstring>)
    ensures StrCmp0(a, b) < 0 <==> TextBefore(a, b)
  {
    if a.Some? && b.Some? {
      StrCmpBytes(a.value, b.value);
    }
  }

  /** An order by which the comparisons `x` of a with b, `y` of b with c and `z` of a with c
      could have been made. */
  predicate Consistent(x: int, y: int, z: int) {
    && (x <= 0 && y <= 0 ==> z <= 0)
    && (x <= 0 && y <= 0 && z == 0 ==> x == 0 && y == 0)
    && (x == 0 == y ==> z == 0)
  }

  lemma StrCmp0Order(a: Option<cstring>, b: Option<cstring>, c: Option<cstring>)
    ensures StrCmp0(a, b) == -StrCmp0(b, a) && (StrCmp0(a, b) == 0 <==> a == b)
    ensures Consistent(StrCmp0(a, b), StrCmp0(b, c), StrCmp0(a, c))
  {
    if a.Some? && b.Some? {
      StrCmpOrder(a.value, b.value, []);
      if c.Some? {
        StrCmpOrder(a.value, b.value, c.value);
        StrCmpOrder(c.value, a.value, b.value);
        StrCmpOrder(b.value, c.value, a.value);
      }
    }
  }

  // ----- decimal numbers -----

  function Decimal(n: nat): (s: cstring)
    ensures s != [] && forall i | 0 <= i < |s| :: IsDigit(s[i])
  {
    var digit: byte := ('0' as int + n % 10) as char;
    if n < 10 then [digit] else Decimal(n / 10) + [digit]
  }

  /** No digit is printed in vain. */
  lemma {:induction false} DecimalShortest(n: nat)
    ensures |Decimal(n)| > 1 ==> Decimal(n)[0] != '0'
  {
    if n >= 10 {
      DecimalShortest(n / 10);
      if n / 10 < 10 {
        assert Decimal(n / 10)[0] != '0';
      }
    }
  }

  /** `atoi`, for numbers of any size. */
  function Atoi(s: cstring): int {
    if s == [] then 0
    else if IsSpace(s[0]) then Atoi(s[1..])
    else if s[0] == '-' then 0 - AtoiFrom(s[1..], 0)
    else if s[0] == '+' then AtoiFrom(s[1..], 0)
    else AtoiFrom(s, 0)
  }

  function AtoiFrom(s: cstring, before: nat): nat {
    if s == [] || !IsDigit(s[0]) then before
    else AtoiFrom(s[1..], 10 * before + (s[0] as int - '0' as int))
  }

  lemma {:induction false} AtoiDigits(digits: cstring, rest: cstring, before: nat, d: byte)
    requires (forall i | 0 <= i < |digits| :: IsDigit(digits[i])) && IsDigit(d)
    ensures AtoiFrom(digits + [d] + rest, before)
         == AtoiFrom(rest, 10 * AtoiFrom(digits, before) + (d as int - '0' as int))
  {
    var s := digits + [d] + rest;
    if digits == [] {
      assert s[1..] == rest;
    } else {
      assert s[1..] == digits[1..] + [d] + rest;
      AtoiDigits(digits[1..], rest, 10 * before + (digits[0] as int - '0' as int), d);
    }
  }

  /** Printing a number and reading it back, whatever follows that is no digit. */
  lemma {:induction false} AtoiDecimal(n: nat, rest: cstring)
    requires rest == [] || !IsDigit(rest[0])
    ensures Atoi(Decimal(n) + rest) == n
  {
    var digit: byte := ('0' as int + n % 10) as char;
    assert IsDigit((Decimal(n) + rest)[0]);
    if n < 10 {
      assert Decimal(n) + rest == [] + [digit] + rest;
      AtoiDigits([], rest, 0, digit);
    } else {
      AtoiDecimal(n / 10, []);
      assert Decimal(n / 10) + [] == Decimal(n / 10);
      AtoiDigits(Decimal(n / 10), rest, 0, digit);
    }
  }

  /** Blanks and a sign in front of a number. */
  lemma AtoiSigned(blanks: cstring, number: cstring)
    requires forall i | 0 <= i < |blanks| :: IsSpace(blanks[i])
    requires number != [] && IsDigit(number[0])
    ensures Atoi(blanks + (['-'] + number)) == 0 - Atoi(number)
    ensures Atoi(blanks + (['+'] + number)) == Atoi(number)
    ensures Atoi(blanks + number) == Atoi(number)
  {
    AtoiSign(['-'], number);
    AtoiSign(['+'], number);
    AtoiBlanks(blanks, ['-'] + number);
    AtoiBlanks(blanks, ['+'] + number);
    AtoiBlanks(blanks, number);
  }

  lemma AtoiSign(sign: cstring, number: cstring)
    requires sign == ['-'] || sign == ['+']
    requires number != [] && IsDigit(number[0])
    ensures Atoi(sign + number) == if sign == ['-'] then 0 - Atoi(number) else Atoi(number)
  {
    var s := sign + number;
    AtoiFirst(s);
    AtoiFirst(number);
    assert s[1..] == number;
  }

  lemma AtoiFirst(s: cstring)
    requires s != []
    ensures s[0] == '-' ==> Atoi(s) == 0 - AtoiFrom(s[1..], 0)
    ensures s[0] == '+' ==> Atoi(s) == AtoiFrom(s[1..], 0)
    ensures IsDigit(s[0]) ==> Atoi(s) == AtoiFrom(s, 0)
  {
  }

  lemma {:induction false} AtoiBlanks(blanks: cstring, s: cstring)
    requires forall i | 0 <= i < |blanks| :: IsSpace(blanks[i])
    ensures Atoi(blanks + s) == Atoi(s)
  {
    if blanks == [] {
      assert blanks + s == s;
    } else {
      assert (blanks + s)[1..] == blanks[1..] + s;
      AtoiBlanks(blanks[1..], s);
    }
  }

  // ----- buffers -----

  type octet = c: char | c as int < 256

  /** A buffer always ends in a NUL, but its string may end earlier. */
  predicate IsBuffer(b: seq<octet>) {
    b != [] && b[|b| - 1] == NUL
  }

  function Len(b: seq<octet>): (n: nat)
    requires IsBuffer(b)
    ensures n < |b| && b[n] == NUL && forall i | 0 <= i < n :: b[i] != NUL
  {
    if b[0] == NUL then 0 else 1 + Len(b[1..])
  }

  function Text(b: seq<octet>): (s: cstring)
    requires IsBuffer(b)
    ensures |s| == Len(b)
  {
    seq(Len(b), i requires 0 <= i < Len(b) => b[i] as byte)
  }

  function ToBuffer(s: cstring): (b: seq<octet>)
    ensures IsBuffer(b) && |b| == |s| + 1
  {
    seq(|s|, i requires 0 <= i < |s| => s[i] as octet) + [NUL as octet]
  }
}
