/** `gg_strescape`, and that `g_strcompress` undoes it. */
module Strescape {
  import opened CStrings
  import opened Seqs

  const BACKSLASH: char := '\\'

  /** What `make_excmap_def` enters for a byte: printable ASCII but quote and backslash. */
  predicate DefaultPlain(i: nat) {
    ' ' as int <= i < 127 && i != '"' as int && i != BACKSLASH as int
  }

  /** Whether a byte is copied as it is: `extra` overrides `exceptions`, which overrides
      the default. */
  predicate Plain(exceptions: cstring, extra: cstring, c: char) {
    if c in extra then false else c in exceptions || DefaultPlain(c as int)
  }

  function Octal(d: nat): byte
    requires d < 8
  {
    ('0' as int + d) as char
  }

  /** The letter that names a control character, quote or backslash behind a backslash. */
  function Letter(c: char): (r: Option<byte>) {
    if c == '\U{8}' then Some('b')
    else if c == '\U{C}' then Some('f')
    else if c == '\n' then Some('n')
    else if c == '\r' then Some('r')
    else if c == '\t' then Some('t')
    else if c == BACKSLASH then Some('\\')
    else if c == '"' then Some('"')
    else None
  }

  function EscapeByte(plain: bool, c: byte): (r: cstring)
    ensures 1 <= |r| <= 4
  {
    if plain then [c]
    else if Letter(c).Some? then [BACKSLASH, Letter(c).value]
    else
      var v := c as int;
      [BACKSLASH, Octal(v / 64 % 8), Octal(v / 8 % 8), Octal(v % 8)]
  }

  function Escape(exceptions: cstring, extra: cstring, s: cstring): (r: cstring)
    ensures |s| <= |r| <= 4 * |s|
  {
    if s == [] then []
    else Escape(exceptions, extra, s[..|s| - 1])
         + EscapeByte(Plain(exceptions, extra, s[|s| - 1]), s[|s| - 1])
  }

  // ----- the C function -----

  /** `excmap_def`: entry 0 is non-zero until the table has been filled. */
  class EscapeTable {
    const excmapDef: array<bool>

    ghost predicate Valid()
      reads this, excmapDef
    {
      excmapDef.Length == 256
      && (excmapDef[0] || forall i | 0 <= i < 256 :: excmapDef[i] == DefaultPlain(i))
    }

    constructor ()
      ensures Valid() && fresh(excmapDef)
    {
      excmapDef := new bool[256](i => i == 0);
    }

    method MakeExcmapDef()
      requires excmapDef.Length == 256
      modifies excmapDef
      ensures forall i | 0 <= i < 256 :: excmapDef[i] == DefaultPlain(i)
    {
      for i := 0 to 256
        invariant forall k | 0 <= k < i :: excmapDef[k] == DefaultPlain(k)
      {
        if i in {8, 12, 10, 13, 9, BACKSLASH as int, '"' as int} {
          excmapDef[i] := false;
        } else if i < ' ' as int || i >= 127 {
          excmapDef[i] := false;
        } else {
          excmapDef[i] := true;
        }
      }
    }

    /** The local copy of the table, with exceptions and extra bytes entered. */
    method MakeExcmap(exceptions: cstring, extra: cstring) returns (excmap: array<bool>)
      requires Valid() && !excmapDef[0]
      ensures fresh(excmap) && excmap.Length == 256
      ensures forall i: nat | 0 < i < 256 :: excmap[i] == Plain(exceptions, extra, i as char)
    {
      excmap := new bool[256];
      forall i | 0 <= i < 256 {
        excmap[i] := excmapDef[i];
      }
      for e := 0 to |exceptions|
        invariant forall i: nat | 0 < i < 256 :: excmap[i] == Plain(exceptions[..e], [], i as char)
      {
        excmap[exceptions[e] as int] := true;
        assert exceptions[..e + 1] == exceptions[..e] + [exceptions[e]];
      }
      assert exceptions[..|exceptions|] == exceptions;
      for e := 0 to |extra|
        invariant forall i: nat | 0 < i < 256 :: excmap[i] == Plain(exceptions, extra[..e], i as char)
      {
        excmap[extra[e] as int] := false;
        assert extra[..e + 1] == extra[..e] + [extra[e]];
      }
      assert extra[..|extra|] == extra;
    }

    method GgStrescape(source: Option<cstring>, exceptions: Option<cstring>, extra: Option<cstring>)
        returns (r: Option<string>)
      requires Valid()
      modifies excmapDef
      ensures Valid()
      ensures r == if source.None? then None
                   else Some(Escape(OrEmpty(exceptions), OrEmpty(extra), source.value))
    {
      if source.None? {
        return None;
      }
      if excmapDef[0] {
        MakeExcmapDef();
      }
      var excmap := MakeExcmap(OrEmpty(exceptions), OrEmpty(extra));
      var text := Fill(source.value, excmap, OrEmpty(exceptions), OrEmpty(extra));
      return Some(text);
    }

    /** The writing loop, into a buffer of four bytes for every byte of the source. */
    static method Fill(source: cstring, excmap: array<bool>, ghost exceptions: cstring, ghost extra: cstring)
        returns (text: string)
      requires excmap.Length == 256
      requires forall i: nat | 0 < i < 256 :: excmap[i] == Plain(exceptions, extra, i as char)
      ensures text == Escape(exceptions, extra, source)
    {
      var dest := new char[4 * |source| + 1];
      var q := 0;
      for p := 0 to |source|
        invariant q <= 4 * p && dest[..q] == Escape(exceptions, extra, source[..p])
      {
        var c := source[p];
        assert source[..p + 1][..p] == source[..p] && source[..p + 1][p] == c;
        if excmap[c as int] {
          dest[q] := c;
          q := q + 1;
        } else {
          q := WriteEscape(dest, q, c);
        }
      }
      dest[q] := NUL;
      assert source[..|source|] == source;
      text := dest[..q];
    }

    /** The inner switch. */
    static method WriteEscape(dest: array<char>, q: nat, c: byte) returns (q': nat)
      requires q + 4 < dest.Length
      modifies dest
      ensures q <= q' <= q + 4 && dest[..q'] == old(dest[..q]) + EscapeByte(false, c)
    {
      dest[q] := BACKSLASH;
      if Letter(c).Some? {
        dest[q + 1] := Letter(c).value;
        q' := q + 2;
      } else {
        dest[q + 1] := Octal(c as int / 64 % 8);
        dest[q + 2] := Octal(c as int / 8 % 8);
        dest[q + 3] := Octal(c as int % 8);
        q' := q + 4;
      }
      assert dest[..q] == old(dest[..q]);
      assert dest[q..q'] == EscapeByte(false, c);
    }
  }

  function OrEmpty(s: Option<cstring>): cstring {
    if s.None? then [] else s.value
  }

  // ----- `g_strcompress` -----

  predicate IsOctal(c: char) { '0' <= c <= '7' }

  /** How many of the first three bytes are octal digits, up to the first that is not. */
  function OctalRun(s: string, limit: nat): (n: nat)
    ensures n <= |s| && n <= limit
    ensures limit > 0 && s != [] && IsOctal(s[0]) ==> n > 0
  {
    if limit == 0 || s == [] || !IsOctal(s[0]) then 0 else 1 + OctalRun(s[1..], limit - 1)
  }

  function OctalValue(s: string, n: nat): nat
    requires n <= |s| && forall i | 0 <= i < n :: IsOctal(s[i])
  {
    if n == 0 then 0
    else
      assert IsOctal(s[n - 1]);
      8 * OctalValue(s, n - 1) + (s[n - 1] as int - '0' as int)
  }

  lemma {:induction false} OctalRunDigits(s: string, limit: nat)
    ensures forall i | 0 <= i < OctalRun(s, limit) :: IsOctal(s[i])
  {
    if limit > 0 && s != [] && IsOctal(s[0]) {
      OctalRunDigits(s[1..], limit - 1);
    }
  }

  function Named(c: char): char {
    match c
    case 'b' => '\U{8}'
    case 'f' => '\U{C}'
    case 'n' => '\n'
    case 'r' => '\r'
    case 't' => '\t'
    case 'v' => '\U{B}'
    case _ => c
  }

  /** The reference decoder: a backslash introduces up to three octal digits or one other
      byte; at the very end it is dropped. */
  function Compress(s: string): string
    decreases |s|
  {
    if s == [] then []
    else if s[0] != BACKSLASH then [s[0]] + Compress(s[1..])
    else if |s| == 1 then []
    else if IsOctal(s[1]) then
      var n := OctalRun(s[1..], 3);
      OctalRunDigits(s[1..], 3);
      [(OctalValue(s[1..], n) % 256) as char] + Compress(s[1 + n..])
    else [Named(s[1])] + Compress(s[2..])
  }

  /** Decoding leaves exactly the strings without a backslash alone. */
  lemma {:induction false} CompressSame(s: string)
    ensures |Compress(s)| <= |s|
    ensures Compress(s) == s <==> BACKSLASH !in s
    decreases |s|
  {
    if s != [] && s[0] != BACKSLASH {
      CompressSame(s[1..]);
      assert s == [s[0]] + s[1..];
    } else if |s| > 1 {
      var n := if IsOctal(s[1]) then OctalRun(s[1..], 3) else 1;
      CompressSame(s[1 + n..]);
      assert |Compress(s)| == 1 + |Compress(s[1 + n..])|;
    }
  }

  // ----- the round trip -----

  lemma CompressByte(plain: bool, c: byte, rest: string)
    requires c == BACKSLASH ==> !plain
    ensures Compress(EscapeByte(plain, c) + rest) == [c] + Compress(rest)
  {
    if plain {
      assert ([c] + rest)[1..] == rest;
    } else if Letter(c).Some? {
      CompressLetter(c, rest);
    } else {
      var v := c as int;
      OctalDigits(v);
      CompressOctal(v / 64 % 8, v / 8 % 8, v % 8, rest);
    }
  }

  lemma CompressLetter(c: byte, rest: string)
    requires Letter(c).Some?
    ensures Compress([BACKSLASH, Letter(c).value] + rest) == [c] + Compress(rest)
  {
    assert ([BACKSLASH, Letter(c).value] + rest)[2..] == rest;
  }

  lemma OctalDigits(v: nat)
    requires v < 256
    ensures v / 64 % 8 < 4 && 64 * (v / 64 % 8) + 8 * (v / 8 % 8) + v % 8 == v
  {
  }

  lemma CompressOctal(x: nat, y: nat, z: nat, rest: string)
    requires x < 4 && y < 8 && z < 8
    ensures Compress([BACKSLASH, Octal(x), Octal(y), Octal(z)] + rest)
         == [(64 * x + 8 * y + z) as char] + Compress(rest)
  {
    var s := [BACKSLASH, Octal(x), Octal(y), Octal(z)] + rest;
    assert s[1..] == [Octal(x), Octal(y), Octal(z)] + rest;
    ThreeDigits(x, y, z, rest);
    assert s[1 + 3..] == rest;
  }

  lemma ThreeDigits(x: nat, y: nat, z: nat, rest: string)
    requires x < 4 && y < 8 && z < 8
    ensures
      var t: string := [Octal(x), Octal(y), Octal(z)] + rest;
      && OctalRun(t, 3) == 3 && (forall i | 0 <= i < 3 :: IsOctal(t[i]))
      && OctalValue(t, 3) == 64 * x + 8 * y + z
  {
    var t: string := [Octal(x), Octal(y), Octal(z)] + rest;
    assert t[1..][1..] == t[2..];
    assert OctalRun(t[2..], 1) == 1;
    assert OctalRun(t[1..], 2) == 2;
    assert OctalValue(t, 1) == x;
    assert OctalValue(t, 2) == 8 * x + y;
  }

  lemma {:induction false} CompressEscapeWith(exceptions: cstring, extra: cstring, s: cstring, rest: string)
    requires !Plain(exceptions, extra, BACKSLASH)
    ensures Compress(Escape(exceptions, extra, s) + rest) == s + Compress(rest)
  {
    if s == [] {
      assert [] + rest == rest && [] + Compress(rest) == Compress(rest);
    } else {
      var front, c := s[..|s| - 1], s[|s| - 1];
      var e: string := EscapeByte(Plain(exceptions, extra, c), c);
      CompressEscapeWith(exceptions, extra, front, e + rest);
      CompressByte(Plain(exceptions, extra, c), c, rest);
      Regroup3<char>(Escape(exceptions, extra, front), e, rest);
      Regroup3<char>(front, [c], Compress(rest));
      assert s == front + [c];
    }
  }

  /** Decoding undoes escaping for every source exactly when a backslash itself is escaped:
      when it is no exception, or is listed as extra too. */
  lemma RoundTrip(exceptions: cstring, extra: cstring)
    ensures (forall s: cstring :: Compress(Escape(exceptions, extra, s)) == s)
       <==> (BACKSLASH !in exceptions || BACKSLASH in extra)
  {
    if BACKSLASH !in exceptions || BACKSLASH in extra {
      forall s: cstring
        ensures Compress(Escape(exceptions, extra, s)) == s
      {
        CompressEscapeWith(exceptions, extra, s, []);
        assert Escape(exceptions, extra, s) + [] == Escape(exceptions, extra, s);
        assert s + Compress([]) == s;
      }
    } else {
      var s: cstring := [BACKSLASH];
      assert Escape(exceptions, extra, s[..0]) == [];
      assert Escape(exceptions, extra, s) == [BACKSLASH];
      assert Compress([BACKSLASH]) == [];
    }
  }

  /** The bytes an escape can be made of. */
  predicate EscapeAlphabet(c: char) {
    c == BACKSLASH || c == '"' || IsOctal(c) || c in ['b', 'f', 'n', 'r', 't']
  }

  /** The output consists of plain bytes and escapes: no extra byte survives as itself. */
  lemma {:induction false} OutputBytes(exceptions: cstring, extra: cstring, s: cstring, c: char)
    requires c in Escape(exceptions, extra, s)
    ensures Plain(exceptions, extra, c) || EscapeAlphabet(c)
  {
    var front, last := s[..|s| - 1], s[|s| - 1];
    if c in Escape(exceptions, extra, front) {
      OutputBytes(exceptions, extra, front, c);
    }
  }

  /** `key_label_escape`. */
  const LABEL_EXTRA: cstring := "=$#"

  function KeyLabelEscape(s: cstring): cstring { Escape([], LABEL_EXTRA, s) }

  lemma LabelByte(s: cstring, c: char)
    requires c in KeyLabelEscape(s)
    ensures c != '=' && c != '$' && c != '#' && 32 <= c as int < 127
  {
    OutputBytes([], LABEL_EXTRA, s, c);
  }

  /** An escaped label holds none of the three bytes of the key syntax and nothing but
      printable ASCII, and decoding gives the label back. */
  lemma LabelEscape(s: cstring)
    ensures Compress(KeyLabelEscape(s)) == s
    ensures forall c <- KeyLabelEscape(s) :: c != '=' && c != '$' && c != '#' && 32 <= c as int < 127
    ensures |s| <= |KeyLabelEscape(s)| <= 4 * |s|
  {
    CompressEscapeWith([], LABEL_EXTRA, s, []);
    assert KeyLabelEscape(s) + [] == KeyLabelEscape(s) && s + Compress([]) == s;
    forall c <- KeyLabelEscape(s)
      ensures c != '=' && c != '$' && c != '#' && 32 <= c as int < 127
    {
      LabelByte(s, c);
    }
  }

  // ----- the escapes themselves -----

  /** What a byte becomes that is not copied: a letter for the few that have one, else three
      octal digits. */
  lemma EscapedForms(c: byte)
    ensures
      var e := EscapeByte(false, c);
      && e[0] == '\\'
      && (c == '\U{8}' ==> e[1..] == ['b']) && (c == '\U{C}' ==> e[1..] == ['f']) && (c == '\n' ==> e[1..] == ['n'])
      && (c == '\r' ==> e[1..] == ['r']) && (c == '\t' ==> e[1..] == ['t'])
      && (c == '\\' || c == '"' ==> e[1..] == [c])
      && (c !in ['\U{8}', '\U{C}', '\n', '\r', '\t', '\\', '"'] ==>
            |e| == 4 && (forall i | 1 <= i < 4 :: '0' <= e[i] <= '7')
            && c as int == 64 * (e[1] as int - '0' as int) + 8 * (e[2] as int - '0' as int)
                           + (e[3] as int - '0' as int))
  {
    OctalDigits(c as int);
  }

  /** Exactly the texts stay as they are that have no byte of `extra`, and besides the bytes
      of `exceptions` only printable ASCII without quote and backslash. */
  lemma {:induction false} NothingEscaped(exceptions: cstring, extra: cstring, s: cstring)
    ensures Escape(exceptions, extra, s) == s <==> All(StaysIn(exceptions, extra), s)
    decreases |s|, 0
  {
    if s != [] {
      var front, last := s[..|s| - 1], s[|s| - 1];
      assert s == front + [last];
      OneMoreEscaped(exceptions, extra, front, last);
    }
  }

  lemma OneMoreEscaped(exceptions: cstring, extra: cstring, front: cstring, last: byte)
    ensures Escape(exceptions, extra, front + [last]) == front + [last]
       <==> All(StaysIn(exceptions, extra), front + [last])
    decreases |front|, 1
  {
    NothingEscaped(exceptions, extra, front);
    LastEscaped(exceptions, extra, front, last);
    AllPlus(StaysIn(exceptions, extra), front, last);
  }

  lemma LastEscaped(exceptions: cstring, extra: cstring, front: cstring, last: byte)
    ensures Escape(exceptions, extra, front + [last]) == front + [last]
       <==> Escape(exceptions, extra, front) == front && StaysIn(exceptions, extra)(last)
  {
    EscapeSnoc(exceptions, extra, front, last);
    if Plain(exceptions, extra, last) {
      SameFront(Escape(exceptions, extra, front), front, last);
    } else {
      LongerEscape(last);
    }
  }

  lemma EscapeSnoc(exceptions: cstring, extra: cstring, front: cstring, last: byte)
    ensures Escape(exceptions, extra, front + [last])
         == Escape(exceptions, extra, front) + EscapeByte(Plain(exceptions, extra, last), last)
  {
    assert (front + [last])[..|front|] == front;
  }

  function StaysIn(exceptions: cstring, extra: cstring): char -> bool {
    c => c !in extra && (c in exceptions || (32 <= c as int < 127 && c != '"' && c != '\\'))
  }

  lemma LongerEscape(c: byte)
    ensures |EscapeByte(false, c)| > 1
  {
  }

  lemma SameFront(a: cstring, b: cstring, c: byte)
    ensures a + [c] == b + [c] <==> a == b
  {
    if a + [c] == b + [c] {
      SameSuffix(a, b, [c]);
    }
  }
}
