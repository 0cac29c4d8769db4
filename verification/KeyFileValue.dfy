/** `gg_key_file_parse_string_as_value`, and that a reference decoder of lists undoes it. */
module KeyFileValue {
  import opened CStrings
  import opened Seqs

  const BACKSLASH: char := '\\'

  /** What one byte becomes, and whether leading space is still being parsed behind it. */
  function EscapeByte(c: byte, separator: char, leading: bool): (r: (cstring, bool))
    ensures 1 <= |r.0| <= 2
  {
    match c
    case ' ' => (if leading then ['\\', 's'] else [c], leading)
    case '\t' => (if leading then ['\\', 't'] else [c], leading)
    case '\n' => (['\\', 'n'], leading)
    case '\r' => (['\\', 'r'], leading)
    case '\\' => (['\\', '\\'], false)
    case _ => if separator != NUL && c == separator then (['\\', c], true) else ([c], false)
  }

  function EscapeFrom(s: cstring, separator: char, leading: bool): (r: cstring)
    ensures |s| <= |r| <= 2 * |s|
  {
    if s == [] then []
    else
      var (e, leading') := EscapeByte(s[0], separator, leading);
      e + EscapeFrom(s[1..], separator, leading')
  }

  /** The value text of a field. */
  function Escape(s: cstring, separator: char): cstring { EscapeFrom(s, separator, true) }

  method ParseStringAsValue(s: cstring, separator: char) returns (r: string)
    ensures r == Escape(s, separator)
  {
    var length := |s| + 1;
    var value := new char[2 * length];
    var q := 0;
    var parsingLeadingSpace := true;
    assert s[0..] == s;
    for p := 0 to length - 1
      invariant q <= 2 * p
      invariant value[..q] + EscapeFrom(s[p..], separator, parsingLeadingSpace) == Escape(s, separator)
    {
      var c := s[p];
      ghost var done, before := value[..q], parsingLeadingSpace;
      EscapeNext(s, p, separator, before);
      var escaped: char := NUL;
      if c == ' ' {
        if parsingLeadingSpace {
          escaped := 's';
        }
      } else if c == '\t' {
        if parsingLeadingSpace {
          escaped := 't';
        }
      } else if c == '\n' {
        escaped := 'n';
      } else if c == '\r' {
        escaped := 'r';
      } else if c == '\\' {
        escaped := '\\';
        parsingLeadingSpace := false;
      } else if separator != NUL && c == separator {
        escaped := separator;
        parsingLeadingSpace := true;
      } else {
        parsingLeadingSpace := false;
      }
      ghost var (e, after) := EscapeByte(c, separator, before);
      ghost var text: string := e;
      assert after == parsingLeadingSpace && text == if escaped == NUL then [c] else ['\\', escaped];
      q := WriteByte(value, q, c, escaped);
      Regroup3<char>(done, e, EscapeFrom(s[p + 1..], separator, after));
    }
    value[q] := NUL;
    r := value[..q];
    assert s[length - 1..] == [] && r + [] == r;
  }

  /** Writes a byte, or a backslash and the character that stands for it. */
  method WriteByte(value: array<char>, q: nat, c: char, escaped: char) returns (q': nat)
    requires q + 2 <= value.Length
    modifies value
    ensures q <= q' <= q + 2
    ensures value[..q'] == old(value[..q]) + if escaped == NUL then [c] else ['\\', escaped]
  {
    if escaped == NUL {
      value[q] := c;
      q' := q + 1;
    } else {
      value[q] := '\\';
      value[q + 1] := escaped;
      q' := q + 2;
    }
  }

  lemma EscapeNext(s: cstring, p: nat, separator: char, leading: bool)
    requires p < |s|
    ensures
      var (e, leading') := EscapeByte(s[p], separator, leading);
      EscapeFrom(s[p..], separator, leading) == e + EscapeFrom(s[p + 1..], separator, leading')
  {
    assert s[p..][0] == s[p] && s[p..][1..] == s[p + 1..];
  }

  // ----- decoding -----

  function Unescape(c: byte, separator: byte): (r: Option<byte>) {
    match c
    case 's' => Some(' ')
    case 'n' => Some('\n')
    case 't' => Some('\t')
    case 'r' => Some('\r')
    case '\\' => Some('\\')
    case _ => if c == separator then Some(separator) else None
  }

  /** Puts bytes in front of the first piece. */
  function Before(bytes: cstring, pieces: Option<seq<cstring>>): Option<seq<cstring>> {
    if pieces.None? || pieces.value == [] then None
    else Some([bytes + pieces.value[0]] + pieces.value[1..])
  }

  /** The reference decoder: splits at separators that no backslash precedes, and resolves
      escapes; an unknown escape or a backslash at the end is an error. */
  function DecodeList(t: cstring, separator: byte): (r: Option<seq<cstring>>)
    ensures r.Some? ==> r.value != []
    decreases |t|
  {
    if t == [] then Some([[]])
    else if t[0] == '\\' then
      if |t| == 1 || Unescape(t[1], separator).None? then None
      else Before([Unescape(t[1], separator).value], DecodeList(t[2..], separator))
    else if t[0] == separator then
      var rest := DecodeList(t[1..], separator);
      if rest.None? then None else Some([[]] + rest.value)
    else Before([t[0]], DecodeList(t[1..], separator))
  }

  function Join(fields: seq<cstring>, separator: byte): cstring
    requires fields != []
  {
    if |fields| == 1 then Escape(fields[0], separator)
    else Escape(fields[0], separator) + [separator] + Join(fields[1..], separator)
  }

  /** The separators whose escape is not taken for another one, and which do not occur
      unescaped in an escaped field. */
  predicate UsableSeparator(separator: byte) {
    separator !in ['s', 'n', 't', 'r', ' ', '\t', '\\']
  }

  lemma DecodeByte(c: byte, separator: byte, leading: bool, rest: cstring)
    requires UsableSeparator(separator)
    ensures DecodeList(EscapeByte(c, separator, leading).0 + rest, separator)
         == Before([c], DecodeList(rest, separator))
  {
    var e := EscapeByte(c, separator, leading).0;
    if |e| == 1 {
      assert (e + rest)[1..] == rest;
    } else {
      assert (e + rest)[2..] == rest;
      EscapedDecodes(c, separator, leading);
    }
  }

  lemma EscapedDecodes(c: byte, separator: byte, leading: bool)
    requires UsableSeparator(separator)
    ensures
      var e := EscapeByte(c, separator, leading).0;
      if |e| == 2 then e[0] == '\\' && Unescape(e[1], separator) == Some(c)
      else e[0] == c && c != '\\' && c != separator
  {
  }

  lemma BeforeBefore(c: byte, s: cstring, pieces: Option<seq<cstring>>)
    ensures Before([c], Before(s, pieces)) == Before([c] + s, pieces)
  {
    if pieces.Some? && pieces.value != [] {
      Regroup3([c], s, pieces.value[0]);
    }
  }

  lemma {:induction false} DecodeField(s: cstring, separator: byte, leading: bool, rest: cstring)
    requires UsableSeparator(separator)
    ensures DecodeList(EscapeFrom(s, separator, leading) + rest, separator)
         == Before(s, DecodeList(rest, separator))
  {
    if s == [] {
      var pieces := DecodeList(rest, separator);
      assert [] + rest == rest;
      if pieces.Some? {
        assert [] + pieces.value[0] == pieces.value[0];
        assert pieces.value == [pieces.value[0]] + pieces.value[1..];
      }
    } else {
      var (e, leading') := EscapeByte(s[0], separator, leading);
      var tail := EscapeFrom(s[1..], separator, leading');
      Regroup3(e, tail, rest);
      DecodeByte(s[0], separator, leading, tail + rest);
      DecodeField(s[1..], separator, leading', rest);
      BeforeBefore(s[0], s[1..], DecodeList(rest, separator));
      assert [s[0]] + s[1..] == s;
    }
  }

  lemma {:induction false} DecodeJoin(fields: seq<cstring>, separator: byte)
    requires fields != [] && UsableSeparator(separator)
    ensures DecodeList(Join(fields, separator), separator) == Some(fields)
  {
    if |fields| == 1 {
      DecodeLast(fields[0], separator);
      assert [fields[0]] == fields;
    } else {
      DecodeJoin(fields[1..], separator);
      DecodeFirst(fields[0], separator, Join(fields[1..], separator));
      assert [fields[0]] + fields[1..] == fields;
    }
  }

  lemma DecodeLast(field: cstring, separator: byte)
    requires UsableSeparator(separator)
    ensures DecodeList(Escape(field, separator), separator) == Some([field])
  {
    DecodeField(field, separator, true, []);
    assert Escape(field, separator) + [] == Escape(field, separator);
    assert field + [] == field && [field] + [[]][1..] == [field];
  }

  lemma DecodeFirst(field: cstring, separator: byte, rest: cstring)
    requires UsableSeparator(separator)
    ensures
      var r := DecodeList(rest, separator);
      DecodeList(Escape(field, separator) + [separator] + rest, separator)
      == if r.None? then None else Some([field] + r.value)
  {
    DecodeField(field, separator, true, [separator] + rest);
    Regroup3(Escape(field, separator), [separator], rest);
    assert ([separator] + rest)[1..] == rest;
    var r := DecodeList(rest, separator);
    if r.Some? {
      assert ([[]] + r.value)[1..] == r.value;
    }
    assert field + [] == field;
  }

  lemma Misread(separator: byte) returns (fields: seq<cstring>)
    requires !UsableSeparator(separator)
    ensures fields != [] && DecodeList(Join(fields, separator), separator) != Some(fields)
  {
    if separator in ['s', 'n', 't', 'r'] {
      fields := [[separator]];
      assert Join(fields, separator) == ['\\', separator];
      assert Unescape(separator, separator).value != separator;
      assert DecodeList(['\\', separator], separator) == Before([Unescape(separator, separator).value], Some([[]]));
    } else if separator == '\\' {
      fields := [[], []];
      assert fields[1..] == [[]];
      assert Join(fields, separator) == ['\\'];
    } else {
      var f: cstring := ['a', separator];
      fields := [f];
      assert f[1..] == [separator];
      assert EscapeFrom([separator], separator, false) == [separator];
      assert Join(fields, separator) == ['a', separator];
      var end: cstring := [separator];
      assert end[1..] == [];
      assert DecodeList(end, separator) == Some([[]] + [[]]);
      assert ['a', separator][1..] == [separator];
      assert DecodeList(['a', separator], separator) == Before(['a'], Some([[], []]));
    }
  }

  /** Every list survives exactly with the usable separators, among them `|`. */
  lemma ListRoundTrip(separator: byte)
    ensures (forall fields: seq<cstring> | fields != [] ::
               DecodeList(Join(fields, separator), separator) == Some(fields))
       <==> UsableSeparator(separator)
    ensures UsableSeparator('|')
  {
    if UsableSeparator(separator) {
      forall fields: seq<cstring> | fields != []
        ensures DecodeList(Join(fields, separator), separator) == Some(fields)
      {
        DecodeJoin(fields, separator);
      }
    } else {
      var fields := Misread(separator);
    }
  }

  /** With any separator, the text fits one line of a key file. */
  lemma {:induction false} OneLine(s: cstring, separator: char, leading: bool)
    ensures
      var r := EscapeFrom(s, separator, leading);
      && '\n' !in r && '\r' !in r
      && (leading && r != [] ==> r[0] != ' ' && r[0] != '\t')
  {
    if s != [] {
      var (e, leading') := EscapeByte(s[0], separator, leading);
      OneLine(s[1..], separator, leading');
      assert '\n' !in e && '\r' !in e;
    }
  }

  // ----- where leading blanks are escaped -----

  predicate LedFrom(s: cstring, separator: char, j: nat, i: nat) {
    && j <= i <= |s| && (j == 0 || s[j - 1] == separator)
    && forall k | j <= k < i :: s[k] in [' ', '\t', '\n', '\r']
  }

  /** Nothing but white space stands between the start, or the last separator, and place `i`. */
  ghost predicate Led(s: cstring, separator: char, i: nat) {
    exists j: nat :: LedFrom(s, separator, j, i)
  }

  /** Blanks are escaped at the start of a field and behind a separator in it, and nowhere
      else: from any place on, a field is escaped by what leads there. */
  lemma {:induction false} EscapeLed(s: cstring, separator: char, i: nat)
    requires i <= |s| && separator !in [' ', '\t', '\n', '\r', '\\', NUL]
    ensures Escape(s, separator) == Escape(s[..i], separator) + EscapeFrom(s[i..], separator, Led(s, separator, i))
    decreases i
  {
    if i == 0 {
      assert LedFrom(s, separator, 0, 0);
      assert s[0..] == s;
    } else {
      var k := i - 1;
      var led := Led(s, separator, k);
      EscapeLed(s, separator, k);
      EscapeLed(s[..i], separator, k);
      LedPrefix(s, separator, k, i);
      LedNext(s, separator, k);
      EscapeNext(s, k, separator, led);
      EscapeNext(s[..i], k, separator, led);
      assert s[..i][..k] == s[..k] && s[..i][k] == s[k] && s[..i][i..] == [];
      var e := EscapeByte(s[k], separator, led).0;
      assert e + [] == e;
      Regroup3(Escape(s[..k], separator), e, EscapeFrom(s[i..], separator, Led(s, separator, i)));
    }
  }

  lemma LedPrefix(s: cstring, separator: char, k: nat, i: nat)
    requires k <= i <= |s|
    ensures Led(s[..i], separator, k) <==> Led(s, separator, k)
  {
    if j: nat :| LedFrom(s, separator, j, k) {
      assert LedFrom(s[..i], separator, j, k);
    }
    if j: nat :| LedFrom(s[..i], separator, j, k) {
      assert forall l | 0 <= l < i :: s[..i][l] == s[l];
      assert LedFrom(s, separator, j, k);
    }
  }

  lemma LedNext(s: cstring, separator: char, k: nat)
    requires k < |s| && separator !in [' ', '\t', '\n', '\r', '\\', NUL]
    ensures Led(s, separator, k + 1) <==> EscapeByte(s[k], separator, Led(s, separator, k)).1
  {
    var next := k + 1;
    if j: nat :| LedFrom(s, separator, j, next) {
      assert j <= k ==> LedFrom(s, separator, j, k);
    }
    if s[k] == separator {
      assert LedFrom(s, separator, next, next);
    }
    if j: nat :| LedFrom(s, separator, j, k) {
      assert s[k] in [' ', '\t', '\n', '\r'] ==> LedFrom(s, separator, j, next);
    }
  }
}
