/** What is printed for a field and a group, and what is read of any key, in terms of the
    characters themselves. */
module KeyTexts {
  import opened CStrings
  import opened Seqs
  import opened StableOrder
  import opened Strescape
  import opened KeyFields
  import opened KeyRoundTrip
  import KeyFileValue

  // ----- the header -----

  /** A header is printed exactly for a field with a tag, an icon, or a flag other than that
      of an escaped label; it holds the flags and the tag. */
  lemma HeaderWhen(f: Field, group: nat, i: nat)
    ensures KeyText(f, group, i) == Escaped(f).name
       <==> f.tag == None && f.icon == None && !f.highlight && !f.reportDetails && !f.valueHasVendor
    ensures f.tag.Some? ==>
      var f' := Escaped(f);
      KeyText(f, group, i) == ['$'] + FlagText(f') + f.tag.value + ['$'] + f'.name
  {
    if HasHeader(f) {
      var header := Header(Escaped(f), TagText(f, group, i));
      assert |KeyText(f, group, i)| == |header| + |Escaped(f).name|;
      Regroup3(['$'], FlagText(Escaped(f)), TagText(f, group, i));
    }
  }

  /** The flags stand in a header in one order: escaped label, highlight, details, vendor. */
  lemma FlagsInOrder(f: Field, i: nat, j: nat)
    requires i < j < |FlagText(f)|
    ensures Find(['@', '*', '!', '^'], FlagText(f)[i]) < Find(['@', '*', '!', '^'], FlagText(f)[j]) < 4
  {
    var a, b := If(f.labelIsEscaped, '@'), If(f.highlight, '*');
    var c, d := If(f.reportDetails, '!'), If(f.valueHasVendor, '^');
    assert FlagText(f) == a + b + c + d;
    FlagRanks();
  }

  lemma FlagRanks()
    ensures Find(['@', '*', '!', '^'], '@') == 0 && Find(['@', '*', '!', '^'], '*') == 1
    ensures Find(['@', '*', '!', '^'], '!') == 2 && Find(['@', '*', '!', '^'], '^') == 3
  {
    FindFirst([], '@', ['*', '!', '^']);
    FindFirst(['@'], '*', ['!', '^']);
    FindFirst(['@', '*'], '!', ['^']);
    FindFirst(['@', '*', '!'], '^', []);
    assert [] + ['@'] + ['*', '!', '^'] == ['@', '*', '!', '^'] == ['@'] + ['*'] + ['!', '^'];
    assert ['@', '*'] + ['!'] + ['^'] == ['@', '*', '!', '^'] == ['@', '*', '!'] + ['^'] + [];
  }

  // ----- the parts of any key -----

  /** The flags part and the name make up a key; label and dis, with the `#` between them,
      make up the name, where an escaped label is decoded. */
  lemma KeyParts(key: cstring)
    requires key != []
    ensures
      var c := ComponentsOf(key);
      && c.name.Some? && c.display.Some?
      && key == (if c.flags.Some? then c.flags.value else []) + c.name.value
      && var shown := BeforeHash(c.name.value);
         && '#' !in shown
         && c.name.value == shown + (if c.dis.Some? then ['#'] + c.dis.value else [])
         && c.display.value == (if c.flags.Some? && '@' in c.flags.value then Compress(shown) else shown)
  {
    KeySplit(key);
    NameSplit(NamePart(key));
  }

  lemma KeySplit(key: cstring)
    requires key != []
    ensures key == (if HeaderPart(key).Some? then HeaderPart(key).value else []) + NamePart(key)
  {
  }

  lemma NameSplit(name: cstring)
    ensures
      var hash := Find(name, '#');
      && '#' !in BeforeHash(name)
      && name == BeforeHash(name) + (if hash < |name| then ['#'] + name[hash + 1..] else [])
  {
    var hash := Find(name, '#');
    if hash < |name| {
      Cut(name, hash);
    }
  }

  /** The flags part starts with a `$` and ends with the next; a key without two has none. */
  lemma FlagsPart(key: cstring)
    requires key != []
    ensures
      var flags := ComponentsOf(key).flags;
      if flags.Some? then
        var n := |flags.value|;
        n > 1 && flags.value[0] == '$' == flags.value[n - 1] && '$' !in flags.value[1..n - 1]
      else
        key[0] != '$' || '$' !in key[1..]
  {
    var e := Find(key[1..], '$');
    if Flagged(key) {
      var flags := key[..Close(key) + 1];
      assert flags[1..|flags| - 1] == key[1..][..e];
      assert flags[|flags| - 1] == key[1..][e];
    } else if key[0] == '$' {
      assert key[1..][..e] == key[1..];
    }
  }

  // ----- values -----

  /** A value with columns is printed as it is, any other so that decoding gives it back. */
  lemma ValueRead(f: Field)
    ensures
      if '|' in f.value then ValueText(f) == f.value
      else KeyFileValue.DecodeList(ValueText(f), '|') == Some([f.value])
  {
    if '|' !in f.value {
      KeyFileValue.DecodeLast(f.value, '|');
    }
  }

  // ----- groups -----

  /** The line of a group stands between brackets, and its name and number, which follows the
      last `#`, can be read off it. */
  lemma GroupLineParts(name: cstring, group: nat)
    ensures
      var line := GroupLine(Some(name), group);
      var n := |line| - 2;
      && n >= |name| + 2 && line[0] == '[' && line[n] == ']' && line[n + 1] == '\n'
      && line[1..|name| + 1] == name && line[|name| + 1] == '#'
      && '#' !in line[|name| + 2..n] && Atoi(line[|name| + 2..n]) == group
  {
    var line, digits := GroupLine(Some(name), group), Decimal(group);
    var n := |line| - 2;
    assert line == ['['] + name + ['#'] + digits + [']', '\n'];
    assert line[1..|name| + 1] == name && line[|name| + 2..n] == digits;
    assert forall c <- digits :: IsDigit(c);
    AtoiDecimal(group, []);
    assert digits + [] == digits;
  }

  /** The order in which fields are printed, by the bytes of their names, values or tags. */
  lemma OrderedBy(sort: GroupSort, fields: seq<Field>, i: nat, j: nat)
    requires i < j < |fields|
    ensures |Ordered(sort, fields)| == |fields|
    ensures
      var (x, y) := (Ordered(sort, fields)[i], Ordered(sort, fields)[j]);
      match sort
      case Unsorted => x == fields[i] && y == fields[j]
      case NameAscending => !BytesBefore(y.name, x.name)
      case NameDescending => !BytesBefore(x.name, y.name)
      case ValueAscending => !BytesBefore(y.value, x.value)
      case ValueDescending => !BytesBefore(x.value, y.value)
      case TagAscending => !TextBefore(y.tag, x.tag)
      case TagDescending => !TextBefore(x.tag, y.tag)
  {
    var x, y := Ordered(sort, fields)[i], Ordered(sort, fields)[j];
    OrderedIsStable(sort, fields);
    StrCmpSwap(x.name, y.name);
    StrCmpSwap(x.value, y.value);
    StrCmp0Order(x.tag, y.tag, None);
    StrCmp0Bytes(x.tag, y.tag);
    StrCmp0Bytes(y.tag, x.tag);
  }

  lemma StrCmpSwap(a: cstring, b: cstring)
    ensures StrCmp(a, b) > 0 <==> BytesBefore(b, a)
    ensures StrCmp(b, a) > 0 <==> BytesBefore(a, b)
  {
    StrCmpOrder(a, b, []);
    StrCmpBytes(a, b);
    StrCmpBytes(b, a);
  }
}
