/** The keys of flattened info groups: `flatten_group` prints them, `key_get_components`
    and the flag queries take them apart again.

    A key is a name, with or without a header in front.  The header stands between two `$`
    and holds flag characters followed by a tag; a `#` in the name ends its label. */
module KeyFields {
  import opened CStrings
  import opened Seqs
  import opened StableOrder
  import opened Strescape
  import KeyFileValue

  datatype Field = Field(tag: Option<cstring>, name: cstring, value: cstring, icon: Option<cstring>,
                         labelIsEscaped: bool, highlight: bool, reportDetails: bool, valueHasVendor: bool)

  // ----- printing -----

  /** The tag of a field, generated from its place if it has none. */
  function TagText(f: Field, group: nat, i: nat): cstring {
    if f.tag.Some? then f.tag.value
    else ['I', 'T', 'E', 'M'] + Decimal(group) + ['-'] + Decimal(i)
  }

  predicate NeedsEscape(f: Field) {
    !f.labelIsEscaped && ('=' in f.name || '$' in f.name)
  }

  /** `flatten_group` replaces the name of a field whose label cannot be printed. */
  function Escaped(f: Field): Field {
    if NeedsEscape(f) then f.(name := KeyLabelEscape(f.name), labelIsEscaped := true) else f
  }

  predicate HasHeader(f: Field) {
    f.tag.Some? || f.highlight || f.reportDetails || f.valueHasVendor || f.icon.Some?
  }

  function If(b: bool, c: byte): cstring { if b then [c] else [] }

  function FlagText(f: Field): cstring {
    If(f.labelIsEscaped, '@') + If(f.highlight, '*') + If(f.reportDetails, '!') + If(f.valueHasVendor, '^')
  }

  function Header(f: Field, tag: cstring): cstring {
    ['$'] + (FlagText(f) + tag) + ['$']
  }

  function KeyText(f: Field, group: nat, i: nat): cstring {
    var f' := Escaped(f);
    (if HasHeader(f) then Header(f', TagText(f, group, i)) else []) + f'.name
  }

  /** Values with columns are not escaped. */
  function ValueText(f: Field): cstring {
    if '|' in f.value then f.value else KeyFileValue.Escape(f.value, '|')
  }

  function Line(f: Field, group: nat, i: nat): cstring {
    KeyText(f, group, i) + ['='] + ValueText(f) + ['\n']
  }

  function Lines(fields: seq<Field>, group: nat, n: nat): cstring
    requires n <= |fields|
  {
    if n == 0 then [] else Lines(fields, group, n - 1) + Line(fields[n - 1], group, n - 1)
  }

  function GroupLine(name: Option<cstring>, group: nat): cstring {
    if name.Some? then ['['] + name.value + ['#'] + Decimal(group) + [']', '\n'] else []
  }

  datatype GroupSort =
    | Unsorted
    | NameAscending | NameDescending
    | ValueAscending | ValueDescending
    | TagAscending | TagDescending

  /** The comparison that `sort_functions` names. */
  function FieldCmp(sort: GroupSort, a: Field, b: Field): int {
    match sort
    case Unsorted => 0
    case NameAscending => StrCmp(a.name, b.name)
    case NameDescending => StrCmp(b.name, a.name)
    case ValueAscending => StrCmp(a.value, b.value)
    case ValueDescending => StrCmp(b.value, a.value)
    case TagAscending => StrCmp0(a.tag, b.tag)
    case TagDescending => StrCmp0(b.tag, a.tag)
  }

  function FieldAfter(sort: GroupSort): (Field, Field) -> bool {
    (a: Field, b: Field) => FieldCmp(sort, a, b) > 0
  }

  /** The fields in the order they are printed in; `g_array_sort` is stable. */
  function Ordered(sort: GroupSort, fields: seq<Field>): seq<Field> {
    if sort.Unsorted? then fields else Sort(FieldAfter(sort), fields)
  }

  lemma FieldAfterIsOrder(sort: GroupSort)
    ensures IsOrder(FieldAfter(sort))
  {
    forall a: Field, b: Field, c: Field
      ensures FieldCmp(sort, a, b) > 0 ==> FieldCmp(sort, b, a) <= 0
      ensures FieldCmp(sort, a, c) > 0 ==> FieldCmp(sort, a, b) > 0 || FieldCmp(sort, b, c) > 0
    {
      StrCmpOrder(a.name, b.name, c.name);
      StrCmpOrder(c.name, b.name, a.name);
      StrCmpOrder(a.value, b.value, c.value);
      StrCmpOrder(c.value, b.value, a.value);
      StrCmp0Order(a.tag, b.tag, c.tag);
      StrCmp0Order(c.tag, b.tag, a.tag);
    }
  }

  /** Fields are printed in the order asked for, equal ones in their own, and none is lost. */
  lemma OrderedIsStable(sort: GroupSort, fields: seq<Field>)
    ensures multiset(Ordered(sort, fields)) == multiset(fields)
    ensures !sort.Unsorted? ==> SameClasses(FieldAfter(sort), Ordered(sort, fields), fields)
    ensures !sort.Unsorted? ==>
      forall i, j | 0 <= i < j < |fields| :: FieldCmp(sort, Ordered(sort, fields)[i], Ordered(sort, fields)[j]) <= 0
  {
    if !sort.Unsorted? {
      FieldAfterIsOrder(sort);
      SortIsStable(FieldAfter(sort), fields);
      var r := Ordered(sort, fields);
      assert forall i, j | 0 <= i < j < |r| :: !FieldAfter(sort)(r[i], r[j]);
    }
  }

  /** Prints a group and leaves its fields sorted, every one as it was printed. */
  method FlattenGroup(table: EscapeTable, name: Option<cstring>, sort: GroupSort, fields: array?<Field>,
                      computed: Option<cstring>, group: nat) returns (output: string)
    requires table.Valid()
    modifies fields, table.excmapDef
    ensures table.Valid()
    ensures fields == null ==>
      output == GroupLine(name, group) + if computed.Some? then computed.value + ['\n'] else []
    ensures fields != null ==>
      var printed := Ordered(sort, old(fields[..]));
      && output == GroupLine(name, group) + Lines(printed, group, fields.Length)
      && fields[..] == EscapedTo(printed, fields.Length)
  {
    output := GroupLine(name, group);
    if fields != null {
      if !sort.Unsorted? {
        SortFields(sort, fields);
      }
      assert Unsorted == sort ==> fields[..] == old(fields[..]);
      var lines := FlattenFields(table, fields, group);
      output := output + lines;
    } else if computed.Some? {
      output := output + computed.value + ['\n'];
    }
  }

  /** `g_array_sort`. */
  method SortFields(sort: GroupSort, fields: array<Field>)
    modifies fields
    ensures fields[..] == Sort(FieldAfter(sort), old(fields[..]))
  {
    var s := Sort(FieldAfter(sort), fields[..]);
    forall i | 0 <= i < fields.Length {
      fields[i] := s[i];
    }
  }

  /** The first `n` fields as they were printed, the others as they were. */
  function EscapedTo(fields: seq<Field>, n: nat): (r: seq<Field>)
    requires n <= |fields|
    ensures |r| == |fields|
  {
    if n == 0 then fields
    else
      var before := EscapedTo(fields, n - 1);
      before[n - 1 := Escaped(fields[n - 1])]
  }

  lemma {:induction false} EscapedAt(fields: seq<Field>, n: nat, k: nat)
    requires n <= |fields| && k < |fields|
    ensures EscapedTo(fields, n)[k] == if k < n then Escaped(fields[k]) else fields[k]
  {
    if n > 0 {
      EscapedAt(fields, n - 1, k);
    }
  }

  /** The printing loop. */
  method FlattenFields(table: EscapeTable, fields: array<Field>, group: nat) returns (output: string)
    requires table.Valid()
    modifies fields, table.excmapDef
    ensures table.Valid()
    ensures output == Lines(old(fields[..]), group, fields.Length)
    ensures fields[..] == EscapedTo(old(fields[..]), fields.Length)
  {
    ghost var orig := fields[..];
    output := [];
    for i := 0 to fields.Length
      invariant table.Valid()
      invariant output == Lines(orig, group, i)
      invariant fields[..] == EscapedTo(orig, i)
    {
      EscapedAt(orig, i, i);
      assert fields[i] == fields[..][i];
      LinesMore(orig, group, i);
      var line := FlattenNext(table, fields, group, i);
      output := output + line;
    }
  }

  /** One round of the loop. */
  method FlattenNext(table: EscapeTable, fields: array<Field>, group: nat, i: nat) returns (line: string)
    requires table.Valid() && i < fields.Length
    modifies fields, table.excmapDef
    ensures table.Valid()
    ensures line == Line(old(fields[i]), group, i)
    ensures fields[..] == old(fields[..])[i := Escaped(old(fields[i]))]
  {
    var f := fields[i];
    line := FlattenField(table, f, group, i);
    fields[i] := Escaped(f);
  }

  lemma LinesMore(fields: seq<Field>, group: nat, i: nat)
    requires i < |fields|
    ensures Lines(fields, group, i + 1) == Lines(fields, group, i) + Line(fields[i], group, i)
  {
  }

  method FlattenField(table: EscapeTable, f: Field, group: nat, i: nat) returns (line: string)
    requires table.Valid()
    modifies table.excmapDef
    ensures table.Valid()
    ensures line == Line(f, group, i)
  {
    var doEscape := true;
    if '|' in f.value {
      doEscape := false;
    }
    var tagged := f.tag.Some?;
    var flagged := f.highlight || f.reportDetails || f.valueHasVendor;
    var tp := TagText(f, group, i);
    var name: string, labelIsEscaped := f.name, f.labelIsEscaped;
    if !f.labelIsEscaped {
      if '=' in f.name || '$' in f.name {
        var escaped := table.GgStrescape(Some(f.name), None, Some(LABEL_EXTRA));
        name, labelIsEscaped := escaped.value, true;
      }
    }
    line := [];
    if tagged || flagged || f.icon.Some? {
      line := ['$'] + ((if labelIsEscaped then "@" else "") + (if f.highlight then "*" else "")
              + (if f.reportDetails then "!" else "") + (if f.valueHasVendor then "^" else "") + tp) + ['$'];
    }
    if doEscape {
      var escapedValue := KeyFileValue.ParseStringAsValue(f.value, '|');
      line := line + name + ['='] + escapedValue + ['\n'];
    } else {
      line := line + name + ['='] + f.value + ['\n'];
    }
  }

  // ----- parsing -----

  predicate IsFlagChar(c: char) { c == '*' || c == '!' || c == '^' || c == '@' }

  function FlagRun(s: cstring): (n: nat)
    ensures n <= |s|
    ensures n < |s| ==> !IsFlagChar(s[n])
    ensures forall i | 0 <= i < n :: IsFlagChar(s[i])
  {
    if s == [] || !IsFlagChar(s[0]) then 0 else 1 + FlagRun(s[1..])
  }

  /** Where the header's closing `$` is, for a key that starts with `$`. */
  function Close(key: cstring): nat
    requires key != []
  {
    1 + Find(key[1..], '$')
  }

  predicate Flagged(key: cstring) {
    key != [] && key[0] == '$' && Close(key) < |key|
  }

  function MiTag(key: cstring): Option<cstring> {
    if Flagged(key) then
      var l := Close(key);
      Some(key[1 + FlagRun(key[1..l])..l])
    else None
  }

  datatype Components = Components(flags: Option<cstring>, tag: Option<cstring>, name: Option<cstring>,
                                   display: Option<string>, dis: Option<cstring>)

  function BeforeHash(name: cstring): cstring { name[..Find(name, '#')] }

  /** The header of a key with both its `$`, if it has one, and what follows. */
  function HeaderPart(key: cstring): Option<cstring> {
    if Flagged(key) then Some(key[..Close(key) + 1]) else None
  }

  function NamePart(key: cstring): cstring {
    if Flagged(key) then key[Close(key) + 1..] else key
  }

  function ComponentsOf(key: cstring): Components {
    if key == [] then Components(None, None, None, None, None)
    else
      var flags, name := HeaderPart(key), NamePart(key);
      var hash := Find(name, '#');
      Components(flags,
                 if flags.Some? then MiTag(flags.value) else None,
                 Some(name),
                 Some(if flags.Some? && '@' in flags.value then Compress(BeforeHash(name)) else BeforeHash(name)),
                 if hash < |name| then Some(name[hash + 1..]) else None)
  }

  method KeyMiTag(key: cstring) returns (tag: Option<cstring>)
    ensures tag == MiTag(key)
  {
    if key != [] && key[0] == '$' && Close(key) < |key| {
      var l := Close(key);
      var p := 1;
      while p < l && IsFlagChar(key[p])
        invariant 1 <= p <= l
        invariant p + FlagRun(key[p..l]) == 1 + FlagRun(key[1..l])
      {
        assert key[p..l][1..] == key[p + 1..l];
        p := p + 1;
      }
      assert p < l ==> key[p..l][0] == key[p];
      return Some(key[p..l]);
    }
    return None;
  }

  /** `key_get_components` with all out-parameters wanted; a NULL key counts as empty. */
  method KeyGetComponents(key: cstring) returns (c: Components)
    ensures c == ComponentsOf(key)
  {
    if key == [] {
      return Components(None, None, None, None, None);
    }
    var flags, tag: Option<cstring> := None, None;
    var name := key;
    var np := 1 + Find(key[1..], '$');
    if key[0] == '$' && np < |key| {
      flags := Some(key[..np + 1]);
      tag := KeyMiTag(key[..np + 1]);
      name := key[np + 1..];
    }
    assert flags == HeaderPart(key) && name == NamePart(key);
    var lbp := Find(name, '#');
    var display: string := name[..lbp];
    var dis := None;
    if lbp < |name| {
      dis := Some(name[lbp + 1..]);
    }
    if flags.Some? && '@' in flags.value {
      display := Compress(display);
    }
    c := Components(flags, tag, Some(name), Some(display), dis);
  }

  /** The four flag queries, for the flag character they look for. */
  predicate HasFlag(key: cstring, flag: char) {
    ComponentsOf(key).flags.Some? && flag in ComponentsOf(key).flags.value
  }

  /** The field that `info_unflatten` makes of a key and a value. */
  function Unflatten(key: cstring, value: cstring): Field
    requires key != []
  {
    var c := ComponentsOf(key);
    var flags := if c.flags.Some? then c.flags.value else [];
    Field(c.tag, c.name.value, value, None, HasFlag(flags, '@'), HasFlag(flags, '*'),
          HasFlag(flags, '!'), HasFlag(flags, '^'))
  }
}
