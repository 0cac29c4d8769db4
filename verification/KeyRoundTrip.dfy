/** What `key_get_components` recovers of a key that `flatten_group` has printed. */
module KeyRoundTrip {
  import opened CStrings
  import opened Seqs
  import opened Strescape
  import opened KeyFields

  ghost predicate FlagsOnly(s: cstring) {
    forall i | 0 <= i < |s| :: IsFlagChar(s[i])
  }

  lemma FlagTextIs(f: Field)
    ensures FlagsOnly(FlagText(f)) && '$' !in FlagText(f)
    ensures '@' in FlagText(f) <==> f.labelIsEscaped
    ensures '*' in FlagText(f) <==> f.highlight
    ensures '!' in FlagText(f) <==> f.reportDetails
    ensures '^' in FlagText(f) <==> f.valueHasVendor
  {
    InIf(f.labelIsEscaped, '@');
    InIf(f.highlight, '*');
    InIf(f.reportDetails, '!');
    InIf(f.valueHasVendor, '^');
    In4(If(f.labelIsEscaped, '@'), If(f.highlight, '*'), If(f.reportDetails, '!'), If(f.valueHasVendor, '^'));
    var flags := FlagText(f);
    assert forall i | 0 <= i < |flags| :: flags[i] in flags;
  }

  lemma In4(a: cstring, b: cstring, c: cstring, d: cstring)
    ensures forall x :: x in a + b + c + d <==> x in a || x in b || x in c || x in d
  {
  }

  lemma InIf(b: bool, c: byte)
    ensures c in If(b, c) <==> b
    ensures forall d :: d in If(b, c) ==> d == c
  {
  }

  lemma {:induction false} FlagRunAppend(flags: cstring, s: cstring)
    requires FlagsOnly(flags)
    ensures FlagRun(flags + s) == |flags| + FlagRun(s)
  {
    if flags == [] {
      assert flags + s == s;
    } else {
      assert (flags + s)[1..] == flags[1..] + s;
      FlagRunAppend(flags[1..], s);
    }
  }

  lemma {:induction false} FindSkips(s: cstring, t: cstring, c: byte)
    requires c !in s
    ensures Find(s + t, c) == |s| + Find(t, c)
  {
    if s == [] {
      assert s + t == t;
    } else {
      assert (s + t)[1..] == s[1..] + t;
      FindSkips(s[1..], t, c);
    }
  }

  /** The part of a printed tag that is read as header: it ends before the first `$`. */
  function Kept(tag: cstring): cstring { tag[..Find(tag, '$')] }

  /** Taking a printed header apart, whatever the tag holds. */
  lemma ParseHeader(flags: cstring, tag: cstring, name: cstring)
    requires FlagsOnly(flags) && '$' !in flags
    ensures
      var key := ['$'] + (flags + tag) + ['$'] + name;
      var head := ['$'] + (flags + Kept(tag)) + ['$'];
      && Flagged(key) && key[..Close(key) + 1] == head
      && MiTag(head) == Some(Kept(tag)[FlagRun(Kept(tag))..])
      && ('$' !in tag ==> key[Close(key) + 1..] == name)
  {
    Regroup3(['$'] + (flags + tag), ['$'], name);
    CloseOf(flags, tag, ['$'] + name);
    HeadOf(flags, tag, name);
    HeadTag(flags, Kept(tag));
    if '$' !in tag {
      FindAbsent(tag, '$');
    }
  }

  /** The tag of a header that ends where its tag does. */
  lemma HeadTag(flags: cstring, tag: cstring)
    requires FlagsOnly(flags) && '$' !in flags && '$' !in tag
    ensures MiTag(['$'] + (flags + tag) + ['$']) == Some(tag[FlagRun(tag)..])
  {
    BodyTag(flags + tag);
    RunTail(flags, tag);
  }

  lemma RunTail(flags: cstring, tag: cstring)
    requires FlagsOnly(flags)
    ensures (flags + tag)[FlagRun(flags + tag)..] == tag[FlagRun(tag)..]
  {
    FlagRunAppend(flags, tag);
    DropBoth(flags, tag, FlagRun(tag));
  }

  lemma DropBoth(flags: cstring, tag: cstring, n: nat)
    requires n <= |tag|
    ensures (flags + tag)[|flags| + n..] == tag[n..]
  {
  }

  lemma BodyTag(body: cstring)
    requires '$' !in body
    ensures MiTag(['$'] + body + ['$']) == Some(body[FlagRun(body)..])
  {
    FindSkips(body, ['$'], '$');
    Middle(body, FlagRun(body));
    TagBetween(['$'] + body + ['$'], body, body[FlagRun(body)..]);
  }

  lemma Middle(body: cstring, n: nat)
    requires n <= |body|
    ensures
      var head := ['$'] + body + ['$'];
      && head[1..] == body + ['$']
      && head[1..1 + |body|] == body && head[1 + n..1 + |body|] == body[n..]
  {
  }

  lemma TagBetween(head: cstring, body: cstring, tag: cstring)
    requires head != [] && head[0] == '$' && Close(head) == 1 + |body| < |head|
    requires head[1..1 + |body|] == body && head[1 + FlagRun(body)..1 + |body|] == tag
    ensures MiTag(head) == Some(tag)
  {
  }

  lemma HeadOf(flags: cstring, tag: cstring, name: cstring)
    ensures
      var key := ['$'] + (flags + tag) + ['$'] + name;
      key[..1 + |flags| + Find(tag, '$') + 1] == ['$'] + (flags + Kept(tag)) + ['$']
  {
    var n := Find(tag, '$');
    var key := ['$'] + (flags + tag) + ['$'] + name;
    assert key[..1 + |flags| + n] == ['$'] + (flags + Kept(tag));
    assert key[1 + |flags| + n] == '$';
  }

  lemma CloseOf(flags: cstring, tag: cstring, rest: cstring)
    requires '$' !in flags && rest != [] && rest[0] == '$'
    ensures Close(['$'] + (flags + tag) + rest) == 1 + |flags| + Find(tag, '$')
  {
    var key := ['$'] + (flags + tag) + rest;
    Regroup3(flags, tag, rest);
    assert key[1..] == flags + (tag + rest);
    FindSkips(flags, tag + rest, '$');
    FindEither(tag, rest);
  }

  lemma {:induction false} FindEither(tag: cstring, rest: cstring)
    requires rest != [] && rest[0] == '$'
    ensures Find(tag + rest, '$') == Find(tag, '$')
  {
    if tag == [] {
      assert tag + rest == rest;
    } else if tag[0] != '$' {
      assert (tag + rest)[1..] == tag[1..] + rest;
      FindEither(tag[1..], rest);
    }
  }

  // ----- tag, name and flags -----

  /** Everything a field was printed with is read back. */
  ghost predicate Recovered(f: Field, tag: cstring, key: cstring) {
    && ComponentsOf(key).tag == Some(tag)
    && ComponentsOf(key).name == Some(f.name)
    && HasFlag(key, '@') == f.labelIsEscaped
    && HasFlag(key, '*') == f.highlight
    && HasFlag(key, '!') == f.reportDetails
    && HasFlag(key, '^') == f.valueHasVendor
  }

  /** The tag has no `$`, does not start with a flag, and holds no flag that is not set. */
  predicate TagSafe(f: Field, tag: cstring) {
    && '$' !in tag
    && (tag == [] || (tag[0] != '*' && tag[0] != '!' && tag[0] != '^' && tag[0] != '@'))
    && ('@' in tag ==> f.labelIsEscaped)
    && ('*' in tag ==> f.highlight)
    && ('!' in tag ==> f.reportDetails)
    && ('^' in tag ==> f.valueHasVendor)
  }

  function Head(flags: cstring, kept: cstring): cstring { ['$'] + (flags + kept) + ['$'] }

  lemma InHead(flags: cstring, kept: cstring, c: char)
    requires c != '$'
    ensures c in Head(flags, kept) <==> c in flags || c in kept
  {
  }

  /** What is read of a printed header, for any tag. */
  lemma HeaderComponents(f: Field, tag: cstring)
    ensures
      var c := ComponentsOf(Header(f, tag) + f.name);
      && c.flags == Some(Head(FlagText(f), Kept(tag)))
      && c.tag == Some(Kept(tag)[FlagRun(Kept(tag))..])
      && ('$' !in tag ==> c.name == Some(f.name))
  {
    FlagTextIs(f);
    ParseHeader(FlagText(f), tag, f.name);
  }

  lemma HeaderFlag(f: Field, tag: cstring, flag: char)
    requires IsFlagChar(flag)
    ensures HasFlag(Header(f, tag) + f.name, flag) <==> flag in FlagText(f) || flag in Kept(tag)
  {
    HeaderComponents(f, tag);
    InHead(FlagText(f), Kept(tag), flag);
  }

  lemma HeaderRecovered(f: Field, tag: cstring)
    ensures Recovered(f, tag, Header(f, tag) + f.name) <==> TagSafe(f, tag)
  {
    var key := Header(f, tag) + f.name;
    HeaderComponents(f, tag);
    KeptTag(tag);
    HeaderFlag(f, tag, '@');
    HeaderFlag(f, tag, '*');
    HeaderFlag(f, tag, '!');
    HeaderFlag(f, tag, '^');
    FlagTextIs(f);
  }

  lemma KeptTag(tag: cstring)
    ensures '$' !in tag ==> Kept(tag) == tag
    ensures Kept(tag)[FlagRun(Kept(tag))..] == tag
       <==> '$' !in tag && (tag == [] || !IsFlagChar(tag[0]))
  {
    if '$' !in tag {
      FindAbsent(tag, '$');
      assert Kept(tag) == tag && tag[0..] == tag;
    }
  }

  /** A printed header gives back flags, tag and name exactly when the tag cannot be taken
      for more or less than a tag; a generated tag never can. */
  lemma KeyRecovered(f: Field, group: nat, i: nat)
    requires HasHeader(f)
    ensures
      Recovered(Escaped(f), TagText(f, group, i), KeyText(f, group, i)) <==>
      TagSafe(Escaped(f), TagText(f, group, i))
    ensures f.tag.None? ==> TagSafe(Escaped(f), TagText(f, group, i))
  {
    HeaderRecovered(Escaped(f), TagText(f, group, i));
    if f.tag.None? {
      GeneratedTag(group, i);
    }
  }

  lemma GeneratedTag(group: nat, i: nat)
    ensures
      var tag: cstring := ['I', 'T', 'E', 'M'] + Decimal(group) + ['-'] + Decimal(i);
      '$' !in tag && forall k | 0 <= k < |tag| :: !IsFlagChar(tag[k])
  {
    assert forall c <- Decimal(group) :: IsDigit(c);
    assert forall c <- Decimal(i) :: IsDigit(c);
    var tag: cstring := ['I', 'T', 'E', 'M'] + Decimal(group) + ['-'] + Decimal(i);
    assert forall c <- tag :: c in ['I', 'T', 'E', 'M', '-'] || IsDigit(c);
  }

  // ----- generated tags -----

  /** The place of a field can be read off its generated tag. */
  lemma TagPlace(f: Field, group: nat, i: nat)
    requires f.tag.None?
    ensures
      var tag := TagText(f, group, i);
      && |tag| > 4 && tag[..4] == ['I', 'T', 'E', 'M']
      && Atoi(tag[4..]) == group
      && Find(tag[4..], '-') < |tag[4..]|
      && Atoi(tag[4..][Find(tag[4..], '-') + 1..]) == i
  {
    var tag, numbers := TagText(f, group, i), Decimal(group) + ['-'] + Decimal(i);
    assert tag[..4] == ['I', 'T', 'E', 'M'] && tag[4..] == numbers;
    AtoiDecimal(group, ['-'] + Decimal(i));
    Regroup3(Decimal(group), ['-'], Decimal(i));
    assert forall c <- Decimal(group) :: IsDigit(c);
    FindFirst(Decimal(group), '-', Decimal(i));
    AtoiDecimal(i, []);
    assert numbers[|Decimal(group)| + 1..] == Decimal(i) + [];
  }

  /** Two generated tags are the same exactly for the same place of the same group. */
  lemma TagsDiffer(f: Field, group: nat, i: nat, g: Field, group': nat, i': nat)
    requires f.tag.None? && g.tag.None?
    ensures TagText(f, group, i) == TagText(g, group', i') <==> group == group' && i == i'
  {
    TagPlace(f, group, i);
    TagPlace(g, group', i');
  }

  /** No two lines of a printed group are read with the same generated tag. */
  lemma LineTagsDiffer(fields: seq<Field>, group: nat, i: nat, j: nat)
    requires i < j < |fields| && HasHeader(fields[i]) && HasHeader(fields[j])
    requires fields[i].tag.None? && fields[j].tag.None?
    ensures
      var (x, y) := (ComponentsOf(KeyText(fields[i], group, i)).tag, ComponentsOf(KeyText(fields[j], group, j)).tag);
      x.Some? && y.Some? && x != y
  {
    KeyRecovered(fields[i], group, i);
    KeyRecovered(fields[j], group, j);
    TagsDiffer(fields[i], group, i, fields[j], group, j);
  }

  // ----- the label -----

  /** The label that should be shown: all of a name that could not be printed as it is,
      else what stands before the first `#`, decoded if it came in escaped. */
  function ExpectedLabel(f: Field): string {
    if f.labelIsEscaped then Compress(BeforeHash(f.name))
    else if NeedsEscape(f) then f.name
    else BeforeHash(f.name)
  }

  lemma EscapedLabel(f: Field)
    ensures
      var f' := Escaped(f);
      (if f'.labelIsEscaped then Compress(BeforeHash(f'.name)) else BeforeHash(f'.name)) == ExpectedLabel(f)
  {
    if NeedsEscape(f) {
      EscapedName(f.name);
      LabelEscape(f.name);
    }
  }

  lemma EscapedName(name: cstring)
    ensures
      var e := KeyLabelEscape(name);
      BeforeHash(e) == e && '$' !in e && '=' !in e && '#' !in e
  {
    var e := KeyLabelEscape(name);
    LabelEscape(name);
    assert LABEL_EXTRA == ['=', '$', '#'];
    FindAbsent(e, '#');
  }

  /** With a header, the label shown is the expected one. */
  lemma HeaderLabel(f: Field, group: nat, i: nat)
    requires HasHeader(f) && TagSafe(Escaped(f), TagText(f, group, i))
    ensures ComponentsOf(KeyText(f, group, i)).display == Some(ExpectedLabel(f))
  {
    KeyRecovered(f, group, i);
    EscapedLabel(f);
  }

  /** Without one, the `@` flag is lost.  The label is the expected one exactly for names
      that are not empty and were not escaped, or, if they came in escaped, hold nothing to
      be decoded. */
  lemma BareLabel(f: Field, group: nat, i: nat)
    requires !HasHeader(f) && (f.labelIsEscaped ==> !Flagged(f.name))
    ensures ComponentsOf(KeyText(f, group, i)).display == Some(ExpectedLabel(f))
       <==> f.name != [] && if f.labelIsEscaped then BACKSLASH !in BeforeHash(f.name)
                            else '=' !in f.name && '$' !in f.name
  {
    var f' := Escaped(f);
    var key := KeyText(f, group, i);
    assert key == f'.name;
    if NeedsEscape(f) {
      EscapedName(f.name);
    }
    if f.labelIsEscaped {
      CompressSame(BeforeHash(f.name));
    } else {
      assert '$' !in key;
      assert key != [] ==> key[0] in key;
    }
  }

  // ----- parsing and printing again -----

  /** A key read back by `info_unflatten` prints as itself, wherever its field then stands. */
  lemma Reprint(f: Field, group: nat, i: nat, group': nat, i': nat)
    requires HasHeader(f) && TagSafe(Escaped(f), TagText(f, group, i))
    ensures
      var key := KeyText(f, group, i);
      key != [] && KeyText(Unflatten(key, f.value), group', i') == key
  {
    var key := KeyText(f, group, i);
    var f', tag := Escaped(f), TagText(f, group, i);
    KeyRecovered(f, group, i);
    FlagsAgain(key);
    var g := Unflatten(key, f.value);
    assert g.tag == Some(tag) && g.name == f'.name && FlagText(g) == FlagText(f');
    assert !NeedsEscape(g);
  }

  /** Asking the flags part of a key gives the same answers as asking the key. */
  lemma FlagsAgain(key: cstring)
    requires key != [] && Flagged(key)
    ensures
      var flags := ComponentsOf(key).flags.value;
      flags != [] && ComponentsOf(flags).flags == Some(flags)
  {
    var flags := key[..Close(key) + 1];
    var l := Find(key[1..], '$');
    var body := key[1..][..l];
    assert flags[1..] == body + ['$'];
    FindSkips(body, ['$'], '$');
    assert Find(['$'], '$') == 0;
    assert flags[..Close(flags) + 1] == flags;
  }
}
