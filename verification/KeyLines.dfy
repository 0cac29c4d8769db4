/** What a key file gives back of the lines that `flatten_group` prints: the text is cut at
    line ends, every line at its first `=`, and blanks around that are dropped. */
module KeyLines {
  import opened CStrings
  import opened Seqs
  import opened KeyFields
  import opened KeyRoundTrip
  import KeyFileValue

  datatype Pair = Pair(key: cstring, value: cstring)

  function ReadPair(line: cstring): Option<Pair> {
    var e := Find(line, '=');
    if e == |line| then None else Some(Pair(TrimEnd(line[..e]), TrimFront(line[e + 1..])))
  }

  function Both(p: Option<Pair>, rest: Option<seq<Pair>>): Option<seq<Pair>> {
    if p.None? || rest.None? then None else Some([p.value] + rest.value)
  }

  /** The pairs of a text; None if a line holds no `=`. */
  function ReadLines(text: cstring): (r: Option<seq<Pair>>)
    decreases |text|
  {
    if text == [] then Some([])
    else
      var e := Find(text, '\n');
      Both(ReadPair(text[..e]), if e < |text| then ReadLines(text[e + 1..]) else Some([]))
  }

  function PairLine(key: cstring, value: cstring): cstring { key + ['='] + value + ['\n'] }

  /** A key, and a value, that a line can hold. */
  predicate PlainKey(key: cstring) {
    '=' !in key && '\n' !in key && (key == [] || !IsBlank(key[|key| - 1]))
  }

  predicate PlainValue(value: cstring) {
    '\n' !in value && (value == [] || !IsBlank(value[0]))
  }

  // ----- one line -----

  lemma TrimNothing(s: cstring)
    ensures TrimEnd(s) == s <==> s == [] || !IsBlank(s[|s| - 1])
    ensures TrimFront(s) == s <==> s == [] || !IsBlank(s[0])
    ensures |TrimEnd(s)| <= |s| && |TrimFront(s)| <= |s|
  {
  }

  /** Blanks are dropped, and nothing else: what is no blank stays. */
  lemma {:induction false} TrimFrontKeeps(a: cstring, c: byte, b: cstring)
    requires !IsBlank(c)
    ensures |TrimFront(a + [c] + b)| > |b|
  {
    var s := a + [c] + b;
    if a == [] {
      assert s[0] == c;
    } else if IsBlank(a[0]) {
      assert s[1..] == a[1..] + [c] + b;
      TrimFrontKeeps(a[1..], c, b);
    }
  }

  lemma CutAt(a: cstring, c: byte, b: cstring)
    requires c !in a
    ensures
      var s := a + [c] + b;
      Find(s, c) == |a| && s[..|a|] == a && s[|a| + 1..] == b
  {
    FindFirst(a, c, b);
  }

  lemma ReadOne(line: cstring)
    requires '\n' !in line
    ensures ReadLines(line + ['\n']) == if ReadPair(line).None? then None else Some([ReadPair(line).value])
  {
    CutAt(line, '\n', []);
    assert line + ['\n'] + [] == line + ['\n'];
    if ReadPair(line).Some? {
      assert [ReadPair(line).value] + [] == [ReadPair(line).value];
    }
  }

  lemma ReadCut(key: cstring, value: cstring)
    requires '=' !in key
    ensures ReadPair(key + ['='] + value) == Some(Pair(TrimEnd(key), TrimFront(value)))
  {
    CutAt(key, '=', value);
  }

  lemma SplitFirst(s: cstring, c: byte) returns (a: cstring, b: cstring)
    requires c in s
    ensures s == a + [c] + b && c !in a
  {
    var e := Find(s, c);
    a, b := s[..e], s[e + 1..];
  }

  /** Every line end but the last begins another line. */
  lemma MorePairs(text: cstring, i: nat)
    requires i + 1 < |text| && text[i] == '\n' && ReadLines(text).Some?
    ensures |ReadLines(text).value| >= 2
  {
    var e := Find(text, '\n');
    assert forall k | 0 <= k < e :: text[..e][k] == text[k];
    var rest := text[e + 1..];
    assert rest != [];
    assert ReadLines(rest).Some? && |ReadLines(rest).value| >= 1;
  }

  /** A line that gives back just one pair has no line end inside. */
  lemma OnePair(line: cstring)
    requires ReadLines(line + ['\n']).Some? && |ReadLines(line + ['\n']).value| == 1
    ensures '\n' !in line
  {
    forall i | 0 <= i < |line|
      ensures line[i] != '\n'
    {
      assert (line + ['\n'])[i] == line[i];
      if line[i] == '\n' {
        MorePairs(line + ['\n'], i);
      }
    }
  }

  /** If the one pair read from a line has the right value, then the `=` behind the key was
      the first of the line. */
  lemma FirstEquals(key: cstring, value: cstring)
    requires
      var p := ReadPair(key + ['='] + value);
      p.Some? && p.value.value == value
    ensures '=' !in key
  {
    if '=' in key {
      var a, b := SplitFirst(key, '=');
      EqualsInside(a, b, value);
      ReadCut(a, b + ['='] + value);
      TrimFrontKeeps(b, '=', value);
    }
  }

  lemma EqualsInside(a: cstring, b: cstring, value: cstring)
    ensures a + ['='] + b + ['='] + value == a + ['='] + (b + ['='] + value)
  {
  }

  /** What one pair is read from a line, if its value comes out right: only the key may have
      lost blanks at its end. */
  lemma PairRead(key: cstring, value: cstring, p: Pair)
    requires ReadLines(PairLine(key, value)) == Some([p]) && p.value == value
    ensures '=' !in key && '\n' !in key && PlainValue(value) && p.key == TrimEnd(key)
  {
    var line := key + ['='] + value;
    OnePair(line);
    ReadOne(line);
    assert Some([p]).value[0] == p;
    assert forall i | 0 <= i < |key| :: line[i] == key[i];
    assert forall i | 0 <= i < |value| :: line[|key| + 1 + i] == value[i];
    FirstEquals(key, value);
    ReadCut(key, value);
    TrimNothing(value);
  }

  lemma PlainReads(key: cstring, value: cstring)
    requires PlainKey(key) && PlainValue(value)
    ensures ReadLines(PairLine(key, value)) == Some([Pair(key, value)])
  {
    var line := key + ['='] + value;
    NoLineEnd(key, value);
    ReadOne(line);
    assert ReadPair(line) == Some(Pair(key, value)) by {
      ReadCut(key, value);
      TrimNothing(key);
      TrimNothing(value);
    }
  }

  lemma NoLineEnd(key: cstring, value: cstring)
    requires '\n' !in key && '\n' !in value
    ensures '\n' !in key + ['='] + value
  {
  }

  /** A printed pair is read back as it is exactly when key and value are plain. */
  lemma LineReads(key: cstring, value: cstring)
    ensures ReadLines(PairLine(key, value)) == Some([Pair(key, value)]) <==> PlainKey(key) && PlainValue(value)
  {
    if ReadLines(PairLine(key, value)) == Some([Pair(key, value)]) {
      PairRead(key, value, Pair(key, value));
      TrimNothing(key);
    }
    if PlainKey(key) && PlainValue(value) {
      PlainReads(key, value);
    }
  }

  // ----- many lines -----

  function Concat(a: Option<seq<Pair>>, b: Option<seq<Pair>>): Option<seq<Pair>> {
    if a.None? || b.None? then None else Some(a.value + b.value)
  }

  lemma {:induction false} ReadAppend(a: cstring, b: cstring)
    requires a == [] || a[|a| - 1] == '\n'
    ensures ReadLines(a + b) == Concat(ReadLines(a), ReadLines(b))
    decreases |a|
  {
    if a == [] {
      assert a + b == b;
      assert ReadLines(b).Some? ==> [] + ReadLines(b).value == ReadLines(b).value;
    } else {
      var e := Find(a, '\n');
      assert a[|a| - 1] in a;
      assert e < |a|;
      var line, rest := a[..e], a[e + 1..];
      assert a == line + ['\n'] + rest;
      CutAt(line, '\n', rest + b);
      Regroup3(line + ['\n'], rest, b);
      ReadAppend(rest, b);
      BothConcat(ReadPair(line), ReadLines(rest), ReadLines(b));
    }
  }

  lemma BothConcat(p: Option<Pair>, a: Option<seq<Pair>>, b: Option<seq<Pair>>)
    ensures Both(p, Concat(a, b)) == Concat(Both(p, a), b)
  {
    if p.Some? && a.Some? && b.Some? {
      Regroup3([p.value], a.value, b.value);
    }
  }

  function PairLines(pairs: seq<Pair>): cstring {
    if pairs == [] then []
    else
      var p := pairs[|pairs| - 1];
      PairLines(pairs[..|pairs| - 1]) + PairLine(p.key, p.value)
  }

  predicate PlainPair(p: Pair) { PlainKey(p.key) && PlainValue(p.value) }

  /** Printed pairs are read back, in order and nothing else, exactly when every one is. */
  lemma {:induction false} PairsRead(pairs: seq<Pair>)
    ensures ReadLines(PairLines(pairs)) == Some(pairs) <==> All(PlainPair, pairs)
    ensures ReadLines(PairLines(pairs)).Some? ==> |ReadLines(PairLines(pairs)).value| >= |pairs|
  {
    if pairs != [] {
      var front, p := pairs[..|pairs| - 1], pairs[|pairs| - 1];
      PairsRead(front);
      LinesEnd(front);
      LastLine(PairLines(front), front, p);
      LastPair(pairs, front, p);
      AllSnoc(PlainPair, pairs);
    }
  }

  lemma LastPair(pairs: seq<Pair>, front: seq<Pair>, p: Pair)
    requires pairs != [] && front == pairs[..|pairs| - 1] && p == pairs[|pairs| - 1]
    ensures pairs == front + [p] && PairLines(pairs) == PairLines(front) + PairLine(p.key, p.value)
  {
  }

  lemma LinesEnd(pairs: seq<Pair>)
    ensures var text := PairLines(pairs); text == [] || text[|text| - 1] == '\n'
  {
  }

  lemma LastLine(before: cstring, pairs: seq<Pair>, p: Pair)
    requires before == [] || before[|before| - 1] == '\n'
    requires ReadLines(before).Some? ==> |ReadLines(before).value| >= |pairs|
    ensures
      var r := ReadLines(before + PairLine(p.key, p.value));
      && (r == Some(pairs + [p]) <==> ReadLines(before) == Some(pairs) && PlainPair(p))
      && (r.Some? ==> |r.value| >= |pairs| + 1)
  {
    var line := PairLine(p.key, p.value);
    ReadAppend(before, line);
    LineReads(p.key, p.value);
    assert line != [];
    LastOfTwo(ReadLines(before), ReadLines(line), pairs, p);
  }

  lemma LastOfTwo(a: Option<seq<Pair>>, b: Option<seq<Pair>>, pairs: seq<Pair>, p: Pair)
    requires a.Some? ==> |a.value| >= |pairs|
    requires b.Some? ==> |b.value| >= 1
    ensures Concat(a, b) == Some(pairs + [p]) <==> a == Some(pairs) && b == Some([p])
  {
    if Concat(a, b) == Some(pairs + [p]) {
      assert |a.value| + |b.value| == |pairs| + 1;
      assert (a.value + b.value)[..|pairs|] == (pairs + [p])[..|pairs|];
      assert (a.value + b.value)[|pairs|..] == (pairs + [p])[|pairs|..];
    }
  }

  // ----- the lines of a group -----

  function PairOf(f: Field, group: nat, i: nat): Pair { Pair(KeyText(f, group, i), ValueText(f)) }

  function Pairs(fields: seq<Field>, group: nat, n: nat): (r: seq<Pair>)
    requires n <= |fields|
    ensures |r| == n && forall i | 0 <= i < n :: r[i] == PairOf(fields[i], group, i)
  {
    if n == 0 then [] else Pairs(fields, group, n - 1) + [PairOf(fields[n - 1], group, n - 1)]
  }

  lemma {:induction false} LinesOfPairs(fields: seq<Field>, group: nat, n: nat)
    requires n <= |fields|
    ensures Lines(fields, group, n) == PairLines(Pairs(fields, group, n))
  {
    if n > 0 {
      var pairs := Pairs(fields, group, n);
      LinesOfPairs(fields, group, n - 1);
      assert pairs[..n - 1] == Pairs(fields, group, n - 1);
      assert pairs[n - 1] == PairOf(fields[n - 1], group, n - 1);
    }
  }

  /** The lines of a group give back all its keys and values, in order and nothing else,
      exactly when every single line does. */
  lemma LinesRead(fields: seq<Field>, group: nat)
    ensures ReadLines(Lines(fields, group, |fields|)) == Some(Pairs(fields, group, |fields|))
       <==> All(PlainPair, Pairs(fields, group, |fields|))
  {
    LinesOfPairs(fields, group, |fields|);
    PairsRead(Pairs(fields, group, |fields|));
  }

  // ----- what is plain of a field -----

  /** The value is plain exactly if, printed as it is because of a `|`, it has no line end
      and starts with no blank, or, escaped, starts with no form feed, the only blank that
      is not escaped in front. */
  predicate ValueFits(value: cstring) {
    if '|' in value then PlainValue(value) else value == [] || value[0] != '\U{C}'
  }

  lemma ValuePlain(f: Field)
    ensures PlainValue(ValueText(f)) <==> ValueFits(f.value)
  {
    if '|' !in f.value {
      KeyFileValue.OneLine(f.value, '|', true);
      if f.value != [] {
        assert ValueText(f)[0] == KeyFileValue.EscapeByte(f.value[0], '|', true).0[0];
      }
    }
  }

  lemma {:induction false} TrailingAppend(a: cstring, b: cstring)
    requires a == [] || !IsBlank(a[|a| - 1])
    ensures TrimEnd(a + b) == a + TrimEnd(b)
  {
    if b == [] {
      assert a + b == a;
    } else if IsBlank(b[|b| - 1]) {
      assert (a + b)[..|a + b| - 1] == a + b[..|b| - 1];
      TrailingAppend(a, b[..|b| - 1]);
      assert TrimEnd(b) == TrimEnd(b[..|b| - 1]);
      assert TrimEnd(a + b) == TrimEnd(a + b[..|b| - 1]);
    }
  }

  lemma HeaderMembers(f: Field, tag: cstring, c: char)
    requires c == '=' || c == '\n'
    ensures c in Header(f, tag) + f.name <==> c in tag || c in f.name
  {
    FlagTextIs(f);
    var flags := FlagText(f);
    assert c !in flags by {
      assert forall i | 0 <= i < |flags| :: flags[i] != c;
    }
    Among(['$'], flags, tag, c);
    Among(['$'] + (flags + tag), ['$'], f.name, c);
  }

  lemma Among(a: cstring, b: cstring, s: cstring, c: char)
    ensures c in a + (b + s) <==> c in a || c in b || c in s
    ensures c in a + b + s <==> c in a || c in b || c in s
  {
    Regroup3(a, b, s);
    assert c in a + b <==> c in a || c in b;
  }

  // ----- reading a printed field back -----

  /** From the line of a key and value exactly one pair is read, with the value as it was
      printed and everything of the field in the key. */
  ghost predicate ReadBack(f: Field, tag: cstring, key: cstring, value: cstring) {
    var r := ReadLines(PairLine(key, value));
    && r.Some? && |r.value| == 1
    && r.value[0].value == value && Recovered(f, tag, r.value[0].key)
  }

  /** The tag can stand in a header, and header and printed name in a key. */
  predicate KeySafe(f: Field, tag: cstring) {
    TagSafe(f, tag) && '=' !in tag && '\n' !in tag && PlainKey(f.name)
  }

  /** The line of a field with a header is read back exactly when key and value are safe. */
  lemma LineRecovered(f: Field, group: nat, i: nat)
    requires HasHeader(f)
    ensures Line(f, group, i) == PairLine(KeyText(f, group, i), ValueText(f))
    ensures ReadBack(Escaped(f), TagText(f, group, i), KeyText(f, group, i), ValueText(f))
       <==> KeySafe(Escaped(f), TagText(f, group, i)) && ValueFits(f.value)
  {
    HeaderReadBack(Escaped(f), TagText(f, group, i), ValueText(f));
    ValuePlain(f);
  }

  lemma HeaderReadBack(f: Field, tag: cstring, value: cstring)
    ensures ReadBack(f, tag, Header(f, tag) + f.name, value) <==> KeySafe(f, tag) && PlainValue(value)
  {
    var key := Header(f, tag) + f.name;
    if ReadBack(f, tag, key, value) {
      ReadBackPair(f, tag, key, value);
      HeaderSafe(f, tag);
    }
    if KeySafe(f, tag) && PlainValue(value) {
      HeaderKey(f, tag);
      HeaderRecovered(f, tag);
      PlainReadBack(f, tag, key, value);
    }
  }

  lemma ReadBackPair(f: Field, tag: cstring, key: cstring, value: cstring)
    requires ReadBack(f, tag, key, value)
    ensures '=' !in key && '\n' !in key && PlainValue(value) && Recovered(f, tag, TrimEnd(key))
  {
    var r := ReadLines(PairLine(key, value)).value;
    assert r == [r[0]];
    PairRead(key, value, r[0]);
  }

  lemma PlainReadBack(f: Field, tag: cstring, key: cstring, value: cstring)
    requires PlainKey(key) && PlainValue(value) && Recovered(f, tag, key)
    ensures ReadBack(f, tag, key, value)
  {
    PlainReads(key, value);
  }

  lemma HeaderSafe(f: Field, tag: cstring)
    requires
      var key := Header(f, tag) + f.name;
      '=' !in key && '\n' !in key && Recovered(f, tag, TrimEnd(key))
    ensures KeySafe(f, tag)
  {
    TrimmedName(f, tag);
    HeaderMembers(f, tag, '=');
    HeaderMembers(f, tag, '\n');
  }

  lemma HeaderKey(f: Field, tag: cstring)
    requires PlainKey(f.name) && '=' !in tag && '\n' !in tag
    ensures PlainKey(Header(f, tag) + f.name)
  {
    HeaderMembers(f, tag, '=');
    HeaderMembers(f, tag, '\n');
  }

  /** Blanks at the end of a name are lost. */
  lemma TrimmedName(f: Field, tag: cstring)
    requires Recovered(f, tag, TrimEnd(Header(f, tag) + f.name))
    ensures TrimEnd(f.name) == f.name && TagSafe(f, tag)
    ensures f.name == [] || !IsBlank(f.name[|f.name| - 1])
  {
    var g := f.(name := TrimEnd(f.name));
    TrailingAppend(Header(f, tag), f.name);
    assert Header(g, tag) == Header(f, tag);
    HeaderComponents(g, tag);
    KeptTag(tag);
    HeaderRecovered(g, tag);
    TrimNothing(f.name);
  }

  // ----- reading and printing again -----

  predicate IsSpecial(c: char) { c == '\n' || c == '\r' || c == '\\' || c == '|' }

  /** A text that escaping leaves as it is. */
  predicate NothingToEscape(s: cstring, leading: bool) {
    && (forall i | 0 <= i < |s| :: !IsSpecial(s[i]))
    && (leading && s != [] ==> s[0] != ' ' && s[0] != '\t')
  }

  lemma {:induction false} EscapeSame(s: cstring, leading: bool)
    ensures
      var r := KeyFileValue.EscapeFrom(s, '|', leading);
      if NothingToEscape(s, leading) then r == s else |r| > |s| && '\\' in r
  {
    if s != [] {
      EscapedByte(s[0], leading);
      var (e, leading') := KeyFileValue.EscapeByte(s[0], '|', leading);
      var rest := KeyFileValue.EscapeFrom(s[1..], '|', leading');
      EscapeSame(s[1..], leading');
      if |e| == 2 {
        assert (e + rest)[0] == '\\';
      } else {
        assert s == [s[0]] + s[1..];
        NothingInTail(s, leading);
        assert forall c <- rest :: c in [s[0]] + rest;
      }
    }
  }

  lemma EscapedByte(c: byte, leading: bool)
    ensures
      var (e, leading') := KeyFileValue.EscapeByte(c, '|', leading);
      if IsSpecial(c) || (leading && (c == ' ' || c == '\t')) then |e| == 2 && e[0] == '\\'
      else e == [c] && !leading'
  {
  }

  lemma NothingInTail(s: cstring, leading: bool)
    requires s != [] && !IsSpecial(s[0]) && !(leading && (s[0] == ' ' || s[0] == '\t'))
    ensures NothingToEscape(s, leading) <==> NothingToEscape(s[1..], false)
  {
    assert forall i | 0 < i < |s| :: s[i] == s[1..][i - 1];
  }

  lemma {:induction false} EscapeNoBar(s: cstring, leading: bool)
    requires '|' !in s
    ensures '|' !in KeyFileValue.EscapeFrom(s, '|', leading)
  {
    if s != [] {
      var (e, leading') := KeyFileValue.EscapeByte(s[0], '|', leading);
      EscapeNoBar(s[1..], leading');
      assert s[0] in s;
      assert forall i | 0 <= i < |e| :: e[i] != '|';
    }
  }

  /** The field read from a line prints again as the same line, wherever it then stands,
      exactly if the value has columns or had nothing to be escaped: values are read
      as they were printed, and escaped once more. */
  lemma LineReprint(f: Field, group: nat, i: nat, group': nat, i': nat)
    requires HasHeader(f) && TagSafe(Escaped(f), TagText(f, group, i))
    ensures KeyText(f, group, i) != []
    ensures Line(Unflatten(KeyText(f, group, i), ValueText(f)), group', i') == Line(f, group, i)
       <==> '|' in f.value || NothingToEscape(f.value, true)
  {
    var key, value := KeyText(f, group, i), ValueText(f);
    var g := f.(value := value);
    assert KeyText(g, group, i) == key;
    Reprint(g, group, i, group', i');
    var again := ValueText(Unflatten(key, value));
    EscapeSame(f.value, true);
    EscapeSame(value, true);
    if '|' !in f.value {
      EscapeNoBar(f.value, true);
    }
    SamePair(key, again, value);
  }

  lemma SamePair(key: cstring, a: cstring, b: cstring)
    ensures PairLine(key, a) == PairLine(key, b) <==> a == b
  {
    if PairLine(key, a) == PairLine(key, b) {
      SameSuffix(key + ['='] + a, key + ['='] + b, ['\n']);
      SamePrefix(key + ['='], a, b);
    }
  }
}
