/** What the matches of `vendors_match_core` take from a string. */
module VendorLaws {
  import opened CStrings
  import opened Seqs
  import opened LimitedSearch
  import opened StableOrder
  import opened VendorMatch

  // ----- the text of a stripped buffer -----

  lemma LenIs(b: seq<octet>, n: nat)
    requires IsBuffer(b) && n < |b| && b[n] == NUL && forall i | 0 <= i < n :: b[i] != NUL
    ensures Len(b) == n
  {
  }

  lemma ChompText(b: seq<octet>)
    requires IsBuffer(b)
    ensures Text(Chomp(b)) == TrimEnd(Text(b))
  {
    var n := Len(b);
    LenIs(Chomp(b), n - TrailingBlanks(Text(b)));
  }

  lemma ChugText(b: seq<octet>)
    requires IsBuffer(b)
    ensures Text(Chug(b)) == TrimFront(Text(b))
  {
    var n, skip := Len(b), LeadingBlanks(Text(b));
    assert Chug(b)[n - skip] == b[n];
    assert forall i | 0 <= i < n - skip :: Chug(b)[i] == b[skip + i];
    LenIs(Chug(b), n - skip);
  }

  function Spaces(count: nat): (s: cstring)
    ensures |s| == count
  {
    seq(count, _ => ' ')
  }

  /** A text with a range overwritten by spaces, but for the blanks around it. */
  lemma BlankedText(b: seq<octet>, from: nat, count: nat)
    requires IsBuffer(b) && from + count <= Len(b)
    ensures
      var t := Text(b);
      Text(Blanked(b, from, count)) == TrimFront(TrimEnd(t[..from] + Spaces(count) + t[from + count..]))
  {
    var t, over := Text(b), b[..from] + seq(count, _ => ' ') + b[from + count..];
    OverText(b, from, count);
    ChompText(over);
    ChugText(Chomp(over));
  }

  lemma OverText(b: seq<octet>, from: nat, count: nat)
    requires IsBuffer(b) && from + count <= Len(b)
    ensures
      var over := b[..from] + seq(count, _ => ' ') + b[from + count..];
      IsBuffer(over) && Text(over) == Text(b)[..from] + Spaces(count) + Text(b)[from + count..]
  {
    var over := b[..from] + seq(count, _ => ' ') + b[from + count..];
    LenIs(over, Len(b));
  }

  // ----- what is not blank -----

  /** The bytes of a text that are not blank, in their order. */
  function NonBlank(s: cstring): cstring {
    if s == [] then [] else (if IsBlank(s[0]) then [] else [s[0]]) + NonBlank(s[1..])
  }

  lemma {:induction false} NonBlankAppend(s: cstring, t: cstring)
    ensures NonBlank(s + t) == NonBlank(s) + NonBlank(t)
  {
    if s == [] {
      assert s + t == t;
    } else {
      assert (s + t)[1..] == s[1..] + t;
      NonBlankAppend(s[1..], t);
    }
  }

  lemma {:induction false} AllBlank(s: cstring)
    requires forall c <- s :: IsBlank(c)
    ensures NonBlank(s) == []
  {
    if s != [] {
      AllBlank(s[1..]);
    }
  }

  lemma {:induction false} BlanksBehind(s: cstring)
    ensures forall c <- s[|s| - TrailingBlanks(s)..] :: IsBlank(c)
  {
    if s != [] && IsBlank(s[|s| - 1]) {
      var front, n := s[..|s| - 1], |s| - TrailingBlanks(s);
      BlanksBehind(front);
      assert s[n..] == front[n..] + [s[|s| - 1]];
    }
  }

  lemma {:induction false} BlanksInFront(s: cstring)
    ensures forall c <- s[..LeadingBlanks(s)] :: IsBlank(c)
  {
    if s != [] && IsBlank(s[0]) {
      BlanksInFront(s[1..]);
      assert s[..LeadingBlanks(s)] == [s[0]] + s[1..][..LeadingBlanks(s[1..])];
    }
  }

  lemma NonBlankTrim(s: cstring)
    ensures NonBlank(TrimEnd(s)) == NonBlank(s) == NonBlank(TrimFront(s))
  {
    var n, k := |s| - TrailingBlanks(s), LeadingBlanks(s);
    BlanksBehind(s);
    BlanksAround(s[..n], s[n..]);
    Halves(s, n);
    BlanksInFront(s);
    BlanksAround(s[k..], s[..k]);
    Halves(s, k);
  }

  lemma BlanksAround(s: cstring, blanks: cstring)
    requires forall c <- blanks :: IsBlank(c)
    ensures NonBlank(s + blanks) == NonBlank(s) == NonBlank(blanks + s)
  {
    AllBlank(blanks);
    NonBlankAppend(s, blanks);
    NonBlankAppend(blanks, s);
  }

  /** A match takes from a buffer exactly the bytes it matched. */
  lemma BlankedKeeps(b: seq<octet>, from: nat, count: nat)
    requires IsBuffer(b) && from + count <= Len(b)
    ensures
      var t := Text(b);
      NonBlank(Text(Blanked(b, from, count))) == NonBlank(t[..from]) + NonBlank(t[from + count..])
  {
    var t := Text(b);
    var over := t[..from] + Spaces(count) + t[from + count..];
    BlankedText(b, from, count);
    NonBlankTrim(TrimEnd(over));
    NonBlankTrim(over);
    NonBlankAppend(t[..from] + Spaces(count), t[from + count..]);
    NonBlankAppend(t[..from], Spaces(count));
    AllBlank(Spaces(count));
    assert NonBlank(t[..from]) + [] == NonBlank(t[..from]);
  }

  lemma BlankedCount(b: seq<octet>, from: nat, count: nat)
    requires IsBuffer(b) && from + count <= Len(b)
    ensures
      var t := Text(b);
      |NonBlank(t)| == |NonBlank(Text(Blanked(b, from, count)))| + |NonBlank(t[from..from + count])|
  {
    BlankedKeeps(b, from, count);
    NonBlankParts(Text(b), from, count);
  }

  lemma NonBlankParts(t: cstring, from: nat, count: nat)
    requires from + count <= |t|
    ensures |NonBlank(t)| == |NonBlank(t[..from])| + |NonBlank(t[from..from + count])| + |NonBlank(t[from + count..])|
  {
    NonBlankAppend(t[..from], t[from..from + count]);
    NonBlankAppend(t[..from + count], t[from + count..]);
    assert t[..from] + t[from..from + count] == t[..from + count];
    assert t[..from + count] + t[from + count..] == t;
  }

  /** Nothing but blanks is left of a text that was matched as a whole. */
  lemma WholeBlanked(b: seq<octet>)
    requires IsBuffer(b)
    ensures Len(Blanked(b, 0, Len(b))) == 0
  {
    var t, n := Text(b), Len(b);
    BlankedText(b, 0, n);
    assert t[..0] + Spaces(n) + t[n..] == Spaces(n);
    SpacesTrimmed(n);
  }

  lemma {:induction false} SpacesTrimmed(n: nat)
    ensures TrimEnd(Spaces(n)) == [] && TrimFront([]) == []
  {
    SpacesTrailing(n);
  }

  lemma {:induction false} SpacesTrailing(n: nat)
    ensures TrailingBlanks(Spaces(n)) == n
  {
    if n > 0 {
      assert Spaces(n)[..n - 1] == Spaces(n - 1);
      SpacesTrailing(n - 1);
    }
  }

  // ----- rules -----

  /** When a rule matches, and where: the searches by name, and for the two number rules, which
      use each other's, a digit behind the match. */
  lemma RuleMatches(find: Finder, v: Vendor, text: cstring, p: nat)
    ensures
      var (n, ms) := (|MatchString(v)|, MatchString(v));
      MatchAt(find, v, text) == Some(p) <==>
        match v.rule
        case Exact => p == 0 && text == ms
        case WordIgnoreCase => find(Word, text, ms) == Some(p) && p + n <= |text|
        case WordMatchCase => find(WordCase, text, ms) == Some(p) && p + n <= |text|
        case PrefixIgnoreCase => find(Prefix, text, ms) == Some(p) && p + n <= |text|
        case PrefixMatchCase => find(PrefixCase, text, ms) == Some(p) && p + n <= |text|
        case SuffixIgnoreCase => find(Suffix, text, ms) == Some(p) && p + n <= |text|
        case SuffixMatchCase => find(SuffixCase, text, ms) == Some(p) && p + n <= |text|
        case NumPrefixIgnoreCase => find(PrefixCase, text, ms) == Some(p) && p + n < |text| && '0' <= text[p + n] <= '9'
        case NumPrefixMatchCase => find(Prefix, text, ms) == Some(p) && p + n < |text| && '0' <= text[p + n] <= '9'
  {
  }

  /** The order of the list, in lengths of match strings: a number rule counts one more. */
  lemma WeightIs(v: Vendor)
    ensures Weight(v) == |MatchString(v)| + (if v.rule in [NumPrefixIgnoreCase, NumPrefixMatchCase] then 1 else 0)
  {
  }

  // ----- passes -----

  /** Every pass goes through the whole list, the highest pass first. */
  lemma {:induction false} LookOrder(vendors: seq<Option<Vendor>>, passes: nat, j: nat, i: nat)
    requires j < passes && i < |vendors|
    ensures |Items(vendors, passes)| == passes * |vendors|
    ensures 0 <= j * |vendors| + i < |Items(vendors, passes)|
    ensures Items(vendors, passes)[j * |vendors| + i] == Item(passes - j, vendors[i])
  {
    var n := |vendors|;
    ItemsCount(vendors, passes);
    if j == 0 {
      assert Items(vendors, passes)[i] == PassItems(vendors, passes)[i];
    } else {
      LookOrder(vendors, passes - 1, j - 1, i);
      assert j * n == n + (j - 1) * n;
      assert Items(vendors, passes)[j * n + i] == Items(vendors, passes - 1)[(j - 1) * n + i];
    }
  }

  lemma {:induction false} ItemsCount(vendors: seq<Option<Vendor>>, passes: nat)
    ensures |Items(vendors, passes)| == passes * |vendors|
  {
    if passes > 0 {
      ItemsCount(vendors, passes - 1);
      assert passes * |vendors| == |vendors| + (passes - 1) * |vendors|;
    }
  }

  /** A rule is looked for in the text of the pass; one with a `(` only in pass 3. */
  lemma WhenTried(find: Finder, b: Passes, v: Vendor, pass: nat)
    requires 1 <= pass <= 3
    ensures Hit(find, b, Item(pass, Some(v))) ==
      if v.matchString.None? || ('(' in v.matchString.value && pass < 3) then None
      else MatchAt(find, v, Text(b.Of(pass)))
  {
  }

  /** The buffers that a match in a pass is blanked in: its own and those of the passes to come. */
  lemma BlankedBuffers(b: Passes, pass: nat, from: nat, count: nat, q: nat)
    requires 1 <= pass <= 3 && 1 <= q <= 3 && from + count < |b.p0|
    ensures BlankAll(b, pass, from, count).Of(q) == if q <= pass then Blanked(b.Of(q), from, count) else b.Of(q)
  {
  }

  predicate OpenedAt(s: cstring, j: nat, i: nat) {
    j < i <= |s| && s[j] == '(' && forall l | j < l < i :: s[l] != ')'
  }

  /** A byte stands in parentheses if some `(` before it has no `)` behind it so far. */
  ghost predicate InParens(s: cstring, k: nat)
    requires k < |s|
  {
    s[k] != ')' && Open(s, k)
  }

  ghost predicate Open(s: cstring, i: nat) { exists j: nat :: OpenedAt(s, j, i) }

  /** What the second of three passes sees: spaces in place of what stands in parentheses,
      closed or not. */
  lemma ParensBlanked(s: cstring, k: nat)
    requires k < |s|
    ensures BlankParens(s, 0, false)[k] == if InParens(s, k) then ' ' else s[k]
  {
    BlankFrom(s, s, 0, false, k);
  }

  lemma {:induction false} BlankFrom(s: cstring, t: cstring, i: nat, inside: bool, k: nat)
    requires i <= |s| == |t| && k < |s|
    requires forall j | 0 <= j < |s| :: t[j] == if j < i && InParens(s, j) then ' ' else s[j]
    requires inside <==> Open(s, i)
    ensures BlankParens(t, i, inside)[k] == if InParens(s, k) then ' ' else s[k]
    decreases |s| - i
  {
    if i < |s| {
      OpenNext(s, i);
      BlankFrom(s, if inside && s[i] != ')' then t[i := ' '] else t, i + 1,
                if inside then s[i] != ')' else s[i] == '(', k);
    }
  }

  lemma OpenNext(s: cstring, i: nat)
    requires i < |s|
    ensures Open(s, i + 1) <==> if Open(s, i) then s[i] != ')' else s[i] == '('
  {
    if j: nat :| OpenedAt(s, j, i) {
      assert s[i] != ')' ==> OpenedAt(s, j, i + 1);
    }
    if s[i] == '(' {
      assert OpenedAt(s, i, i + 1);
    }
    var next := i + 1;
    if j: nat :| OpenedAt(s, j, next) {
      assert j < i ==> OpenedAt(s, j, i);
    }
  }

  // ----- what the matches take together -----

  function Lower(c: char): char { if 'A' <= c <= 'Z' then (c as int + 32) as char else c }

  /** What is found is the match string, up to the case of letters. */
  predicate OccursAt(text: cstring, p: nat, ms: cstring) {
    p + |ms| <= |text| && forall k | 0 <= k < |ms| :: Lower(text[p + k]) == Lower(ms[k])
  }

  ghost predicate FindsOccurrences(find: Finder) {
    forall search, text, ms ::
      var m := find(search, text, ms);
      m.Some? && m.value + |ms| <= |text| ==> OccursAt(text, m.value, ms)
  }

  /** The bytes, blanks aside, of the match strings found. */
  function Taken(found: seq<Vendor>): nat {
    if found == [] then 0 else Taken(found[..|found| - 1]) + |NonBlank(MatchString(found[|found| - 1]))|
  }

  lemma {:induction false} SameCount(s: cstring, t: cstring)
    requires |s| == |t| && forall k | 0 <= k < |s| :: Lower(s[k]) == Lower(t[k])
    ensures |NonBlank(s)| == |NonBlank(t)|
  {
    if s != [] {
      SameCount(s[1..], t[1..]);
      assert Lower(s[0]) == Lower(t[0]);
    }
  }

  lemma MatchTakes(find: Finder, v: Vendor, text: cstring, p: nat, ms: cstring)
    requires FindsOccurrences(find) && MatchAt(find, v, text) == Some(p) && ms == MatchString(v)
    ensures p + |ms| <= |text| && |NonBlank(text[p..p + |ms|])| == |NonBlank(ms)|
  {
    if v.rule.Exact? {
      assert text[0..|ms|] == ms;
    } else {
      assert OccursAt(text, p, ms);
      SameCount(text[p..p + |ms|], ms);
    }
  }

  /** One look in the only pass, in terms of the one buffer that matters then. */
  lemma OneLook(find: Finder, b: Passes, v: Vendor)
    ensures
      var (m, r) := (MatchAt(find, v, Text(b.p0)), Examine(find)(b, Item(1, Some(v))));
      if v.matchString.None? || HasParens(v) || m.None? then r == Nothing
      else
        m.value + |MatchString(v)| <= Len(b.p0)
        && if v.rule.Exact? then r == Last(v)
           else
             var left := Blanked(b.p0, m.value, |MatchString(v)|);
             if Len(left) == 0 then r == Last(v) else r.More? && r.v == v && r.next.p0 == left
  {
  }

  /** Each hit takes its match string from what is left. */
  lemma HitTakes(find: Finder, b: Passes, v: Vendor)
    requires FindsOccurrences(find)
    ensures
      var left := |NonBlank(Text(b.p0))|;
      match Examine(find)(b, Item(1, Some(v)))
      case Nothing => true
      case Last(w) => w == v && |NonBlank(MatchString(v))| <= left
      case More(w, b') => w == v && |NonBlank(MatchString(v))| + |NonBlank(Text(b'.p0))| == left
  {
    OneLook(find, b, v);
    var m := MatchAt(find, v, Text(b.p0));
    if m.Some? {
      MatchWeighs(find, b.p0, v, m.value, MatchString(v));
    }
  }

  lemma MatchWeighs(find: Finder, b: seq<octet>, v: Vendor, from: nat, ms: cstring)
    requires IsBuffer(b) && FindsOccurrences(find)
    requires MatchAt(find, v, Text(b)) == Some(from) && ms == MatchString(v)
    ensures |NonBlank(Text(b))| == |NonBlank(Text(Blanked(b, from, |ms|)))| + |NonBlank(ms)|
  {
    MatchTakes(find, v, Text(b), from, ms);
    TakesMatch(b, from, |ms|, |NonBlank(ms)|);
  }

  lemma TakesMatch(b: seq<octet>, from: nat, count: nat, taken: nat)
    requires IsBuffer(b) && from + count <= Len(b)
    requires |NonBlank(Text(b)[from..from + count])| == taken
    ensures |NonBlank(Text(b))| == |NonBlank(Text(Blanked(b, from, count)))| + taken
  {
    BlankedCount(b, from, count);
  }

  lemma TakenMore(found: seq<Vendor>, v: Vendor)
    ensures Taken(found + [v]) == Taken(found) + |NonBlank(MatchString(v))|
  {
    assert (found + [v])[..|found|] == found;
  }

  lemma {:induction false} CollectTakes(find: Finder, items: seq<Item>, b: Passes, found: seq<Vendor>, limit: int)
    requires FindsOccurrences(find) && forall item <- items :: item.pass == 1
    ensures Taken(Collect(Examine(find), items, b, found, limit)) <= Taken(found) + |NonBlank(Text(b.p0))|
  {
    if items != [] {
      if items[0].vendor.Some? {
        HitTakes(find, b, items[0].vendor.value);
      }
      match Examine(find)(b, items[0])
      case Nothing => CollectTakes(find, items[1..], b, found, limit);
      case Last(v) => TakenMore(found, v);
      case More(v, b') =>
        TakenMore(found, v);
        CollectTakes(find, items[1..], b', found + [v], limit);
    }
  }

  /** No byte of a string without `(` is matched twice: the match strings found have together
      no more bytes, blanks aside, than the string. */
  lemma FoundFits(find: Finder, vendors: seq<Option<Vendor>>, s: cstring, limit: int)
    requires FindsOccurrences(find) && '(' !in s
    ensures Taken(Core(find, vendors, s, limit)) <= |NonBlank(s)|
  {
    OnePass(vendors);
    StartText(s);
    CollectTakes(find, Items(vendors, 1), Start(s), [], limit);
  }

  lemma OnePass(vendors: seq<Option<Vendor>>)
    ensures Items(vendors, 1) == PassItems(vendors, 1)
    ensures forall item <- Items(vendors, 1) :: item.pass == 1
  {
    assert Items(vendors, 0) == [];
    assert PassItems(vendors, 1) + [] == PassItems(vendors, 1);
  }

  /** A rule that matches the whole of a string without `(` ends the search: with it as the
      first match, it is the only one, whatever the limit. */
  lemma WholeMatchEnds(find: Finder, list: seq<Vendor>, s: cstring, n: nat, limit: int)
    requires '(' !in s && n < |list|
    requires forall i | 0 <= i < n :: !Matches(find, list[i], s)
    requires Matches(find, list[n], s) && |MatchString(list[n])| == |s|
    ensures Core(find, Entries(list), s, limit) == [list[n]]
  {
    var items := Items(Entries(list), 1);
    forall i | 0 <= i < |list|
      ensures items[i] == Item(1, Some(list[i]))
    {
      LookOrder(Entries(list), 1, 0, i);
    }
    StartText(s);
    forall i | 0 <= i < n
      ensures Examine(find)(Start(s), items[i]).Nothing?
    {
      NoLook(find, Start(s), list[i]);
    }
    SkipNothing(Examine(find), items, n, Start(s), [], limit);
    WholeLast(find, Start(s), list[n]);
    assert items[n..][0] == Item(1, Some(list[n]));
  }

  lemma NoLook(find: Finder, b: Passes, v: Vendor)
    requires !Matches(find, v, Text(b.p0))
    ensures Examine(find)(b, Item(1, Some(v))).Nothing?
  {
    OneLook(find, b, v);
  }

  lemma WholeLast(find: Finder, b: Passes, v: Vendor)
    requires Matches(find, v, Text(b.p0)) && |MatchString(v)| == Len(b.p0)
    ensures Examine(find)(b, Item(1, Some(v))) == Last(v)
  {
    OneLook(find, b, v);
    WholeBlanked(b.p0);
  }

  /** A string with a `(` is tried as it is first, with all rules: one that matches the whole
      of it before any other rule matches is the only result. */
  lemma FullTextFirst(find: Finder, list: seq<Vendor>, s: cstring, n: nat, limit: int)
    requires '(' in s && n < |list|
    requires forall i | 0 <= i < n :: list[i].matchString == None || MatchAt(find, list[i], s) == None
    requires list[n].matchString.Some? && |MatchString(list[n])| == |s| && MatchAt(find, list[n], s).Some?
    ensures Core(find, Entries(list), s, limit) == [list[n]]
  {
    var items := Items(Entries(list), 3);
    forall i | 0 <= i < |list|
      ensures items[i] == Item(3, Some(list[i]))
    {
      LookOrder(Entries(list), 3, 0, i);
    }
    forall i | 0 <= i < n
      ensures Examine(find)(Start(s), items[i]).Nothing?
    {
      FullLook(find, list[i], s);
    }
    SkipNothing(Examine(find), items, n, Start(s), [], limit);
    FullLook(find, list[n], s);
    assert items[n..][0] == items[n];
  }

  lemma FullLook(find: Finder, v: Vendor, s: cstring)
    ensures
      var m := if v.matchString.Some? then MatchAt(find, v, s) else None;
      Hit(find, Start(s), Item(3, Some(v))) == m
    ensures v.matchString.None? || MatchAt(find, v, s).None? ==> Examine(find)(Start(s), Item(3, Some(v))) == Nothing
    ensures v.matchString.Some? && MatchAt(find, v, s).Some? && |MatchString(v)| == |s| ==>
      Examine(find)(Start(s), Item(3, Some(v))) == Last(v)
  {
    assert Start(s).Of(3) == ToBuffer(s);
    BufferText(s);
    if v.matchString.Some? && MatchAt(find, v, s) == Some(0) && |MatchString(v)| == |s| {
      FullWhole(s);
    }
  }

  lemma FullWhole(s: cstring)
    ensures Len(BlankAll(Start(s), 3, 0, |s|).p0) == 0
  {
    BufferText(s);
    BlankedBuffers(Start(s), 3, 0, |s|, 1);
    WholeBlanked(ToBuffer(s));
  }

  lemma BufferText(s: cstring)
    ensures Text(ToBuffer(s)) == s
  {
    LenIs(ToBuffer(s), |s|);
  }
}
