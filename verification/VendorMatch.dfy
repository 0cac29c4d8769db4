/** `vendors_match_core` and `vendor_match`: weight-ordered vendor rules tried on up to three
    copies of a string, in which every match is blanked. */
module VendorMatch {
  import opened CStrings
  import opened LimitedSearch
  import opened StableOrder

  datatype Rule =
    | WordIgnoreCase | WordMatchCase | Exact
    | PrefixMatchCase | PrefixIgnoreCase | SuffixMatchCase | SuffixIgnoreCase
    | NumPrefixIgnoreCase | NumPrefixMatchCase

  /** What a rule says about its vendor, as far as `vendor_cmp_deep` looks at it. */
  datatype Texts = Texts(name: Option<cstring>, nameShort: Option<cstring>, ansiColor: Option<cstring>,
                         url: Option<cstring>, urlSupport: Option<cstring>, wikipedia: Option<cstring>)

  datatype Vendor = Vendor(matchString: Option<cstring>, rule: Rule, fileLine: nat, texts: Texts)

  function MatchString(v: Vendor): cstring {
    if v.matchString.None? then [] else v.matchString.value
  }

  /** The loader's weight: the length of the match string, and one more for number rules. */
  function Weight(v: Vendor): nat {
    |MatchString(v)| + if v.rule.NumPrefixIgnoreCase? || v.rule.NumPrefixMatchCase? then 1 else 0
  }

  predicate HasParens(v: Vendor) { '(' in MatchString(v) }

  /** The word searches of strstr_word.h. */
  datatype Search = Word | WordCase | Prefix | PrefixCase | Suffix | SuffixCase

  /** Which search a rule uses.  The two number rules use each other's. */
  function SearchOf(rule: Rule): Search
    requires !rule.Exact?
  {
    match rule
    case WordIgnoreCase => Word
    case WordMatchCase => WordCase
    case PrefixMatchCase => PrefixCase
    case PrefixIgnoreCase => Prefix
    case SuffixMatchCase => SuffixCase
    case SuffixIgnoreCase => Suffix
    case NumPrefixIgnoreCase => PrefixCase
    case NumPrefixMatchCase => Prefix
  }

  /** A search finds nothing, or the position of something as long as the match string. */
  type Finder = (Search, cstring, cstring) -> Option<nat>

  // ----- buffers -----

  /** `g_strchomp` overwrites trailing blanks with NULs. */
  function Chomp(b: seq<octet>): (r: seq<octet>)
    requires IsBuffer(b)
    ensures |r| == |b| && IsBuffer(r)
  {
    var n := Len(b);
    var keep := n - TrailingBlanks(Text(b));
    seq(|b|, i requires 0 <= i < |b| => if keep <= i < n then NUL as octet else b[i])
  }

  /** `g_strchug` moves the string, with its NUL, to the front. */
  function Chug(b: seq<octet>): (r: seq<octet>)
    requires IsBuffer(b)
    ensures |r| == |b| && IsBuffer(r)
  {
    var n, skip := Len(b), LeadingBlanks(Text(b));
    b[skip..n + 1] + b[n - skip + 1..]
  }

  /** Overwrites a match with spaces and strips the string. */
  function Blanked(b: seq<octet>, from: nat, count: nat): (r: seq<octet>)
    requires IsBuffer(b) && from + count < |b|
    ensures |r| == |b| && IsBuffer(r)
  {
    Chug(Chomp(b[..from] + seq(count, _ => ' ') + b[from + count..]))
  }

  /** Blanks the text in parentheses, from the `(` at or after `i` on. */
  function BlankParens(s: cstring, i: nat, inside: bool): (r: cstring)
    requires i <= |s|
    ensures |r| == |s|
    decreases |s| - i
  {
    if i == |s| then s
    else if inside then
      if s[i] == ')' then BlankParens(s, i + 1, false) else BlankParens(s[i := ' '], i + 1, true)
    else BlankParens(s, i + 1, s[i] == '(')
  }

  // ----- one rule on the buffers -----

  /** `passes[0]`, `passes[1]` and `passes[2]`, which have one size. */
  datatype Buffers = Buffers(p0: seq<octet>, p1: seq<octet>, p2: seq<octet>) {
    predicate Ok() {
      IsBuffer(p0) && IsBuffer(p1) && IsBuffer(p2) && |p0| == |p1| == |p2|
    }

    function Of(pass: nat): seq<octet>
      requires 1 <= pass <= 3
    {
      if pass == 1 then p0 else if pass == 2 then p1 else p2
    }
  }

  type Passes = b: Buffers | b.Ok() witness Buffers([NUL], [NUL], [NUL])

  /** Where the rule matches a text. */
  function MatchAt(find: Finder, v: Vendor, text: cstring): (r: Option<nat>)
    ensures r.Some? ==> r.value + |MatchString(v)| <= |text|
  {
    if v.rule.Exact? then if text == MatchString(v) then Some(0) else None
    else
      var m := find(SearchOf(v.rule), text, MatchString(v));
      if m.None? || m.value + |MatchString(v)| > |text| then None
      else if (v.rule.NumPrefixIgnoreCase? || v.rule.NumPrefixMatchCase?)
              && !IsDigit(At(text, m.value + |MatchString(v)|)) then None
      else m
  }

  /** One look at one list entry: parenthesised rules belong to pass 3. */
  datatype Item = Item(pass: nat, vendor: Option<Vendor>)

  predicate Tried(item: Item) {
    && 1 <= item.pass <= 3 && item.vendor.Some? && item.vendor.value.matchString.Some?
    && (HasParens(item.vendor.value) ==> item.pass == 3)
  }

  /** Blanks a match in the buffer of this pass and of all later ones. */
  function BlankAll(b: Passes, pass: nat, from: nat, count: nat): (r: Passes)
    requires 1 <= pass <= 3 && from + count < |b.p0|
    ensures |r.p0| == |b.p0|
  {
    Buffers(Blanked(b.p0, from, count),
            if pass >= 2 then Blanked(b.p1, from, count) else b.p1,
            if pass == 3 then Blanked(b.p2, from, count) else b.p2)
  }

  /** Where an entry matches, if it is tried and does. */
  function Hit(find: Finder, b: Passes, item: Item): (r: Option<nat>)
    ensures r.Some? ==> Tried(item) && r.value + |MatchString(item.vendor.value)| < |b.p0|
  {
    if Tried(item) then MatchAt(find, item.vendor.value, Text(b.Of(item.pass))) else None
  }

  /** An exact match ends the search; any other is blanked, and ends it if nothing is left. */
  function Examine(find: Finder): (Passes, Item) -> Outcome<Passes, Vendor> {
    (b: Passes, item: Item) =>
      var m := Hit(find, b, item);
      if m.None? then Nothing
      else
        var v := item.vendor.value;
        if v.rule.Exact? then Last(v)
        else
          var b' := BlankAll(b, item.pass, m.value, |MatchString(v)|);
          if Len(b'.p0) == 0 then Last(v) else More(v, b')
  }

  function PassItems(vendors: seq<Option<Vendor>>, pass: nat): (r: seq<Item>)
    ensures |r| == |vendors|
  {
    seq(|vendors|, i requires 0 <= i < |vendors| => Item(pass, vendors[i]))
  }

  /** Every pass goes through the whole list, the highest first. */
  function Items(vendors: seq<Option<Vendor>>, pass: nat): seq<Item> {
    if pass == 0 then [] else PassItems(vendors, pass) + Items(vendors, pass - 1)
  }

  function Start(s: cstring): Passes {
    Buffers(ToBuffer(s), ToBuffer(BlankParens(s, 0, false)), ToBuffer(s))
  }

  function Core(find: Finder, vendors: seq<Option<Vendor>>, s: cstring, limit: int): seq<Vendor> {
    Collect(Examine(find), Items(vendors, if '(' in s then 3 else 1), Start(s), [], limit)
  }

  /** For every string and every limit, the limited search finds the first entries of what
      the unlimited search finds. */
  lemma LimitIsPrefix(find: Finder, vendors: seq<Option<Vendor>>, s: cstring, limit: nat)
    requires limit >= 1
    ensures
      var all := Core(find, vendors, s, -1);
      Core(find, vendors, s, limit) == if |all| <= limit then all else all[..limit]
  {
    LimitCutsOff(Examine(find), Items(vendors, if '(' in s then 3 else 1), Start(s), [], limit);
  }

  // ----- the best match -----

  /** The list `vendor_init` makes of the rules of a file: read front to back, each put in
      front of the others, then stably sorted by falling weight. */
  function Lighter(): (Vendor, Vendor) -> bool {
    (a: Vendor, b: Vendor) => Weight(b) - Weight(a) > 0
  }

  function Backwards<T>(s: seq<T>): (r: seq<T>)
    ensures |r| == |s| && forall i | 0 <= i < |s| :: r[i] == s[|s| - 1 - i]
  {
    if s == [] then [] else [s[|s| - 1]] + Backwards(s[..|s| - 1])
  }

  function VendorList(file: seq<Vendor>): seq<Vendor> {
    Sort(Lighter(), Backwards(file))
  }

  function Entries(list: seq<Vendor>): (r: seq<Option<Vendor>>)
    ensures |r| == |list|
  {
    seq(|list|, i requires 0 <= i < |list| => Some(list[i]))
  }

  /** `vendor_match`: the first match, of a string that is not empty. */
  function BestMatch(find: Finder, vendors: seq<Option<Vendor>>, s: cstring): Option<Vendor> {
    if s == [] then None
    else
      var found := Core(find, vendors, s, 1);
      if found == [] then None else Some(found[0])
  }

  predicate Matches(find: Finder, v: Vendor, s: cstring) {
    v.matchString.Some? && !HasParens(v) && MatchAt(find, v, s).Some?
  }

  lemma StartText(s: cstring)
    requires '(' !in s
    ensures Text(Start(s).Of(1)) == s
  {
    var b := ToBuffer(s);
    assert forall i | 0 <= i < |s| :: b[i] == s[i];
  }

  /** Without `(` in the string, the first entry of the list that matches is the result. */
  lemma FirstMatch(find: Finder, list: seq<Vendor>, s: cstring, n: nat)
    requires s != [] && '(' !in s && n <= |list|
    requires forall i | 0 <= i < n :: !Matches(find, list[i], s)
    requires n < |list| ==> Matches(find, list[n], s)
    ensures BestMatch(find, Entries(list), s) == if n < |list| then Some(list[n]) else None
  {
    var items := Items(Entries(list), 1);
    assert items == PassItems(Entries(list), 1) by {
      assert Items(Entries(list), 0) == [];
      assert PassItems(Entries(list), 1) + [] == PassItems(Entries(list), 1);
    }
    StartText(s);
    forall i | 0 <= i < |list|
      ensures items[i] == Item(1, Some(list[i]))
      ensures Examine(find)(Start(s), items[i]).Nothing? <==> !Matches(find, list[i], s)
      ensures !Examine(find)(Start(s), items[i]).Nothing? ==> Examine(find)(Start(s), items[i]).v == list[i]
    {
    }
    SkipNothing(Examine(find), items, n, Start(s), [], 1);
  }

  lemma LighterIsOrder()
    ensures IsOrder(Lighter())
  {
  }

  /** Later lines come first. */
  ghost predicate Falling(s: seq<Vendor>) {
    forall i, j | 0 <= i < j < |s| :: s[i].fileLine > s[j].fileLine
  }

  lemma {:induction false} ClassFalling(s: seq<Vendor>, e: Vendor)
    requires Falling(s)
    ensures Falling(Class(Lighter(), s, e))
  {
    if s != [] {
      var front := s[..|s| - 1];
      ClassFalling(front, e);
      ClassMembers(Lighter(), front, e);
      var c := Class(Lighter(), front, e);
      assert forall i | 0 <= i < |c| :: c[i] in front;
    }
  }

  lemma {:induction false} ClassPositions(s: seq<Vendor>, e: Vendor, i: nat, j: nat) returns (a: nat, b: nat)
    requires i < j < |s| && Tie(Lighter(), s[i], e) && Tie(Lighter(), s[j], e)
    ensures a < b < |Class(Lighter(), s, e)|
    ensures Class(Lighter(), s, e)[a] == s[i] && Class(Lighter(), s, e)[b] == s[j]
  {
    var last := |s| - 1;
    var front := s[..last];
    if j < last {
      a, b := ClassPositions(front, e, i, j);
    } else {
      ClassMembers(Lighter(), front, e);
      assert front[i] in Class(Lighter(), front, e);
      a :| 0 <= a < |Class(Lighter(), front, e)| && Class(Lighter(), front, e)[a] == front[i];
      b := |Class(Lighter(), front, e)|;
    }
  }

  /** The list is sorted by falling weight, and ties by falling file line. */
  lemma VendorListOrder(file: seq<Vendor>, i: nat, j: nat)
    requires forall a, b | 0 <= a < b < |file| :: file[a].fileLine < file[b].fileLine
    requires i < j < |VendorList(file)|
    ensures
      var (x, y) := (VendorList(file)[i], VendorList(file)[j]);
      Weight(x) > Weight(y) || (Weight(x) == Weight(y) && x.fileLine > y.fileLine)
  {
    var back, list := Backwards(file), VendorList(file);
    LighterIsOrder();
    SortIsStable(Lighter(), back);
    var x, y := list[i], list[j];
    assert !Lighter()(x, y);
    if Weight(x) == Weight(y) {
      assert Class(Lighter(), list, x) == Class(Lighter(), back, x);
      ClassFalling(back, x);
      var a, b := ClassPositions(list, x, i, j);
    }
  }

  lemma {:induction false} FirstMatching(find: Finder, list: seq<Vendor>, s: cstring, from: nat) returns (n: nat)
    requires from <= |list| && forall i | 0 <= i < from :: !Matches(find, list[i], s)
    ensures from <= n <= |list| && forall i | 0 <= i < n :: !Matches(find, list[i], s)
    ensures n < |list| ==> Matches(find, list[n], s)
    decreases |list| - from
  {
    n := from;
    if from < |list| && !Matches(find, list[from], s) {
      n := FirstMatching(find, list, s, from + 1);
    }
  }

  lemma {:induction false} BackwardsMembers<T>(s: seq<T>)
    ensures forall x :: x in Backwards(s) <==> x in s
  {
    forall x
      ensures x in Backwards(s) <==> x in s
    {
      if x in s {
        var i :| 0 <= i < |s| && s[i] == x;
        assert Backwards(s)[|s| - 1 - i] == x;
      }
    }
  }

  lemma VendorListMembers(file: seq<Vendor>)
    ensures forall v :: v in VendorList(file) <==> v in file
  {
    LighterIsOrder();
    SortIsStable(Lighter(), Backwards(file));
    BackwardsMembers(file);
    assert forall v :: v in VendorList(file) <==> v in multiset(VendorList(file));
    assert forall v :: v in Backwards(file) <==> v in multiset(Backwards(file));
  }

  /** On a string without `(` the result is, of all rules of the file that match and have no
      parenthesis, one of the greatest weight, and of these the last in the file. */
  lemma BestIsHeaviest(find: Finder, file: seq<Vendor>, s: cstring)
    requires forall a, b | 0 <= a < b < |file| :: file[a].fileLine < file[b].fileLine
    requires s != [] && '(' !in s
    ensures
      var best := BestMatch(find, Entries(VendorList(file)), s);
      if best.None? then forall v <- file :: !Matches(find, v, s)
      else
        && best.value in file && Matches(find, best.value, s)
        && forall v <- file | Matches(find, v, s) ::
             Weight(v) < Weight(best.value)
             || (Weight(v) == Weight(best.value) && v.fileLine <= best.value.fileLine)
  {
    var list := VendorList(file);
    var n := FirstMatching(find, list, s, 0);
    FirstMatch(find, list, s, n);
    VendorListMembers(file);
    forall v <- file | Matches(find, v, s)
      ensures n < |list|
      ensures Weight(v) < Weight(list[n]) || (Weight(v) == Weight(list[n]) && v.fileLine <= list[n].fileLine)
    {
      assert v in list;
      var j :| 0 <= j < |list| && list[j] == v;
      if n < j {
        VendorListOrder(file, n, j);
      }
    }
    if n < |list| {
      assert list[n] in list;
    }
  }
}
