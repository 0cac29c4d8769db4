/** `vendor_cmp_deep` and `vendor_list_remove_duplicates_deep`. */
module VendorDuplicates {
  import opened CStrings
  import opened Seqs
  import opened VendorMatch

  function Then(r: int, next: int): int { if r != 0 then r else next }

  function CmpTexts(a: Texts, b: Texts): int {
    Then(StrCmp0(a.name, b.name),
    Then(StrCmp0(a.nameShort, b.nameShort),
    Then(StrCmp0(a.ansiColor, b.ansiColor),
    Then(StrCmp0(a.url, b.url),
    Then(StrCmp0(a.urlSupport, b.urlSupport),
         StrCmp0(a.wikipedia, b.wikipedia))))))
  }

  function VendorCmpDeep(a: Option<Vendor>, b: Option<Vendor>): int {
    if a.Some? && b.None? then 1
    else if a.None? && b.Some? then -1
    else if a.None? then 0
    else CmpTexts(a.value.texts, b.value.texts)
  }

  /** Duplicates may differ in what they match; they say the same about the vendor. */
  predicate Same(a: Option<Vendor>, b: Option<Vendor>) {
    if a.Some? && b.Some? then a.value.texts == b.value.texts else a == b
  }

  lemma TextsOrder(a: Texts, b: Texts, c: Texts)
    ensures CmpTexts(b, a) == -CmpTexts(a, b) && (CmpTexts(a, b) == 0 <==> a == b)
    ensures Consistent(CmpTexts(a, b), CmpTexts(b, c), CmpTexts(a, c))
  {
    StrCmp0Order(a.name, b.name, c.name);
    StrCmp0Order(a.nameShort, b.nameShort, c.nameShort);
    StrCmp0Order(a.ansiColor, b.ansiColor, c.ansiColor);
    StrCmp0Order(a.url, b.url, c.url);
    StrCmp0Order(a.urlSupport, b.urlSupport, c.urlSupport);
    StrCmp0Order(a.wikipedia, b.wikipedia, c.wikipedia);
  }

  /** `vendor_cmp_deep` is a total preorder in which exactly the duplicates tie. */
  lemma DeepOrder(a: Option<Vendor>, b: Option<Vendor>, c: Option<Vendor>)
    ensures VendorCmpDeep(b, a) == -VendorCmpDeep(a, b)
    ensures VendorCmpDeep(a, b) == 0 <==> Same(a, b)
    ensures VendorCmpDeep(a, b) <= 0 && VendorCmpDeep(b, c) <= 0 ==> VendorCmpDeep(a, c) <= 0
  {
    if a.Some? && b.Some? {
      TextsOrder(a.value.texts, b.value.texts, (if c.Some? then c else b).value.texts);
    }
  }

  function TextList(t: Texts): (l: seq<Option<cstring>>)
    ensures |l| == 6
  {
    [t.name, t.nameShort, t.ansiColor, t.url, t.urlSupport, t.wikipedia]
  }

  predicate DiffersFirst(a: seq<Option<cstring>>, b: seq<Option<cstring>>, k: nat) {
    k < |a| == |b| && a[k] != b[k] && forall j | 0 <= j < k :: a[j] == b[j]
  }

  /** The first of the six texts that differs decides, by its bytes; NULL comes first, of
      texts and of rules. */
  lemma FirstDifference(a: Vendor, b: Vendor, k: nat)
    requires DiffersFirst(TextList(a.texts), TextList(b.texts), k)
    ensures VendorCmpDeep(Some(a), Some(b)) < 0 <==> TextBefore(TextList(a.texts)[k], TextList(b.texts)[k])
    ensures VendorCmpDeep(None, Some(b)) < 0
  {
    var s, t := TextList(a.texts), TextList(b.texts);
    forall j | 0 <= j < 6
      ensures StrCmp0(s[j], t[j]) == 0 <==> s[j] == t[j]
      ensures StrCmp0(s[j], t[j]) < 0 <==> TextBefore(s[j], t[j])
    {
      StrCmp0Order(s[j], t[j], None);
      StrCmp0Bytes(s[j], t[j]);
    }
    FirstOfSix(StrCmp0(s[0], t[0]), StrCmp0(s[1], t[1]), StrCmp0(s[2], t[2]),
               StrCmp0(s[3], t[3]), StrCmp0(s[4], t[4]), StrCmp0(s[5], t[5]), k);
  }

  lemma FirstOfSix(a: int, b: int, c: int, d: int, e: int, f: int, k: nat)
    requires k < 6 && [a, b, c, d, e, f][k] != 0 && forall j | 0 <= j < k :: [a, b, c, d, e, f][j] == 0
    ensures Then(a, Then(b, Then(c, Then(d, Then(e, f))))) == [a, b, c, d, e, f][k]
  {
    assert 0 < k ==> [a, b, c, d, e, f][0] == a;
    assert 1 < k ==> [a, b, c, d, e, f][1] == b;
    assert 2 < k ==> [a, b, c, d, e, f][2] == c;
    assert 3 < k ==> [a, b, c, d, e, f][3] == d;
    assert 4 < k ==> [a, b, c, d, e, f][4] == e;
  }

  // ----- removing duplicates -----

  /** `vl` without the duplicates of `v`. */
  function Without(vl: seq<Option<Vendor>>, v: Option<Vendor>): (r: seq<Option<Vendor>>)
    ensures |r| <= |vl|
  {
    if vl == [] then []
    else (if Same(vl[0], v) then [] else [vl[0]]) + Without(vl[1..], v)
  }

  /** What the two loops leave: each entry removes its duplicates behind it. */
  function Pruned(vl: seq<Option<Vendor>>): seq<Option<Vendor>>
    decreases |vl|
  {
    if vl == [] then [] else [vl[0]] + Pruned(Without(vl[1..], vl[0]))
  }

  method RemoveDuplicatesDeep(list: seq<Option<Vendor>>) returns (vl: seq<Option<Vendor>>)
    ensures vl == Pruned(list)
  {
    vl := list;
    var tvl := 0;
    while tvl < |vl|
      invariant tvl <= |vl|
      invariant vl[..tvl] + Pruned(vl[tvl..]) == Pruned(list)
      decreases |vl| - tvl
    {
      ghost var before := vl;
      vl := RemoveBehind(vl, tvl);
      assert vl[..tvl + 1] == before[..tvl] + [before[tvl]];
      assert before[tvl..][1..] == before[tvl + 1..];
      Regroup3(before[..tvl], [before[tvl]], Pruned(vl[tvl + 1..]));
      tvl := tvl + 1;
    }
    assert vl[..tvl] == vl && vl[tvl..] == [];
  }

  /** The inner loop. */
  method RemoveBehind(list: seq<Option<Vendor>>, tvl: nat) returns (vl: seq<Option<Vendor>>)
    requires tvl < |list|
    ensures tvl < |vl| <= |list| && vl[..tvl + 1] == list[..tvl + 1]
    ensures vl[tvl + 1..] == Without(list[tvl + 1..], list[tvl])
  {
    vl := list;
    var tv := vl[tvl];
    var evl := tvl + 1;
    while evl < |vl|
      invariant tvl < evl <= |vl| <= |list| && vl[..tvl + 1] == list[..tvl + 1]
      invariant vl[tvl + 1..evl] + Without(vl[evl..], tv) == Without(list[tvl + 1..], tv)
      decreases |vl| - evl
    {
      var ev := vl[evl];
      DeepOrder(ev, tv, tv);
      ghost var kept, rest := vl[tvl + 1..evl], vl[evl + 1..];
      SplitAt(vl, tvl + 1, evl);
      assert Without(vl[evl..], tv) == (if Same(ev, tv) then [] else [ev]) + Without(rest, tv) by {
        assert ([ev] + rest)[1..] == rest;
      }
      if VendorCmpDeep(ev, tv) == 0 {
        vl := vl[..evl] + vl[evl + 1..];
      } else {
        Regroup3(kept, [ev], Without(rest, tv));
        evl := evl + 1;
      }
    }
    assert vl[tvl + 1..evl] == vl[tvl + 1..] && vl[evl..] == [];
  }

  lemma SplitAt<T>(s: seq<T>, a: nat, e: nat)
    requires a <= e < |s|
    ensures s[e..] == [s[e]] + s[e + 1..] && s[a..e + 1] == s[a..e] + [s[e]]
    ensures
      var t := s[..e] + s[e + 1..];
      t[..a] == s[..a] && t[a..e] == s[a..e] && t[e..] == s[e + 1..]
  {
  }

  /** Whether the list holds a duplicate of `v`. */
  ghost predicate Holds(vl: seq<Option<Vendor>>, v: Option<Vendor>) {
    exists i | 0 <= i < |vl| :: Same(vl[i], v)
  }

  /** The entries of the list that are no duplicate of an earlier one. */
  ghost function Firsts(vl: seq<Option<Vendor>>): seq<Option<Vendor>> {
    if vl == [] then []
    else
      var front, v := vl[..|vl| - 1], vl[|vl| - 1];
      Firsts(front) + if Holds(front, v) then [] else [v]
  }

  lemma {:induction false} WithoutSnoc(vl: seq<Option<Vendor>>, x: Option<Vendor>, v: Option<Vendor>)
    ensures Without(vl + [x], v) == Without(vl, v) + if Same(x, v) then [] else [x]
  {
    if vl == [] {
      assert vl + [x] == [x];
    } else {
      assert (vl + [x])[1..] == vl[1..] + [x];
      WithoutSnoc(vl[1..], x, v);
      Regroup3(if Same(vl[0], v) then [] else [vl[0]], Without(vl[1..], v), if Same(x, v) then [] else [x]);
    }
  }

  lemma {:induction false} WithoutHolds(vl: seq<Option<Vendor>>, x: Option<Vendor>, v: Option<Vendor>)
    requires !Same(x, v)
    ensures Holds(Without(vl, v), x) <==> Holds(vl, x)
  {
    if vl != [] {
      WithoutHolds(vl[1..], x, v);
      HoldsHead(vl, x);
      if !Same(vl[0], v) {
        var kept := [vl[0]] + Without(vl[1..], v);
        HoldsHead(kept, x);
        assert Without(vl, v) == kept && kept[1..] == Without(vl[1..], v);
      } else {
        assert Without(vl, v) == Without(vl[1..], v);
      }
    }
  }

  lemma HoldsHead(vl: seq<Option<Vendor>>, x: Option<Vendor>)
    requires vl != []
    ensures Holds(vl, x) <==> Same(vl[0], x) || Holds(vl[1..], x)
  {
    if Holds(vl, x) && !Same(vl[0], x) {
      var i :| 0 <= i < |vl| && Same(vl[i], x);
      assert Same(vl[1..][i - 1], x);
    }
    if Holds(vl[1..], x) {
      var i :| 0 <= i < |vl[1..]| && Same(vl[1..][i], x);
      assert Same(vl[i + 1], x);
    }
  }

  lemma {:induction false} PrunedSnoc(vl: seq<Option<Vendor>>, x: Option<Vendor>)
    ensures Pruned(vl + [x]) == Pruned(vl) + if Holds(vl, x) then [] else [x]
    decreases |vl|
  {
    if vl == [] {
      assert vl + [x] == [x] && Without([], x) == [];
    } else {
      var h, r := vl[0], vl[1..];
      assert (vl + [x])[1..] == r + [x];
      WithoutSnoc(r, x, h);
      HoldsHead(vl, x);
      if Same(x, h) {
        assert Without(r + [x], h) == Without(r, h);
      } else {
        PrunedSnoc(Without(r, h), x);
        WithoutHolds(r, x, h);
        Regroup3([h], Pruned(Without(r, h)), if Holds(vl, x) then [] else [x]);
      }
    }
  }

  /** Exactly the first of all duplicates stay, in their order. */
  lemma {:induction false} KeepsFirsts(vl: seq<Option<Vendor>>)
    ensures Pruned(vl) == Firsts(vl)
  {
    if vl != [] {
      var front, v := vl[..|vl| - 1], vl[|vl| - 1];
      KeepsFirsts(front);
      assert vl == front + [v];
      PrunedSnoc(front, v);
    }
  }

  lemma {:induction false} WithoutMembers(vl: seq<Option<Vendor>>, v: Option<Vendor>)
    ensures forall x :: x in Without(vl, v) <==> x in vl && !Same(x, v)
  {
    if vl != [] {
      WithoutMembers(vl[1..], v);
      assert vl == [vl[0]] + vl[1..];
    }
  }

  lemma {:induction false} PrunedMembers(vl: seq<Option<Vendor>>)
    ensures forall x <- Pruned(vl) :: x in vl
    decreases |vl|
  {
    if vl != [] {
      WithoutMembers(vl[1..], vl[0]);
      PrunedMembers(Without(vl[1..], vl[0]));
    }
  }

  /** No two entries that stay tie. */
  lemma {:induction false} NoDuplicatesLeft(vl: seq<Option<Vendor>>, i: nat, j: nat)
    requires i < j < |Pruned(vl)|
    ensures VendorCmpDeep(Pruned(vl)[i], Pruned(vl)[j]) != 0
    decreases |vl|
  {
    var rest := Without(vl[1..], vl[0]);
    var y := Pruned(rest)[j - 1];
    if i == 0 {
      PrunedMembers(rest);
      WithoutMembers(vl[1..], vl[0]);
      DeepOrder(vl[0], y, y);
      assert y in Pruned(rest);
    } else {
      NoDuplicatesLeft(rest, i - 1, j - 1);
    }
  }

  /** Every entry of the list ties with one that stays. */
  lemma {:induction false} NothingLost(vl: seq<Option<Vendor>>, x: Option<Vendor>) returns (y: Option<Vendor>)
    requires x in vl
    ensures y in Pruned(vl) && VendorCmpDeep(x, y) == 0
    decreases |vl|
  {
    y := vl[0];
    DeepOrder(x, y, y);
    if !Same(x, y) {
      WithoutMembers(vl[1..], vl[0]);
      assert vl == [vl[0]] + vl[1..];
      y := NothingLost(Without(vl[1..], vl[0]), x);
    }
  }
}
