/** Stable sorting by a comparison that only says when one entry comes after another. */
module StableOrder {
  import opened Seqs

  /** `gt` orders all entries, some of which may tie. */
  ghost predicate IsOrder<T(!new)>(gt: (T, T) -> bool) {
    && (forall a, b :: gt(a, b) ==> !gt(b, a))
    && (forall a, b, c :: gt(a, c) ==> gt(a, b) || gt(b, c))
  }

  ghost predicate Sorted<T>(gt: (T, T) -> bool, s: seq<T>) {
    forall i, j | 0 <= i < j < |s| :: !gt(s[i], s[j])
  }

  function Tie<T>(gt: (T, T) -> bool, a: T, b: T): bool {
    !gt(a, b) && !gt(b, a)
  }

  /** The entries of `s` that tie with `e`, in their order. */
  function Class<T>(gt: (T, T) -> bool, s: seq<T>, e: T): (r: seq<T>) {
    if s == [] then []
    else Class(gt, s[..|s| - 1], e) + if Tie(gt, s[|s| - 1], e) then [s[|s| - 1]] else []
  }

  /** Ties appear in the same order in both lists. */
  ghost predicate SameClasses<T(!new)>(gt: (T, T) -> bool, s: seq<T>, t: seq<T>) {
    forall e :: Class(gt, s, e) == Class(gt, t, e)
  }

  /** Inserts `e` behind everything it does not precede. */
  function Insert<T>(gt: (T, T) -> bool, s: seq<T>, e: T): (r: seq<T>)
    ensures |r| == |s| + 1
  {
    if s == [] then [e]
    else
      var last := |s| - 1;
      if gt(s[last], e) then Insert(gt, s[..last], e) + [s[last]] else s + [e]
  }

  /** The stable sort of `s`, by insertion. */
  function Sort<T>(gt: (T, T) -> bool, s: seq<T>): (r: seq<T>)
    ensures |r| == |s|
  {
    if s == [] then []
    else Insert(gt, Sort(gt, s[..|s| - 1]), s[|s| - 1])
  }

  lemma {:induction false} InsertPermutes<T>(gt: (T, T) -> bool, s: seq<T>, e: T)
    ensures multiset(Insert(gt, s, e)) == multiset(s) + multiset{e}
  {
    if s != [] {
      var last := |s| - 1;
      assert s == s[..last] + [s[last]];
      InsertPermutes(gt, s[..last], e);
    }
  }

  lemma ClassSnoc<T>(gt: (T, T) -> bool, s: seq<T>, x: T, e: T)
    ensures Class(gt, s + [x], e) == Class(gt, s, e) + if Tie(gt, x, e) then [x] else []
  {
    assert (s + [x])[..|s|] == s;
  }

  lemma {:induction false} ClassAppend<T>(gt: (T, T) -> bool, s: seq<T>, t: seq<T>, e: T)
    ensures Class(gt, s + t, e) == Class(gt, s, e) + Class(gt, t, e)
  {
    if t == [] {
      assert s + t == s;
    } else {
      var last := |t| - 1;
      assert (s + t)[..|s| + last] == s + t[..last];
      ClassAppend(gt, s, t[..last], e);
    }
  }

  lemma {:induction false} ClassMembers<T>(gt: (T, T) -> bool, s: seq<T>, e: T)
    ensures forall x :: x in Class(gt, s, e) <==> x in s && Tie(gt, x, e)
  {
    if s != [] {
      ClassMembers(gt, s[..|s| - 1], e);
      assert s == s[..|s| - 1] + [s[|s| - 1]];
    }
  }

  lemma {:induction false} InsertSorted<T(!new)>(gt: (T, T) -> bool, s: seq<T>, e: T)
    requires IsOrder(gt) && Sorted(gt, s)
    ensures Sorted(gt, Insert(gt, s, e))
  {
    if s != [] {
      var last := |s| - 1;
      var front := s[..last];
      if gt(s[last], e) {
        InsertSorted(gt, front, e);
        InsertPermutes(gt, front, e);
        var r := Insert(gt, front, e);
        forall i | 0 <= i < |r|
          ensures !gt(r[i], s[last])
        {
          assert r[i] in multiset(r);
        }
      } else {
        forall i | 0 <= i < |s|
          ensures !gt(s[i], e)
        {
          assert !gt(s[i], s[last]);
        }
      }
    }
  }

  lemma {:induction false} InsertClass<T(!new)>(gt: (T, T) -> bool, s: seq<T>, e: T, k: T)
    requires IsOrder(gt)
    ensures Class(gt, Insert(gt, s, e), k) == Class(gt, s + [e], k)
  {
    ClassSnoc(gt, s, e, k);
    if s != [] {
      var last := |s| - 1;
      if gt(s[last], e) {
        InsertClass(gt, s[..last], e, k);
        ClassSnoc(gt, s[..last], e, k);
        ClassSnoc(gt, Insert(gt, s[..last], e), s[last], k);
      }
    }
  }

  /** Sorting sorts, permutes, and keeps ties in order. */
  lemma {:induction false} SortIsStable<T(!new)>(gt: (T, T) -> bool, s: seq<T>)
    requires IsOrder(gt)
    ensures Sorted(gt, Sort(gt, s)) && SameClasses(gt, Sort(gt, s), s)
    ensures multiset(Sort(gt, s)) == multiset(s)
  {
    if s != [] {
      var front, e := s[..|s| - 1], s[|s| - 1];
      SortIsStable(gt, front);
      InsertSorted(gt, Sort(gt, front), e);
      InsertPermutes(gt, Sort(gt, front), e);
      assert s == front + [e];
      forall k
        ensures Class(gt, Sort(gt, s), k) == Class(gt, s, k)
      {
        InsertClass(gt, Sort(gt, front), e, k);
        ClassSnoc(gt, Sort(gt, front), e, k);
        assert Class(gt, Sort(gt, front), k) == Class(gt, front, k);
      }
    }
  }

  lemma LastIsMax<T(!new)>(gt: (T, T) -> bool, s: seq<T>, x: T)
    requires IsOrder(gt) && Sorted(gt, s) && x in s
    ensures !gt(x, s[|s| - 1])
  {
    var i :| 0 <= i < |s| && s[i] == x;
  }

  lemma SameMember<T(!new)>(gt: (T, T) -> bool, s: seq<T>, t: seq<T>, x: T)
    requires IsOrder(gt) && SameClasses(gt, s, t) && x in s
    ensures x in t
  {
    ClassMembers(gt, s, x);
    ClassMembers(gt, t, x);
    assert Class(gt, s, x) == Class(gt, t, x);
  }

  lemma SameLast<T(!new)>(gt: (T, T) -> bool, s: seq<T>, t: seq<T>)
    requires IsOrder(gt) && Sorted(gt, s) && Sorted(gt, t) && SameClasses(gt, s, t)
    requires s != [] && t != []
    ensures s[|s| - 1] == t[|t| - 1]
    ensures SameClasses(gt, s[..|s| - 1], t[..|t| - 1])
  {
    var x, y := s[|s| - 1], t[|t| - 1];
    SameMember(gt, s, t, x);
    SameMember(gt, t, s, y);
    LastIsMax(gt, t, x);
    LastIsMax(gt, s, y);
    var front, front' := s[..|s| - 1], t[..|t| - 1];
    assert Class(gt, s, x) == Class(gt, front, x) + [x];
    assert Class(gt, t, x) == Class(gt, front', x) + [y];
    assert (Class(gt, front, x) + [x])[|Class(gt, s, x)| - 1] == (Class(gt, front', x) + [y])[|Class(gt, s, x)| - 1];
    forall e
      ensures Class(gt, front, e) == Class(gt, front', e)
    {
      assert Class(gt, s, e) == Class(gt, t, e);
      SameSuffix(Class(gt, front, e), Class(gt, front', e), if Tie(gt, x, e) then [x] else []);
    }
  }

  /** There is only one sorted arrangement that keeps ties in a given order. */
  lemma {:induction false} SortedUnique<T(!new)>(gt: (T, T) -> bool, s: seq<T>, t: seq<T>)
    requires IsOrder(gt) && Sorted(gt, s) && Sorted(gt, t) && SameClasses(gt, s, t)
    ensures s == t
  {
    if s == [] || t == [] {
      if s != [] {
        SameMember(gt, s, t, s[0]);
      } else if t != [] {
        SameMember(gt, t, s, t[0]);
      }
    } else {
      SameLast(gt, s, t);
      SortedUnique(gt, s[..|s| - 1], t[..|t| - 1]);
      assert s == s[..|s| - 1] + [s[|s| - 1]] && t == t[..|t| - 1] + [t[|t| - 1]];
    }
  }

  /** Any sorted rearrangement of `s` that keeps ties in order is the stable sort of `s`. */
  lemma SortCharacterised<T(!new)>(gt: (T, T) -> bool, s: seq<T>, r: seq<T>)
    requires IsOrder(gt)
    ensures r == Sort(gt, s) <==> Sorted(gt, r) && SameClasses(gt, r, s)
  {
    SortIsStable(gt, s);
    if Sorted(gt, r) && SameClasses(gt, r, s) {
      SortedUnique(gt, r, Sort(gt, s));
    }
  }

  /** Lists with the same ties sort alike, also after the same additions. */
  lemma SortCongruent<T(!new)>(gt: (T, T) -> bool, s: seq<T>, t: seq<T>, more: seq<T>)
    requires IsOrder(gt) && SameClasses(gt, s, t)
    ensures SameClasses(gt, s + more, t + more)
    ensures Sort(gt, s + more) == Sort(gt, t + more)
  {
    forall e
      ensures Class(gt, s + more, e) == Class(gt, t + more, e)
    {
      ClassAppend(gt, s, more, e);
      ClassAppend(gt, t, more, e);
      assert Class(gt, s, e) == Class(gt, t, e);
    }
    SortIsStable(gt, s + more);
    SortCharacterised(gt, t + more, Sort(gt, s + more));
  }

  /** Sorting before adding more makes no difference to a later sort. */
  lemma ResortHarmless<T(!new)>(gt: (T, T) -> bool, s: seq<T>, more: seq<T>)
    requires IsOrder(gt)
    ensures Sort(gt, Sort(gt, s) + more) == Sort(gt, s + more)
  {
    SortIsStable(gt, s);
    SortCongruent(gt, Sort(gt, s), s, more);
  }

  lemma SwapPair<T(!new)>(gt: (T, T) -> bool, x: T, y: T, e: T)
    requires IsOrder(gt) && gt(x, y)
    ensures Class(gt, [x, y], e) == Class(gt, [y, x], e)
  {
    ClassSnoc(gt, [x], y, e);
    ClassSnoc(gt, [y], x, e);
    ClassSnoc(gt, [], x, e);
    ClassSnoc(gt, [], y, e);
    assert [] + [x] == [x] && [] + [y] == [y] && [x] + [y] == [x, y] && [y] + [x] == [y, x];
  }

  /** Exchanging two neighbours in the wrong order leaves all ties alone. */
  lemma SwapClass<T(!new)>(gt: (T, T) -> bool, a: seq<T>, x: T, y: T, b: seq<T>)
    requires IsOrder(gt) && gt(x, y)
    ensures SameClasses(gt, a + [y, x] + b, a + [x, y] + b)
  {
    forall e
      ensures Class(gt, a + [y, x] + b, e) == Class(gt, a + [x, y] + b, e)
    {
      ClassAppend(gt, a + [y, x], b, e);
      ClassAppend(gt, a + [x, y], b, e);
      ClassAppend(gt, a, [y, x], e);
      ClassAppend(gt, a, [x, y], e);
      SwapPair(gt, x, y, e);
    }
  }
}
