/** What the walk finds, by the places of the directories in the tree. */
module DeviceTreePlaces {
  import opened CStrings
  import opened Seqs
  import opened StableOrder
  import opened DeviceTreeMap
  import opened DeviceTreeWalk

  // A place is the way down from a directory: which sub-directory to take at every level.

  function Reached(dir: Dir, place: seq<nat>): Option<Dir> {
    if place == [] then Some(dir)
    else if place[0] < |dir.subdirs| then Reached(dir.subdirs[place[0]], place[1..])
    else None
  }

  /** The names on the way, each with a `/` in front. */
  function Names(dir: Dir, place: seq<nat>): cstring {
    if place == [] || place[0] >= |dir.subdirs| then []
    else ['/'] + dir.subdirs[place[0]].name + Names(dir.subdirs[place[0]], place[1..])
  }

  predicate HasProp(dir: Dir, place: seq<nat>) {
    place != [] && Reached(dir, place).Some? && Reached(dir, place).value.prop.Some?
  }

  /** `e` is what the property of the directory at a place stands for. */
  ghost predicate Stands(what: What, np: cstring, dir: Dir, place: seq<nat>, e: Entry) {
    && HasProp(dir, place)
    && e.alias == None
    && var words := Reached(dir, place).value.prop.value;
       var path := np + Names(dir, place);
       if what.Interrupts? && |words| > 1 then
         && |words| > 2
         && e.v == words[1]
         && (words[2] == 1 ==> e.path == Some(path + " (Rising Edge)"))
         && (words[2] == 2 ==> e.path == Some(path + " (Falling Edge)"))
         && (words[2] == 4 ==> e.path == Some(path + " (Activ High)"))
         && (words[2] == 8 ==> e.path == Some(path + " (Activ Low)"))
         && (words[2] !in [1, 2, 4, 8] ==> e.path == Some(path))
       else
         |words| > 0 && e.v == words[0] && e.path == Some(path)
  }

  /** The order of places: parents before children, siblings and what is below them in turn. */
  predicate Earlier(p: seq<nat>, q: seq<nat>) {
    q != [] && (p == [] || p[0] < q[0] || (p[0] == q[0] && Earlier(p[1..], q[1..])))
  }

  /** A place one level further up. */
  function Under(k: nat, places: seq<seq<nat>>): (r: seq<seq<nat>>)
    ensures |r| == |places| && forall i | 0 <= i < |r| :: r[i] == [k] + places[i]
  {
    seq(|places|, i requires 0 <= i < |places| => [k] + places[i])
  }

  lemma OneFurther(what: What, np: cstring, dir: Dir, k: nat, place: seq<nat>, e: Entry)
    requires k < |dir.subdirs|
    requires Stands(what, SubPath(np, dir.subdirs[k].name), dir.subdirs[k], place, e)
    ensures Stands(what, np, dir, [k] + place, e)
  {
    var sub, long := dir.subdirs[k], [k] + place;
    assert long[1..] == place;
    assert np + Names(dir, long) == SubPath(np, sub.name) + Names(sub, place);
  }

  lemma OwnPlace(what: What, np: cstring, dir: Dir, k: nat)
    requires k < |dir.subdirs| && dir.subdirs[k].prop.Some? && WordsOk(what, dir.subdirs[k].prop.value)
    ensures
      var sub := dir.subdirs[k];
      Stands(what, np, dir, [k], EntryOf(what, sub.prop.value, SubPath(np, sub.name)))
  {
    var sub := dir.subdirs[k];
    assert [k][1..] == [];
    assert Names(sub, []) == [];
    assert np + Names(dir, [k]) == SubPath(np, sub.name);
    var path := SubPath(np, sub.name);
    assert path + [] == path;
  }

  ghost function Standing(what: What, np: cstring, dir: Dir): (seq<nat>, Entry) -> bool {
    (place: seq<nat>, e: Entry) => Stands(what, np, dir, place, e)
  }

  /** The places below the sub-directories from `k` up to but not including `n` that have a
      property, all of them, in order. */
  ghost predicate AllPlaces(dir: Dir, k: nat, n: nat, places: seq<seq<nat>>) {
    && Increasing(Earlier, places)
    && (forall p <- places :: HasProp(dir, p) && k <= p[0] < n)
    && (forall p | HasProp(dir, p) && k <= p[0] < n :: p in places)
  }

  lemma AppendPlaces(dir: Dir, k: nat, before: seq<seq<nat>>, here: seq<seq<nat>>)
    requires AllPlaces(dir, 0, k, before) && AllPlaces(dir, k, k + 1, here)
    ensures AllPlaces(dir, 0, k + 1, before + here)
  {
    IncreasingAppend(Earlier, before, here);
  }

  /** The places of a sub-directory and of what is below it. */
  function OwnPlaces(dir: Dir, k: nat, places: seq<seq<nat>>): seq<seq<nat>>
    requires k < |dir.subdirs|
  {
    (if dir.subdirs[k].prop.Some? then [[k]] else []) + Under(k, places)
  }

  lemma OwnAreAll(dir: Dir, k: nat, places: seq<seq<nat>>)
    requires k < |dir.subdirs|
    requires AllPlaces(dir.subdirs[k], 0, |dir.subdirs[k].subdirs|, places)
    ensures AllPlaces(dir, k, k + 1, OwnPlaces(dir, k, places))
  {
    var sub, all := dir.subdirs[k], OwnPlaces(dir, k, places);
    var own: seq<seq<nat>> := if sub.prop.Some? then [[k]] else [];
    assert forall t :: HasProp(sub, t) ==> t[0] < |sub.subdirs|;
    forall p
      ensures p in all <==> HasProp(dir, p) && p[0] == k
    {
      OwnMembers(dir, k, places, p);
    }
    UnderIncreasing(k, places);
    forall p, q | p in own && q in Under(k, places)
      ensures Earlier(p, q)
    {
      var i :| 0 <= i < |places| && Under(k, places)[i] == q;
      assert places[i] in places && q[1..] == places[i] && p[1..] == [];
    }
    IncreasingAppend(Earlier, own, Under(k, places));
  }

  lemma TailProp(dir: Dir, k: nat, tail: seq<nat>)
    requires k < |dir.subdirs|
    ensures
      HasProp(dir, [k] + tail)
      <==> if tail == [] then dir.subdirs[k].prop.Some? else HasProp(dir.subdirs[k], tail)
  {
    assert ([k] + tail)[1..] == tail && ([k] + tail)[0] == k;
    assert Reached(dir, [k] + tail) == Reached(dir.subdirs[k], tail);
    if tail == [] {
      assert Reached(dir.subdirs[k], tail) == Some(dir.subdirs[k]);
    }
  }

  lemma OwnMembers(dir: Dir, k: nat, places: seq<seq<nat>>, p: seq<nat>)
    requires k < |dir.subdirs| && forall t :: t in places <==> HasProp(dir.subdirs[k], t)
    ensures p in OwnPlaces(dir, k, places) <==> HasProp(dir, p) && p[0] == k
  {
    var all, d := OwnPlaces(dir, k, places), if dir.subdirs[k].prop.Some? then 1 else 0;
    if p in all {
      var i :| 0 <= i < |all| && all[i] == p;
      TailProp(dir, k, if i < d then [] else places[i - d]);
      assert i >= d ==> places[i - d] in places;
      assert [k] + [] == [k];
    }
    if HasProp(dir, p) && p[0] == k {
      OwnListed(dir, k, places, p[1..]);
      assert p == [k] + p[1..];
    }
  }

  lemma OwnListed(dir: Dir, k: nat, places: seq<seq<nat>>, tail: seq<nat>)
    requires k < |dir.subdirs| && forall t :: t in places <==> HasProp(dir.subdirs[k], t)
    requires HasProp(dir, [k] + tail)
    ensures [k] + tail in OwnPlaces(dir, k, places)
  {
    var all, d := OwnPlaces(dir, k, places), if dir.subdirs[k].prop.Some? then 1 else 0;
    TailProp(dir, k, tail);
    if tail == [] {
      assert all[0] == [k] + tail;
    } else {
      var i :| 0 <= i < |places| && places[i] == tail;
      assert all[d + i] == [k] + tail;
    }
  }

  lemma UnderIncreasing(k: nat, places: seq<seq<nat>>)
    requires Increasing(Earlier, places)
    ensures Increasing(Earlier, Under(k, places))
  {
    var r := Under(k, places);
    forall i, j | 0 <= i < j < |r|
      ensures Earlier(r[i], r[j])
    {
      assert r[i][1..] == places[i] && r[j][1..] == places[j];
    }
  }

  lemma OwnStanding(what: What, np: cstring, dir: Dir, k: nat, places: seq<seq<nat>>, s: seq<Entry>)
    requires Readable(what, dir) && k < |dir.subdirs|
    requires Pairwise(Standing(what, SubPath(np, dir.subdirs[k].name), dir.subdirs[k]), places, s)
    ensures
      var own := OwnEntry(what, dir.subdirs[k], SubPath(np, dir.subdirs[k].name));
      Pairwise(Standing(what, np, dir), OwnPlaces(dir, k, places), own + s)
  {
    var sub, rel := dir.subdirs[k], Standing(what, np, dir);
    var own := OwnEntry(what, sub, SubPath(np, sub.name));
    if sub.prop.Some? {
      OwnPlace(what, np, dir, k);
    }
    forall i | 0 <= i < |places|
      ensures rel(Under(k, places)[i], s[i])
    {
      assert Standing(what, SubPath(np, sub.name), sub)(places[i], s[i]);
      OneFurther(what, np, dir, k, places[i], s[i]);
    }
    PairwiseAppend(rel, if sub.prop.Some? then [[k]] else [], own, Under(k, places), s);
  }

  lemma {:induction false} WalkFirstPlaces(what: What, np: cstring, dir: Dir, n: nat) returns (places: seq<seq<nat>>)
    requires Readable(what, dir) && n <= |dir.subdirs|
    ensures AllPlaces(dir, 0, n, places)
    ensures Pairwise(Standing(what, np, dir), places, WalkFirst(what, np, dir, n))
    decreases dir, n
  {
    if n == 0 {
      places := [];
    } else {
      var k, sub := n - 1, dir.subdirs[n - 1];
      var path := SubPath(np, sub.name);
      var before := WalkFirstPlaces(what, np, dir, k);
      var below := WalkFirstPlaces(what, path, sub, |sub.subdirs|);
      places := before + OwnPlaces(dir, k, below);
      OwnAreAll(dir, k, below);
      AppendPlaces(dir, k, before, OwnPlaces(dir, k, below));
      OwnStanding(what, np, dir, k, below, Walk(what, path, sub));
      WalkOneMore(what, np, dir, k, before, OwnPlaces(dir, k, below));
    }
  }

  lemma WalkOneMore(what: What, np: cstring, dir: Dir, k: nat, before: seq<seq<nat>>, here: seq<seq<nat>>)
    requires Readable(what, dir) && k < |dir.subdirs|
    requires Pairwise(Standing(what, np, dir), before, WalkFirst(what, np, dir, k))
    requires
      var sub := dir.subdirs[k];
      var path := SubPath(np, sub.name);
      Pairwise(Standing(what, np, dir), here, OwnEntry(what, sub, path) + Walk(what, path, sub))
    ensures Pairwise(Standing(what, np, dir), before + here, WalkFirst(what, np, dir, k + 1))
  {
    var sub := dir.subdirs[k];
    var path := SubPath(np, sub.name);
    var first, own, below := WalkFirst(what, np, dir, k), OwnEntry(what, sub, path), Walk(what, path, sub);
    Regroup3(first, own, below);
    PairwiseAppend(Standing(what, np, dir), before, first, here, own + below);
  }

  /** The walk finds, for every place with a property, what that stands for, in the order of
      places, and nothing else. */
  lemma WalkInOrder(what: What, np: cstring, dir: Dir) returns (places: seq<seq<nat>>)
    requires Readable(what, dir)
    ensures Increasing(Earlier, places) && forall p :: p in places <==> HasProp(dir, p)
    ensures Pairwise(Standing(what, np, dir), places, Walk(what, np, dir))
  {
    places := WalkFirstPlaces(what, np, dir, |dir.subdirs|);
  }

  /** An entry is found exactly if it stands for the property of some place. */
  lemma WalkMembers(what: What, np: cstring, dir: Dir, e: Entry)
    requires Readable(what, dir)
    ensures e in Walk(what, np, dir) <==> exists p :: Standing(what, np, dir)(p, e)
  {
    var places := WalkInOrder(what, np, dir);
    if p :| Standing(what, np, dir)(p, e) {
      var i := PlaceIndex(what, np, dir, places, p, e);
    }
    if e in Walk(what, np, dir) {
      var i :| 0 <= i < |places| && Walk(what, np, dir)[i] == e;
      assert Standing(what, np, dir)(places[i], e);
    }
  }

  lemma PlaceIndex(what: What, np: cstring, dir: Dir, places: seq<seq<nat>>, p: seq<nat>, e: Entry) returns (i: nat)
    requires Readable(what, dir) && Pairwise(Standing(what, np, dir), places, Walk(what, np, dir))
    requires (forall p :: p in places <==> HasProp(dir, p)) && Standing(what, np, dir)(p, e)
    ensures i < |places| && places[i] == p && Walk(what, np, dir)[i] == e
  {
    i :| 0 <= i < |places| && places[i] == p;
    assert Standing(what, np, dir)(places[i], Walk(what, np, dir)[i]);
    SameEntry(what, np, dir, p, e, Walk(what, np, dir)[i]);
  }

  lemma SameEntry(what: What, np: cstring, dir: Dir, p: seq<nat>, d: Entry, e: Entry)
    requires Stands(what, np, dir, p, d) && Stands(what, np, dir, p, e)
    ensures d == e
  {
  }

  /** After the walk and the sort, a handle is found exactly if a property says it, and then
      at the earliest place that does. */
  lemma HandleAtEarliest(np: cstring, dir: Dir, v: uint32) returns (p: seq<nat>)
    requires Readable(Phandle, dir)
    ensures
      var r := First(Sort(After(true), Walk(Phandle, np, dir)), VIs(v));
      if r.None? then forall q, e | Standing(Phandle, np, dir)(q, e) :: e.v != v
      else
        && Standing(Phandle, np, dir)(p, r.value) && r.value.v == v
        && forall q, e | Standing(Phandle, np, dir)(q, e) && e.v == v :: q == p || Earlier(p, q)
  {
    PhandleFirstInserted(Walk(Phandle, np, dir), v);
    p := [];
    if First(Walk(Phandle, np, dir), VIs(v)).None? {
      forall q, e | Standing(Phandle, np, dir)(q, e)
        ensures e.v != v
      {
        WalkMembers(Phandle, np, dir, e);
      }
    } else {
      p := FirstPlace(np, dir, v);
    }
  }

  lemma FirstPlace(np: cstring, dir: Dir, v: uint32) returns (p: seq<nat>)
    requires Readable(Phandle, dir) && First(Walk(Phandle, np, dir), VIs(v)).Some?
    ensures
      var e := First(Walk(Phandle, np, dir), VIs(v)).value;
      Standing(Phandle, np, dir)(p, e) && e.v == v
    ensures forall q, e | Standing(Phandle, np, dir)(q, e) && e.v == v :: q == p || Earlier(p, q)
  {
    var places := WalkInOrder(Phandle, np, dir);
    var i := FirstIndex(Walk(Phandle, np, dir), VIs(v));
    p := places[i];
    forall q, e | Standing(Phandle, np, dir)(q, e) && e.v == v
      ensures q == p || Earlier(p, q)
    {
      NoneBefore(np, dir, v, places, i, q, e);
    }
  }

  lemma NoneBefore(np: cstring, dir: Dir, v: uint32, places: seq<seq<nat>>, i: nat, q: seq<nat>, e: Entry)
    requires Readable(Phandle, dir)
    requires Increasing(Earlier, places) && forall p :: p in places <==> HasProp(dir, p)
    requires Pairwise(Standing(Phandle, np, dir), places, Walk(Phandle, np, dir))
    requires i < |places| && forall j | 0 <= j < i :: !VIs(v)(Walk(Phandle, np, dir)[j])
    requires Standing(Phandle, np, dir)(q, e) && e.v == v
    ensures q == places[i] || Earlier(places[i], q)
  {
    var j := PlaceIndex(Phandle, np, dir, places, q, e);
    assert VIs(v)(Walk(Phandle, np, dir)[j]);
  }

  // ----- aliases and symbols -----

  /** A property that is a string starting with `/`. */
  predicate IsPathProp(p: AliasProp) { p.isString && p.data != [] && p.data[0] == '/' }

  predicate Before(i: nat, j: nat) { i < j }

  /** The positions of the properties that are paths, all of them, in order. */
  ghost predicate PathProps(props: seq<AliasProp>, places: seq<nat>) {
    && Increasing(Before, places)
    && forall k: nat :: k in places <==> k < |props| && IsPathProp(props[k])
  }

  /** The name of the property is the label, its text the path. */
  function Labelling(props: seq<AliasProp>): (nat, Entry) -> bool {
    (k: nat, e: Entry) => k < |props| && e == Entry(0, Some(props[k].name), Some(props[k].data))
  }

  /** Reading a directory of labels finds exactly the properties that are paths, in their
      order: the name as label, the text as path. */
  lemma {:induction false} AliasesInOrder(props: seq<AliasProp>) returns (places: seq<nat>)
    ensures PathProps(props, places) && Pairwise(Labelling(props), places, AliasEntries(props))
  {
    if props == [] {
      places := [];
    } else {
      var last := |props| - 1;
      var front, p := props[..last], props[last];
      places := AliasesInOrder(front);
      MoreLabelling(front, p, places, AliasEntries(front));
      assert props == front + [p];
      var more: seq<nat> := if IsPathProp(p) then [last] else [];
      var found: seq<Entry> := if IsPathProp(p) then [Entry(0, Some(p.name), Some(p.data))] else [];
      PairwiseAppend(Labelling(props), places, AliasEntries(front), more, found);
      MorePathProps(front, p, places);
      places := places + more;
    }
  }

  lemma MoreLabelling(props: seq<AliasProp>, p: AliasProp, places: seq<nat>, s: seq<Entry>)
    requires Pairwise(Labelling(props), places, s)
    ensures Pairwise(Labelling(props + [p]), places, s)
  {
    forall i | 0 <= i < |places|
      ensures Labelling(props + [p])(places[i], s[i])
    {
      assert Labelling(props)(places[i], s[i]);
    }
  }

  lemma MorePathProps(props: seq<AliasProp>, p: AliasProp, places: seq<nat>)
    requires PathProps(props, places)
    ensures PathProps(props + [p], places + if IsPathProp(p) then [|props|] else [])
  {
    var more: seq<nat> := if IsPathProp(p) then [|props|] else [];
    IncreasingAppend(Before, places, more);
  }
}
