/** Filling the maps: `_dtr_map_it` walks the tree and re-sorts after every directory,
    `_dtr_read_aliases` and `_dtr_read_symbols` read one directory. */
module DeviceTreeWalk {
  import opened CStrings
  import opened Seqs
  import opened StableOrder
  import opened DeviceTreeMap

  /** A directory of the device tree: its name, the 32-bit words of the property being
      collected, if it has one, and its sub-directories in the order they are read. */
  datatype Dir = Dir(name: cstring, prop: Option<seq<uint32>>, subdirs: seq<Dir>)

  datatype What = Phandle | Interrupts

  /** The words the C code reads are there. */
  predicate WordsOk(what: What, words: seq<uint32>) {
    if what.Phandle? then |words| >= 1 else |words| == 1 || |words| >= 3
  }

  predicate Readable(what: What, dir: Dir) {
    forall i | 0 <= i < |dir.subdirs| ::
      && (dir.subdirs[i].prop.Some? ==> WordsOk(what, dir.subdirs[i].prop.value))
      && Readable(what, dir.subdirs[i])
  }

  function SubPath(np: cstring, name: cstring): cstring { np + ['/'] + name }

  function Trigger(flag: uint32): cstring {
    if flag == 1 then " (Rising Edge)"
    else if flag == 2 then " (Falling Edge)"
    else if flag == 4 then " (Activ High)"
    else if flag == 8 then " (Activ Low)"
    else []
  }

  /** What a property adds to the map. */
  function EntryOf(what: What, words: seq<uint32>, path: cstring): Entry
    requires WordsOk(what, words)
  {
    if what.Interrupts? && |words| > 1 then Entry(words[1], None, Some(path + Trigger(words[2])))
    else Entry(words[0], None, Some(path))
  }

  function OwnEntry(what: What, dir: Dir, path: cstring): seq<Entry>
    requires dir.prop.Some? ==> WordsOk(what, dir.prop.value)
  {
    if dir.prop.Some? then [EntryOf(what, dir.prop.value, path)] else []
  }

  /** The entries below the first `n` sub-directories, parents before children. */
  function WalkFirst(what: What, np: cstring, dir: Dir, n: nat): seq<Entry>
    requires Readable(what, dir) && n <= |dir.subdirs|
    decreases dir, n
  {
    if n == 0 then []
    else
      var sub := dir.subdirs[n - 1];
      var path := SubPath(np, sub.name);
      WalkFirst(what, np, dir, n - 1) + OwnEntry(what, sub, path) + Walk(what, path, sub)
  }

  /** The entries of the whole tree below `dir`, in pre-order. */
  function Walk(what: What, np: cstring, dir: Dir): seq<Entry>
    requires Readable(what, dir)
    decreases dir, |dir.subdirs| + 1
  {
    WalkFirst(what, np, dir, |dir.subdirs|)
  }

  /** A property of `/aliases` or `/__symbols__`. */
  datatype AliasProp = AliasProp(name: cstring, isString: bool, data: cstring)

  function AliasEntries(props: seq<AliasProp>): (s: seq<Entry>)
    ensures Labelled(s) && forall e <- s :: e.path.Some?
  {
    if props == [] then []
    else
      var p := props[|props| - 1];
      AliasEntries(props[..|props| - 1])
      + if p.isString && At(p.data, 0) == '/' then [Entry(0, Some(p.name), Some(p.data))] else []
  }

  /** One of the `dtr_map *` fields of the device tree object, with the nodes it leads to. */
  class MapField {
    var head: DtrMap?
    ghost var nodes: seq<DtrMap>
    ghost var repr: set<object>

    ghost predicate Valid()
      reads this, repr
      ensures Valid() ==> this in repr
    {
      this in repr && (forall n <- nodes :: n in repr) && Chain(head, nodes)
    }

    ghost function List(): seq<Entry>
      requires Valid()
      reads this, repr
    {
      Contents(nodes)
    }

    constructor ()
      ensures Valid() && fresh(repr) && List() == []
    {
      head, nodes, repr := null, [], {this};
    }

    method Append(v: uint32, alias: Option<cstring>, path: Option<cstring>) returns (ph: DtrMap)
      requires Valid()
      modifies repr
      ensures Valid() && fresh(repr - old(repr)) && nodes == old(nodes) + [ph] && ph in repr
      ensures List() == old(List()) + [Entry(v, alias, path)]
      ensures ph.Read() == Entry(v, alias, path)
    {
      ph := DtrMapAdd(head, v, alias, path, nodes);
      if head == null {
        head := ph;
      }
      nodes, repr := nodes + [ph], repr + {ph};
    }

    method Resort(sv: bool)
      requires Valid() && (!sv ==> Labelled(List()))
      modifies repr
      ensures Valid() && repr == old(repr)
      ensures List() == Sort(After(sv), old(List()))
    {
      DtrMapSort(head, sv, nodes);
    }

    /** Appends the trigger mode to the path of a new entry. */
    static method Decorate(ph: DtrMap, flag: uint32)
      requires ph.path.Some?
      modifies ph`path
      ensures ph.path == Some(old(ph.path.value) + Trigger(flag))
    {
      if flag == 1 {
        ph.path := Some(ph.path.value + " (Rising Edge)");
      }
      if flag == 2 {
        ph.path := Some(ph.path.value + " (Falling Edge)");
      }
      if flag == 4 {
        ph.path := Some(ph.path.value + " (Activ High)");
      }
      if flag == 8 {
        ph.path := Some(ph.path.value + " (Activ Low)");
      }
      assert old(ph.path.value) + [] == old(ph.path.value);
    }

    method DecorateLast(ph: DtrMap, flag: uint32)
      requires Valid() && nodes != [] && ph == nodes[|nodes| - 1] && ph.path.Some?
      modifies ph`path
      ensures Valid() && ph.path == Some(old(ph.path.value) + Trigger(flag))
      ensures List() == old(List())[..|nodes| - 1] + [ph.Read()]
    {
      Decorate(ph, flag);
      ghost var s, t := old(List()), Contents(nodes);
      forall i | 0 <= i < |nodes| - 1
        ensures t[i] == s[i]
      {
        assert nodes[i].pos == i && ph.pos == |nodes| - 1;
      }
    }

    method AppendDecorated(v: uint32, path: cstring, flag: uint32)
      requires Valid()
      modifies repr
      ensures Valid() && fresh(repr - old(repr))
      ensures List() == old(List()) + [Entry(v, None, Some(path + Trigger(flag)))]
    {
      var ph := Append(v, None, Some(path));
      assert List()[..|nodes| - 1] == old(List());
      DecorateLast(ph, flag);
    }

    /** Adds the property of one directory. */
    method Record(what: What, words: seq<uint32>, ntmp: cstring)
      requires Valid() && WordsOk(what, words)
      modifies repr
      ensures Valid() && List() == old(List()) + [EntryOf(what, words, ntmp)]
      ensures fresh(repr - old(repr))
    {
      if what.Interrupts? && |words| > 1 {
        AppendDecorated(words[1], ntmp, words[2]);
      } else {
        var _ := Append(words[0], None, Some(ntmp));
      }
    }

    /** One sub-directory: its own property, then everything below it. */
    method Visit(dir: Dir, i: nat, np: cstring, what: What, ghost orig: seq<Entry>)
      requires Valid() && Readable(what, dir) && i < |dir.subdirs|
      requires SameClasses(After(true), List(), orig + WalkFirst(what, np, dir, i))
      modifies repr
      ensures Valid() && fresh(repr - old(repr))
      ensures SameClasses(After(true), List(), orig + WalkFirst(what, np, dir, i + 1))
      decreases dir, 0
    {
      ghost var before := List();
      var sub := dir.subdirs[i];
      var ntmp := SubPath(np, sub.name);
      if sub.prop.Some? {
        Record(what, sub.prop.value, ntmp);
      }
      assert List() == before + OwnEntry(what, sub, ntmp);
      MapIt(sub, ntmp, what);
      WalkStep(what, np, dir, i, orig, before, List());
    }

    /** Walks the tree below `dir`, adding entries and re-sorting at the end of every
        directory: the list ends up as one stable sort of everything met in pre-order. */
    method MapIt(dir: Dir, np: cstring, what: What)
      requires Valid() && Readable(what, dir)
      modifies repr
      ensures Valid() && fresh(repr - old(repr))
      ensures List() == Sort(After(true), old(List()) + Walk(what, np, dir))
      decreases dir, 2
    {
      VisitAll(dir, np, what);
      SameTiesSort(List(), old(List()) + Walk(what, np, dir));
      Resort(true);
    }

    method VisitAll(dir: Dir, np: cstring, what: What)
      requires Valid() && Readable(what, dir)
      modifies repr
      ensures Valid() && fresh(repr - old(repr))
      ensures SameClasses(After(true), List(), old(List()) + Walk(what, np, dir))
      decreases dir, 1
    {
      ghost var orig := List();
      assert orig + [] == orig;
      for i := 0 to |dir.subdirs|
        invariant Valid() && fresh(repr - old(repr))
        invariant SameClasses(After(true), List(), orig + WalkFirst(what, np, dir, i))
      {
        Visit(dir, i, np, what, orig);
      }
    }

    /** Reads the properties of one directory into an empty field, and sorts by label. */
    method ReadAliases(props: seq<AliasProp>)
      requires Valid() && List() == []
      modifies repr
      ensures Valid() && List() == Sort(After(false), AliasEntries(props))
    {
      for i := 0 to |props|
        invariant Valid() && List() == AliasEntries(props[..i])
        invariant fresh(repr - old(repr))
      {
        var prop := props[i];
        assert props[..i + 1][..i] == props[..i];
        if prop.isString && At(prop.data, 0) == '/' {
          var _ := Append(0, Some(prop.name), Some(prop.data));
        }
      }
      assert props[..|props|] == props;
      Resort(false);
    }
  }

  lemma SameTiesSort(s: seq<Entry>, t: seq<Entry>)
    requires SameClasses(After(true), s, t)
    ensures Sort(After(true), s) == Sort(After(true), t)
  {
    AfterIsOrder(true);
    SortCongruent(After(true), s, t, []);
    assert s + [] == s && t + [] == t;
  }

  /** Recording one sub-directory and sorting keeps ties in walk order. */
  lemma WalkStep(what: What, np: cstring, dir: Dir, i: nat,
                 orig: seq<Entry>, before: seq<Entry>, now: seq<Entry>)
    requires Readable(what, dir) && i < |dir.subdirs|
    requires SameClasses(After(true), before, orig + WalkFirst(what, np, dir, i))
    requires
      var sub := dir.subdirs[i];
      var path := SubPath(np, sub.name);
      now == Sort(After(true), before + OwnEntry(what, sub, path) + Walk(what, path, sub))
    ensures SameClasses(After(true), now, orig + WalkFirst(what, np, dir, i + 1))
  {
    var sub := dir.subdirs[i];
    var path := SubPath(np, sub.name);
    var done, own, below := WalkFirst(what, np, dir, i), OwnEntry(what, sub, path), Walk(what, path, sub);
    AfterIsOrder(true);
    SortIsStable(After(true), before + own + below);
    SortCongruent(After(true), before, orig + done, own + below);
    Regroup3(before, own, below);
    Regroup3(orig, done, own + below);
    Regroup3(done, own, below);
    SameClassesTrans(now, before + own + below, orig + (done + own + below));
  }

  lemma SameClassesTrans(r: seq<Entry>, s: seq<Entry>, t: seq<Entry>)
    requires SameClasses(After(true), r, s) && SameClasses(After(true), s, t)
    ensures SameClasses(After(true), r, t)
  {
    forall e
      ensures Class(After(true), r, e) == Class(After(true), t, e)
    {
      assert Class(After(true), r, e) == Class(After(true), s, e);
    }
  }

  /** After the walk, looking up a handle gives the path of the first directory, in
      pre-order, whose phandle it is. */
  lemma WalkLookup(np: cstring, dir: Dir, v: uint32)
    requires Readable(Phandle, dir)
    ensures First(Sort(After(true), [] + Walk(Phandle, np, dir)), VIs(v)) == First(Walk(Phandle, np, dir), VIs(v))
  {
    assert [] + Walk(Phandle, np, dir) == Walk(Phandle, np, dir);
    PhandleFirstInserted(Walk(Phandle, np, dir), v);
  }
}
