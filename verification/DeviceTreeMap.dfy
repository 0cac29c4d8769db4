/** The linked maps of hardinfo2/dt_util.c: appended to, bubble-sorted in place, re-sorted
    at every level of a recursive walk, and searched from the front. */
module DeviceTreeMap {
  import opened CStrings
  import opened StableOrder

  type uint32 = x: int | 0 <= x < 0x1_0000_0000

  /** The C field `label` is called `alias` here. */
  datatype Entry = Entry(v: uint32, alias: Option<cstring>, path: Option<cstring>)

  function TextOf(s: Option<cstring>): cstring {
    if s.None? then [] else s.value
  }

  /** The comparison of `dtr_map_sort`: by v, or by label with `strcmp`. */
  function After(sv: bool): (Entry, Entry) -> bool {
    (a: Entry, b: Entry) =>
      if sv then a.v > b.v else StrCmp(TextOf(a.alias), TextOf(b.alias)) > 0
  }

  lemma AfterIsOrder(sv: bool)
    ensures IsOrder(After(sv))
  {
    if !sv {
      forall a: Entry, b: Entry, c: Entry
        ensures After(sv)(a, b) ==> !After(sv)(b, a)
        ensures After(sv)(a, c) ==> After(sv)(a, b) || After(sv)(b, c)
      {
        StrCmpOrder(TextOf(a.alias), TextOf(b.alias), TextOf(c.alias));
      }
    }
  }

  // ----- linked nodes -----

  class DtrMap {
    var v: uint32
    var alias: Option<cstring>
    var path: Option<cstring>
    var next: DtrMap?
    ghost var pos: nat  // the node's place in its list

    constructor (v: uint32, alias: Option<cstring>, path: Option<cstring>, ghost pos: nat)
      ensures Read() == Entry(v, alias, path) && next == null && this.pos == pos
    {
      this.v, this.alias, this.path, next, this.pos := v, alias, path, null, pos;
    }

    ghost function Read(): Entry
      reads this
    {
      Entry(v, alias, path)
    }
  }

  ghost function NodeAt(nodes: seq<DtrMap>, i: nat): DtrMap? {
    if i < |nodes| then nodes[i] else null
  }

  /** From `head`, the `next` pointers run through `nodes`. */
  ghost predicate Chain(head: DtrMap?, nodes: seq<DtrMap>)
    reads nodes
  {
    && head == NodeAt(nodes, 0)
    && (forall i {:trigger nodes[i].pos} | 0 <= i < |nodes| :: nodes[i].pos == i)
    && (forall i {:trigger nodes[i].next} | 0 <= i < |nodes| :: nodes[i].next == NodeAt(nodes, i + 1))
  }

  ghost function Contents(nodes: seq<DtrMap>): (s: seq<Entry>)
    reads nodes
    ensures |s| == |nodes|
    ensures forall i {:trigger s[i]} | 0 <= i < |nodes| :: s[i] == nodes[i].Read()
  {
    seq(|nodes|, i requires 0 <= i < |nodes| reads nodes => nodes[i].Read())
  }

  method DtrMapAdd(head: DtrMap?, v: uint32, alias: Option<cstring>, path: Option<cstring>,
                   ghost nodes: seq<DtrMap>)
      returns (nmap: DtrMap)
    requires Chain(head, nodes)
    modifies if nodes == [] then {} else {nodes[|nodes| - 1]}
    ensures fresh(nmap) && nmap.Read() == Entry(v, alias, path)
    ensures Chain(if head == null then nmap else head, nodes + [nmap])
    ensures Contents(nodes + [nmap]) == old(Contents(nodes)) + [Entry(v, alias, path)]
  {
    nmap := new DtrMap(v, alias, path, |nodes|);
    if head == null {
      return;
    }
    var it: DtrMap := head;
    ghost var i := 0;
    while it.next != null
      invariant 0 <= i < |nodes| && it == nodes[i]
      invariant Chain(head, nodes)
      invariant it.next == NodeAt(nodes, i + 1)
      decreases |nodes| - i
    {
      it := it.next;
      i := i + 1;
    }
    it.next := nmap;
  }

  // ----- the bubble sort -----

  /** Nothing up to position `t` belongs behind anything after it, where all is in order. */
  ghost predicate TailDone(gt: (Entry, Entry) -> bool, s: seq<Entry>, t: int) {
    forall a, b | 0 <= a < b < |s| && t < b :: !gt(s[a], s[b])
  }

  /** During a pass: `s[i]` is a maximum of what precedes it, and all is in order after `j`,
      the position of the last exchange. */
  ghost predicate PassSoFar(gt: (Entry, Entry) -> bool, s: seq<Entry>, t: int, i: int, j: int) {
    && -1 <= j < i <= t < |s|
    && TailDone(gt, s, t)
    && (forall a | 0 <= a < i :: !gt(s[a], s[i]))
    && (forall a, b | 0 <= a < b <= i && j < b :: !gt(s[a], s[b]))
  }

  /** The same, with the ties of `orig` still in their order. */
  ghost predicate PassState(sv: bool, orig: seq<Entry>, s: seq<Entry>, t: int, i: int, j: int) {
    && PassSoFar(After(sv), s, t, i, j)
    && SameClasses(After(sv), s, orig)
    && (!sv ==> Labelled(s))
  }

  ghost predicate Labelled(s: seq<Entry>) {
    forall i | 0 <= i < |s| :: s[i].alias.Some?
  }

  function Exchanged(s: seq<Entry>, i: nat): seq<Entry>
    requires i + 1 < |s|
  {
    s[i := s[i + 1]][i + 1 := s[i]]
  }

  lemma ExchangeLabelled(s: seq<Entry>, i: nat)
    requires i + 1 < |s|
    ensures Labelled(s) ==> Labelled(Exchanged(s, i))
  {
  }

  lemma ExchangeStep(gt: (Entry, Entry) -> bool, s: seq<Entry>, t: int, i: int, j: int)
    requires IsOrder(gt) && PassSoFar(gt, s, t, i, j) && i < t && gt(s[i], s[i + 1])
    ensures PassSoFar(gt, Exchanged(s, i), t, i + 1, i)
    ensures SameClasses(gt, Exchanged(s, i), s)
  {
    SwapClass(gt, s[..i], s[i], s[i + 1], s[i + 2..]);
    assert s == s[..i] + [s[i], s[i + 1]] + s[i + 2..];
    assert Exchanged(s, i) == s[..i] + [s[i + 1], s[i]] + s[i + 2..];
  }

  lemma AdvanceStep(gt: (Entry, Entry) -> bool, s: seq<Entry>, t: int, i: int, j: int)
    requires IsOrder(gt) && PassSoFar(gt, s, t, i, j) && i < t && !gt(s[i], s[i + 1])
    ensures PassSoFar(gt, s, t, i + 1, j)
  {
  }

  /** The nodes hold `s`. */
  ghost predicate Hold(nodes: seq<DtrMap>, s: seq<Entry>)
    reads nodes
  {
    |s| == |nodes| && forall k | 0 <= k < |nodes| :: s[k] == Entry(nodes[k].v, nodes[k].alias, nodes[k].path)
  }

  /** Compares two neighbouring nodes and, if they are in the wrong order, exchanges what
      they hold; the nodes themselves stay linked. */
  method CompareNodes(node: DtrMap, next: DtrMap, sv: bool, ghost nodes: seq<DtrMap>,
                      ghost s: seq<Entry>, ghost i: nat)
      returns (exchanged: bool)
    requires Hold(nodes, s) && i + 1 < |nodes| && node == nodes[i] && next == nodes[i + 1]
    requires forall k | 0 <= k < |nodes| :: nodes[k].pos == k
    requires !sv ==> s[i].alias.Some? && s[i + 1].alias.Some?
    modifies node`v, node`alias, node`path, next`v, next`alias, next`path
    ensures exchanged == After(sv)(s[i], s[i + 1])
    ensures Hold(nodes, if exchanged then Exchanged(s, i) else s)
  {
    assert s[i] == node.Read() && s[i + 1] == next.Read();
    var cmp := if sv then if node.v > next.v then 1 else 0
               else StrCmp(node.alias.value, next.alias.value);
    exchanged := cmp > 0;
    if exchanged {
      node.v, next.v := next.v, node.v;
      node.alias, next.alias := next.alias, node.alias;
      node.path, next.path := next.path, node.path;
    }
  }

  lemma PassStep(sv: bool, orig: seq<Entry>, s: seq<Entry>, t: int, i: int, j: int)
    requires PassState(sv, orig, s, t, i, j) && i < t
    ensures
      var exchanged := After(sv)(s[i], s[i + 1]);
      PassState(sv, orig, if exchanged then Exchanged(s, i) else s, t, i + 1, if exchanged then i else j)
  {
    AfterIsOrder(sv);
    if After(sv)(s[i], s[i + 1]) {
      ExchangeStep(After(sv), s, t, i, j);
    } else {
      AdvanceStep(After(sv), s, t, i, j);
    }
  }

  /** One pass over the contents from `i` up to `t`, and where its last exchange was. */
  function PassFrom(sv: bool, s: seq<Entry>, t: nat, i: nat, j: int): (r: (seq<Entry>, int))
    requires i <= t < |s|
    ensures |r.0| == |s|
    decreases t - i
  {
    if i == t then (s, j)
    else if After(sv)(s[i], s[i + 1]) then PassFrom(sv, Exchanged(s, i), t, i + 1, i)
    else PassFrom(sv, s, t, i + 1, j)
  }

  lemma {:induction false} PassFromState(sv: bool, orig: seq<Entry>, s: seq<Entry>, t: nat, i: nat, j: int)
    requires PassState(sv, orig, s, t, i, j)
    ensures
      var (s', j') := PassFrom(sv, s, t, i, j);
      PassState(sv, orig, s', t, t, j')
    decreases t - i
  {
    if i < t {
      PassStep(sv, orig, s, t, i, j);
      if After(sv)(s[i], s[i + 1]) {
        PassFromState(sv, orig, Exchanged(s, i), t, i + 1, i);
      } else {
        PassFromState(sv, orig, s, t, i + 1, j);
      }
    }
  }

  /** Between two passes: everything after `t` is in its final place. */
  ghost predicate SortState(sv: bool, orig: seq<Entry>, s: seq<Entry>, t: int) {
    SameClasses(After(sv), s, orig) && TailDone(After(sv), s, t) && (!sv ==> Labelled(s))
  }

  /** A pass settles everything after its last exchange. */
  lemma PassSettles(sv: bool, orig: seq<Entry>, s: seq<Entry>, t: nat)
    requires t < |s| && SortState(sv, orig, s, t)
    ensures
      var (s', j) := PassFrom(sv, s, t, 0, -1);
      -1 <= j < t && SortState(sv, orig, s', j)
  {
    PassFromState(sv, orig, s, t, 0, -1);
  }

  lemma SortStarts(sv: bool, s: seq<Entry>)
    requires !sv ==> Labelled(s)
    ensures SortState(sv, s, s, |s| - 1)
  {
  }

  lemma SortEnds(sv: bool, orig: seq<Entry>, s: seq<Entry>)
    requires SortState(sv, orig, s, -1)
    ensures s == Sort(After(sv), orig)
  {
    AfterIsOrder(sv);
    SortCharacterised(After(sv), orig, s);
  }

  /** One pass up to `top`, which is node `t`, or the last node if there is no `top`. */
  method Pass(head: DtrMap, sv: bool, top: DtrMap?, ghost nodes: seq<DtrMap>,
              ghost s: seq<Entry>, ghost t: nat)
      returns (next_top: DtrMap?, ghost s': seq<Entry>, ghost j: int)
    requires Chain(head, nodes) && t < |nodes| && Hold(nodes, s)
    requires if top == null then t == |nodes| - 1 else top == nodes[t]
    requires !sv ==> Labelled(s)
    modifies nodes`v, nodes`alias, nodes`path
    ensures Hold(nodes, s') && (s', j) == PassFrom(sv, s, t, 0, -1)
    ensures if j == -1 then next_top == null else 0 <= j < |nodes| && next_top == nodes[j]
  {
    var node: DtrMap? := head;
    next_top, s', j := null, s, -1;
    ghost var i := 0;
    while node != null
      invariant 0 <= i <= t && node == nodes[i]
      invariant Hold(nodes, s') && (!sv ==> Labelled(s'))
      invariant PassFrom(sv, s', t, i, j) == PassFrom(sv, s, t, 0, -1)
      invariant if j == -1 then next_top == null else 0 <= j < i && next_top == nodes[j]
      decreases t - i
    {
      var next := node.next;
      assert next == NodeAt(nodes, i + 1);
      assert nodes[i].pos == i && nodes[t].pos == t;
      if node == top || next == null {
        assert i == t;
        break;
      }
      ExchangeLabelled(s', i);
      var exchanged := CompareNodes(node, next, sv, nodes, s', i);
      if exchanged {
        next_top, j := node, i;
        s' := Exchanged(s', i);
      }
      node := next;
      i := i + 1;
    }
  }

  method DtrMapSort(head: DtrMap?, sv: bool, ghost nodes: seq<DtrMap>)
    requires Chain(head, nodes)
    requires !sv ==> Labelled(Contents(nodes))
    modifies nodes`v, nodes`alias, nodes`path
    ensures Chain(head, nodes)
    ensures Contents(nodes) == Sort(After(sv), old(Contents(nodes)))
  {
    if head == null {
      return;
    }
    var done, top: DtrMap? := false, null;
    ghost var s, t := Contents(nodes), |nodes| - 1;
    ghost var orig := s;
    SortStarts(sv, s);
    while !done
      invariant Chain(head, nodes) && Hold(nodes, s) && 0 <= t < |nodes|
      invariant if top == null then t == |nodes| - 1 else top == nodes[t]
      invariant SortState(sv, orig, s, if done then -1 else t)
      decreases t + if done then 0 else 1
    {
      var next_top, s', j := Pass(head, sv, top, nodes, s, t);
      assert -1 <= j < t && SortState(sv, orig, s', j) by {
        PassSettles(sv, orig, s, t);
      }
      s := s';
      if next_top == null {
        done := true;
      } else {
        top := next_top;
        t := j;
      }
    }
    SortEnds(sv, orig, s);
    HoldContents(nodes, s);
  }

  lemma HoldContents(nodes: seq<DtrMap>, s: seq<Entry>)
    requires Hold(nodes, s)
    ensures Contents(nodes) == s
  {
  }

  // ----- searching -----

  /** The first entry with a property. */
  function First(s: seq<Entry>, p: Entry -> bool): (r: Option<Entry>)
    ensures r.None? ==> forall e <- s :: !p(e)
    ensures r.Some? ==> exists i | 0 <= i < |s| :: s[i] == r.value && p(s[i]) && forall e <- s[..i] :: !p(e)
  {
    if s == [] then None
    else
      var last := |s| - 1;
      var earlier := First(s[..last], p);
      assert s == s[..last] + [s[last]];
      if earlier.Some? then
        assert forall i | 0 <= i < last :: s[..last][i] == s[i] && s[..last][..i] == s[..i];
        earlier
      else if p(s[last]) then Some(s[last])
      else None
  }

  lemma FirstIndex(s: seq<Entry>, p: Entry -> bool) returns (i: nat)
    requires First(s, p).Some?
    ensures i < |s| && s[i] == First(s, p).value && p(s[i]) && forall j | 0 <= j < i :: !p(s[j])
  {
    i :| 0 <= i < |s| && s[i] == First(s, p).value && p(s[i]) && forall e <- s[..i] :: !p(e);
    assert forall j | 0 <= j < i :: s[j] == s[..i][j];
  }

  lemma {:induction false} FirstExtends(s: seq<Entry>, n: nat, p: Entry -> bool)
    requires n <= |s| && First(s[..n], p).Some?
    ensures First(s, p) == First(s[..n], p)
  {
    if n < |s| {
      var front := s[..|s| - 1];
      assert front[..n] == s[..n];
      FirstExtends(front, n, p);
    } else {
      assert s[..n] == s;
    }
  }

  function VIs(v: uint32): Entry -> bool { (e: Entry) => e.v == v }

  function AliasIs(alias: cstring): Entry -> bool {
    (e: Entry) => StrCmp(TextOf(e.alias), alias) == 0
  }

  function PathIs(path: cstring): Entry -> bool {
    (e: Entry) => StrCmp(TextOf(e.path), path) == 0
  }

  method DtrPhandleLookup(phandles: DtrMap?, v: uint32, ghost nodes: seq<DtrMap>) returns (r: Option<cstring>)
    requires Chain(phandles, nodes)
    ensures r ==
      if v == 0 || v == 0xffff_ffff then None
      else match First(Contents(nodes), VIs(v)) case None => None case Some(e) => e.path
  {
    if v == 0 || v == 0xffff_ffff {
      return None;
    }
    var phi := phandles;
    ghost var i := 0;
    while phi != null
      invariant 0 <= i <= |nodes| && phi == NodeAt(nodes, i)
      invariant First(Contents(nodes)[..i], VIs(v)) == None
      decreases |nodes| - i
    {
      assert Contents(nodes)[..i + 1][..i] == Contents(nodes)[..i];
      if phi.v == v {
        FirstExtends(Contents(nodes), i + 1, VIs(v));
        return phi.path;
      }
      phi := phi.next;
      i := i + 1;
    }
    assert Contents(nodes)[..i] == Contents(nodes);
    return None;
  }

  method DtrAliasLookup(aliases: DtrMap?, alias: cstring, ghost nodes: seq<DtrMap>) returns (r: Option<cstring>)
    requires Chain(aliases, nodes) && Labelled(Contents(nodes))
    ensures r == match First(Contents(nodes), AliasIs(alias)) case None => None case Some(e) => e.path
  {
    var ali := aliases;
    ghost var i := 0;
    while ali != null
      invariant 0 <= i <= |nodes| && ali == NodeAt(nodes, i)
      invariant First(Contents(nodes)[..i], AliasIs(alias)) == None
      decreases |nodes| - i
    {
      assert Contents(nodes)[..i + 1][..i] == Contents(nodes)[..i];
      assert Contents(nodes)[i] == ali.Read();
      if StrCmp(ali.alias.value, alias) == 0 {
        FirstExtends(Contents(nodes), i + 1, AliasIs(alias));
        return ali.path;
      }
      ali := ali.next;
      i := i + 1;
    }
    assert Contents(nodes)[..i] == Contents(nodes);
    return None;
  }

  /** Also `dtr_symbol_lookup_by_path`, which differs in the list it is given. */
  method DtrAliasLookupByPath(aliases: DtrMap?, path: cstring, ghost nodes: seq<DtrMap>)
      returns (r: Option<cstring>)
    requires Chain(aliases, nodes) && forall e <- Contents(nodes) :: e.path.Some?
    ensures r == match First(Contents(nodes), PathIs(path)) case None => None case Some(e) => e.alias
  {
    var ali := aliases;
    ghost var i := 0;
    while ali != null
      invariant 0 <= i <= |nodes| && ali == NodeAt(nodes, i)
      invariant First(Contents(nodes)[..i], PathIs(path)) == None
      decreases |nodes| - i
    {
      assert Contents(nodes)[..i + 1][..i] == Contents(nodes)[..i];
      assert Contents(nodes)[i] == ali.Read() && ali.Read() in Contents(nodes);
      if StrCmp(ali.path.value, path) == 0 {
        FirstExtends(Contents(nodes), i + 1, PathIs(path));
        return ali.alias;
      }
      ali := ali.next;
      i := i + 1;
    }
    assert Contents(nodes)[..i] == Contents(nodes);
    return None;
  }

  // ----- any interleaving of adding and sorting -----

  datatype Op = Add(e: Entry) | Resort

  /** The list after a run of `dtr_map_add` and `dtr_map_sort` calls. */
  function RunOps(sv: bool, ops: seq<Op>): seq<Entry> {
    if ops == [] then []
    else
      var before := RunOps(sv, ops[..|ops| - 1]);
      match ops[|ops| - 1]
      case Add(e) => before + [e]
      case Resort => Sort(After(sv), before)
  }

  function Added(ops: seq<Op>): seq<Entry> {
    if ops == [] then []
    else
      var before := Added(ops[..|ops| - 1]);
      match ops[|ops| - 1]
      case Add(e) => before + [e]
      case Resort => before
  }

  /** However sorts are interleaved, ties stay in insertion order; ending in a sort, the
      list is the stable sort of everything inserted. */
  lemma {:induction false} InterleavingHarmless(sv: bool, ops: seq<Op>)
    ensures SameClasses(After(sv), RunOps(sv, ops), Added(ops))
    ensures ops != [] && ops[|ops| - 1] == Resort ==> RunOps(sv, ops) == Sort(After(sv), Added(ops))
  {
    AfterIsOrder(sv);
    if ops != [] {
      var before := ops[..|ops| - 1];
      InterleavingHarmless(sv, before);
      match ops[|ops| - 1]
      case Add(e) =>
        SortCongruent(After(sv), RunOps(sv, before), Added(before), [e]);
      case Resort =>
        SortIsStable(After(sv), RunOps(sv, before));
        SortCharacterised(After(sv), Added(before), RunOps(sv, ops));
    }
  }

  /** Entries a search cannot tell apart tie, so what is found depends on ties alone. */
  lemma {:induction false} FirstInClass(sv: bool, s: seq<Entry>, p: Entry -> bool, k: Entry)
    requires forall e: Entry :: p(e) <==> Tie(After(sv), e, k)
    ensures First(s, p) == var c := Class(After(sv), s, k); if c == [] then None else Some(c[0])
  {
    if s != [] {
      FirstInClass(sv, s[..|s| - 1], p, k);
    }
  }

  /** A phandle lookup after the sort finds the entry inserted first. */
  lemma PhandleFirstInserted(s: seq<Entry>, v: uint32)
    ensures First(Sort(After(true), s), VIs(v)) == First(s, VIs(v))
  {
    AfterIsOrder(true);
    SortIsStable(After(true), s);
    var k := Entry(v, None, None);
    FirstInClass(true, s, VIs(v), k);
    FirstInClass(true, Sort(After(true), s), VIs(v), k);
    assert Class(After(true), Sort(After(true), s), k) == Class(After(true), s, k);
  }

  /** An alias lookup after the sort finds the entry inserted first. */
  lemma AliasFirstInserted(s: seq<Entry>, alias: cstring)
    ensures First(Sort(After(false), s), AliasIs(alias)) == First(s, AliasIs(alias))
  {
    AfterIsOrder(false);
    SortIsStable(After(false), s);
    var k := Entry(0, Some(alias), None);
    forall e: Entry
      ensures AliasIs(alias)(e) <==> Tie(After(false), e, k)
    {
      StrCmpOrder(TextOf(e.alias), alias, alias);
    }
    FirstInClass(false, s, AliasIs(alias), k);
    FirstInClass(false, Sort(After(false), s), AliasIs(alias), k);
    assert Class(After(false), Sort(After(false), s), k) == Class(After(false), s, k);
  }

  /** In a sorted list, the first entry with a property is a least one. */
  lemma FirstIsLeast(gt: (Entry, Entry) -> bool, t: seq<Entry>, p: Entry -> bool, e: Entry)
    requires IsOrder(gt) && Sorted(gt, t) && e in t && p(e)
    ensures First(t, p).Some? && First(t, p).value in t && p(First(t, p).value)
    ensures !gt(First(t, p).value, e)
  {
    var r := First(t, p).value;
    var i :| 0 <= i < |t| && t[i] == r && p(t[i]) && forall x <- t[..i] :: !p(x);
    var j :| 0 <= j < |t| && t[j] == e;
    assert forall k | 0 <= k < i :: t[..i][k] == t[k];
  }

  /** A lookup by path after the sort finds, of all aliases of that path, the first in the
      order of bytes. */
  lemma AliasByPathIsLeast(s: seq<Entry>, path: cstring)
    ensures
      var r := First(Sort(After(false), s), PathIs(path));
      if r.None? then forall e <- s :: TextOf(e.path) != path
      else
        && r.value in s && TextOf(r.value.path) == path
        && forall e <- s | TextOf(e.path) == path :: !BytesBefore(TextOf(e.alias), TextOf(r.value.alias))
  {
    var t := Sort(After(false), s);
    AfterIsOrder(false);
    SortIsStable(After(false), s);
    var r := First(t, PathIs(path));
    forall e <- s | TextOf(e.path) == path
      ensures r.Some? && !BytesBefore(TextOf(e.alias), TextOf(r.value.alias))
    {
      StrCmpOrder(path, path, path);
      assert e in multiset(s);
      FirstIsLeast(After(false), t, PathIs(path), e);
      StrCmpBytes(TextOf(e.alias), TextOf(r.value.alias));
      StrCmpOrder(TextOf(e.alias), TextOf(r.value.alias), []);
    }
    if r.Some? {
      assert r.value in multiset(t);
      StrCmpOrder(TextOf(r.value.path), path, []);
    }
  }

  /** What sorted means: by number, or by the bytes of the labels. */
  lemma SortedOrder(sv: bool, s: seq<Entry>, i: nat, j: nat)
    requires i < j < |s|
    ensures
      var t := Sort(After(sv), s);
      if sv then t[i].v <= t[j].v else !BytesBefore(TextOf(t[j].alias), TextOf(t[i].alias))
  {
    var t := Sort(After(sv), s);
    AfterIsOrder(sv);
    SortIsStable(After(sv), s);
    assert !After(sv)(t[i], t[j]);
    var x, y := TextOf(t[i].alias), TextOf(t[j].alias);
    StrCmpOrder(x, y, []);
    StrCmpBytes(y, x);
  }
}
