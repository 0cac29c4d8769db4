/** The loops of `vendors_match_core` over its three buffers. */
module VendorSearch {
  import opened CStrings
  import opened LimitedSearch
  import opened VendorMatch

  ghost predicate Hold(p0: array<octet>, p1: array<octet>, p2: array<octet>, b: Passes)
    reads p0, p1, p2
  {
    p0[..] == b.p0 && p1[..] == b.p1 && p2[..] == b.p2
  }

  /** `g_strstrip`. */
  method Strip(buf: array<octet>)
    requires IsBuffer(buf[..])
    modifies buf
    ensures buf[..] == Chug(Chomp(old(buf[..])))
  {
    var s := Chug(Chomp(buf[..]));
    forall i | 0 <= i < buf.Length {
      buf[i] := s[i];
    }
  }

  /** Overwrites a match with spaces, then strips the buffer. */
  method BlankMatch(buf: array<octet>, from: nat, count: nat)
    requires IsBuffer(buf[..]) && from + count < buf.Length
    modifies buf
    ensures buf[..] == Blanked(old(buf[..]), from, count)
  {
    var s, e := from, from + count;
    while s < e
      invariant from <= s <= e
      invariant forall k | 0 <= k < buf.Length :: buf[k] == if from <= k < s then ' ' else old(buf[k])
    {
      buf[s] := ' ';
      s := s + 1;
    }
    ghost var b := old(buf[..]);
    assert buf[..] == b[..from] + seq(count, _ => ' ') + b[from + count..];
    Strip(buf);
  }

  /** Blanks the text in parentheses; the number of passes is 3 if there is any. */
  method BlankParensIn(buf: array<octet>, s: cstring) returns (pass: nat)
    requires buf[..] == ToBuffer(s)
    modifies buf
    ensures buf[..] == ToBuffer(BlankParens(s, 0, false))
    ensures pass == if '(' in s then 3 else 1
  {
    pass := 1;
    var p := 0;
    ghost var t: cstring := s;
    while p < |s|
      invariant p <= |s| == |t| && buf[..] == ToBuffer(t) && t[p..] == s[p..]
      invariant pass == if '(' in s[..p] then 3 else 1
      invariant BlankParens(t, p, false) == BlankParens(s, 0, false)
      decreases |s| - p
    {
      assert buf[..][p] == t[p] == t[p..][0] == s[p..][0];
      assert t[p + 1..] == t[p..][1..] == s[p + 1..];
      assert s[..p + 1] == s[..p] + [s[p]];
      if buf[p] != '(' {
        p := p + 1;
      } else {
        pass := 3;
        p := p + 1;
        while p < |s| && buf[p] != ')'
          invariant p <= |s| == |t| && buf[..] == ToBuffer(t) && t[p..] == s[p..]
          invariant '(' in s[..p]
          invariant BlankParens(t, p, true) == BlankParens(s, 0, false)
          decreases |s| - p
        {
          assert buf[..][p] == t[p];
          assert t[p := ' '][p + 1..] == t[p..][1..] == s[p..][1..] == s[p + 1..];
          assert s[..p + 1] == s[..p] + [s[p]];
          buf[p] := ' ';
          t := t[p := ' '];
          assert buf[..] == ToBuffer(t);
          p := p + 1;
        }
        assert p < |s| ==> buf[..][p] == t[p];
      }
    }
    assert s[..p] == s;
  }

  method MatchVendor(find: Finder, p0: array<octet>, p1: array<octet>, p2: array<octet>, pass: nat,
                     v: Option<Vendor>, ghost b: Passes) returns (m: Option<nat>)
    requires Hold(p0, p1, p2, b) && 1 <= pass <= 3
    ensures m == Hit(find, b, Item(pass, v))
  {
    if v.None? || v.value.matchString.None? || (HasParens(v.value) && pass != 3) {
      return None;
    }
    var text := Text(if pass == 1 then p0[..] else if pass == 2 then p1[..] else p2[..]);
    m := MatchAt(find, v.value, text);
  }

  /** Blanks a match in this pass and all later ones. */
  method BlankPasses(p0: array<octet>, p1: array<octet>, p2: array<octet>, pass: nat,
                     from: nat, count: nat, ghost b: Passes)
    requires Hold(p0, p1, p2, b) && 1 <= pass <= 3 && p0 != p1 && p0 != p2 && p1 != p2
    requires from + count < |b.p0|
    modifies p0, p1, p2
    ensures Hold(p0, p1, p2, BlankAll(b, pass, from, count))
  {
    if pass == 3 {
      BlankMatch(p2, from, count);
    }
    if pass >= 2 {
      BlankMatch(p1, from, count);
    }
    BlankMatch(p0, from, count);
  }

  /** One list entry: whether it matches, and whether the search ends with it. */
  method TryVendor(find: Finder, p0: array<octet>, p1: array<octet>, p2: array<octet>, pass: nat,
                   v: Option<Vendor>, ghost b: Passes)
      returns (hit: bool, last: bool, ghost b': Passes)
    requires Hold(p0, p1, p2, b) && 1 <= pass <= 3 && p0 != p1 && p0 != p2 && p1 != p2
    modifies p0, p1, p2
    ensures Hold(p0, p1, p2, b') && (hit ==> v.Some?)
    ensures Examine(find)(b, Item(pass, v))
         == if !hit then Nothing else if last then Last(v.value) else More(v.value, b')
    ensures !hit ==> b' == b
  {
    b', hit, last := b, false, false;
    var m := MatchVendor(find, p0, p1, p2, pass, v, b);
    if m.Some? {
      hit, last := true, v.value.rule.Exact?;
      if !last {
        var count := |MatchString(v.value)|;
        b' := BlankAll(b, pass, m.value, count);
        BlankPasses(p0, p1, p2, pass, m.value, count, b);
        last := Len(p0[..]) == 0;
      }
    }
  }

  /** `strdup`. */
  method Duplicate(s: cstring) returns (buf: array<octet>)
    ensures fresh(buf) && buf[..] == ToBuffer(s)
  {
    var copy := ToBuffer(s);
    buf := new octet[|copy|](i requires 0 <= i < |copy| => copy[i]);
    assert forall i | 0 <= i < |copy| :: buf[..][i] == copy[i];
  }

  /** The buffers of the three passes, and how many passes there are. */
  method Prepare(s: cstring) returns (p0: array<octet>, p1: array<octet>, p2: array<octet>, pass: nat)
    ensures fresh({p0, p1, p2}) && p0 != p1 && p0 != p2 && p1 != p2
    ensures Hold(p0, p1, p2, Start(s)) && pass == if '(' in s then 3 else 1
  {
    p0 := Duplicate(s);
    p1 := Duplicate(s);
    p2 := Duplicate(s);
    pass := BlankParensIn(p1, s);
  }

  /** `step` examines an entry, which matters only where an entry is looked at. */
  ghost predicate Follows(step: (Passes, Item) -> Outcome<Passes, Vendor>, find: Finder) {
    forall b: Passes, item: Item {:trigger Hit(find, b, item)} :: step(b, item) == Examine(find)(b, item)
  }

  method VendorsMatchCore(find: Finder, vendors: seq<Option<Vendor>>, s: cstring, limit: int)
      returns (ret: seq<Vendor>)
    ensures ret == Core(find, vendors, s, limit)
  {
    var p0, p1, p2, pass := Prepare(s);
    ret := SearchPasses(find, vendors, p0, p1, p2, pass, limit, Start(s), Examine(find));
  }

  method SearchPasses(find: Finder, vendors: seq<Option<Vendor>>, p0: array<octet>, p1: array<octet>,
                      p2: array<octet>, passes: nat, limit: int, ghost start: Passes,
                      ghost step: (Passes, Item) -> Outcome<Passes, Vendor>)
      returns (ret: seq<Vendor>)
    requires Hold(p0, p1, p2, start) && passes <= 3 && p0 != p1 && p0 != p2 && p1 != p2
    requires Follows(step, find)
    modifies p0, p1, p2
    ensures ret == Collect(step, Items(vendors, passes), start, [], limit)
  {
    var pass := passes;
    ret := [];
    ghost var b, items := start, Items(vendors, pass);
    ghost var all := Collect(step, items, b, ret, limit);
    while pass > 0
      invariant pass <= 3 && Hold(p0, p1, p2, b) && items == Items(vendors, pass)
      invariant Collect(step, items, b, ret, limit) == all
    {
      ghost var later := Items(vendors, pass - 1);
      ItemsOfPass(vendors, pass);
      var done;
      ret, done, b := SearchPass(find, vendors, p0, p1, p2, pass, ret, limit, b, later, step);
      if done {
        return;
      }
      pass, items := pass - 1, later;
    }
  }

  lemma ItemsOfPass(vendors: seq<Option<Vendor>>, pass: nat)
    requires pass > 0
    ensures Items(vendors, pass) == PassItems(vendors, pass) + Items(vendors, pass - 1)
  {
  }

  /** One pass through the list; `later` are the entries of the passes to come. */
  method SearchPass(find: Finder, vendors: seq<Option<Vendor>>, p0: array<octet>, p1: array<octet>,
                    p2: array<octet>, pass: nat, found: seq<Vendor>, limit: int, ghost b: Passes,
                    ghost later: seq<Item>, ghost step: (Passes, Item) -> Outcome<Passes, Vendor>)
      returns (ret: seq<Vendor>, done: bool, ghost b': Passes)
    requires Hold(p0, p1, p2, b) && 1 <= pass <= 3 && p0 != p1 && p0 != p2 && p1 != p2
    requires Follows(step, find)
    modifies p0, p1, p2
    ensures Hold(p0, p1, p2, b')
    ensures Collect(step, PassItems(vendors, pass) + later, b, found, limit)
         == if done then ret else Collect(step, later, b', ret, limit)
  {
    ret, b' := found, b;
    ghost var items := PassItems(vendors, pass);
    ghost var all := Collect(step, items + later, b, found, limit);
    assert items[0..] == items;
    for vlp := 0 to |vendors|
      invariant Hold(p0, p1, p2, b')
      invariant Collect(step, items[vlp..] + later, b', ret, limit) == all
    {
      CollectHead(step, items, later, vlp, b', ret, limit);
      var hit, last;
      hit, last, b' := TryVendor(find, p0, p1, p2, pass, vendors[vlp], b');
      if hit {
        ret := ret + [vendors[vlp].value];
        if last || (limit > 0 && |ret| >= limit) {
          return ret, true, b';
        }
      }
    }
    assert items[|vendors|..] + later == later;
    done := false;
  }

  /** `vendor_match`, for the concatenation of the strings it is given. */
  method VendorMatchFirst(find: Finder, vendors: seq<Option<Vendor>>, s: cstring) returns (r: Option<Vendor>)
    ensures r == BestMatch(find, vendors, s)
  {
    if s == [] {
      return None;
    }
    var vl := VendorsMatchCore(find, vendors, s, 1);
    return if vl == [] then None else Some(vl[0]);
  }
}
