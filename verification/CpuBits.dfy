/** Counting processors: a bitset of 65536 ids, and lists of id ranges as the kernel prints
    them. */
module CpuBits {
  import opened CStrings
  import opened Seqs

  const MAX_BITS: nat := 65536
  const MAX_CORES_PER_PACK: nat := 256

  // ----- one word -----

  predicate Bit(w: bv64, t: bv7)
    requires t < 64
  {
    w & (1 << t) != 0
  }

  lemma SetBitBits(w: bv64, t: bv7, u: bv7)
    requires t < 64 && u < 64
    ensures Bit(w | (1 << t), u) <==> Bit(w, u) || u == t
  {
  }

  lemma RoundTrip7(a: nat)
    requires a < 64
    ensures a as bv7 < 64 && (a as bv7) as int == a
  {
  }

  /** Bit `t` of a word. */
  predicate BitAt(w: bv64, t: nat)
    requires t < 64
  {
    RoundTrip7(t);
    Bit(w, t as bv7)
  }

  function WithBit(w: bv64, t: nat): bv64
    requires t < 64
  {
    RoundTrip7(t);
    w | (1 << (t as bv7))
  }

  lemma WithBitBits(w: bv64, t: nat, u: nat)
    requires t < 64 && u < 64
    ensures BitAt(WithBit(w, t), u) <==> BitAt(w, u) || u == t
  {
    Same7(t, u);
    SetBitBits(w, t as bv7, u as bv7);
  }

  lemma Same7(t: nat, u: nat)
    requires t < 64 && u < 64
    ensures t as bv7 < 64 && u as bv7 < 64 && (t as bv7 == u as bv7 <==> t == u)
  {
    RoundTrip7(t);
    RoundTrip7(u);
  }

  lemma NoBits(t: nat)
    requires t < 64
    ensures !BitAt(0, t)
  {
    RoundTrip7(t);
    NoBits7(t as bv7);
  }

  lemma NoBits7(t: bv7)
    requires t < 64
    ensures !Bit(0, t)
  {
  }

  // ----- the bitset as a set -----

  predicate Has(words: seq<bv64>, id: nat)
    requires id < 64 * |words|
  {
    BitAt(words[id / 64], id % 64)
  }

  /** The ids below `n` that are set. */
  ghost function Below(words: seq<bv64>, n: nat): set<nat>
    requires n <= 64 * |words|
  {
    set id: nat | id < n && Has(words, id)
  }

  ghost function Ids(words: seq<bv64>): set<nat> { Below(words, 64 * |words|) }

  method SetId(words: array<bv64>, id: nat)
    requires id < 64 * words.Length
    modifies words
    ensures Ids(words[..]) == old(Ids(words[..])) + {id}
  {
    ghost var before := words[..];
    words[id / 64] := WithBit(words[id / 64], id % 64);
    SetIdBits(before, id);
    assert words[..] == before[id / 64 := WithBit(before[id / 64], id % 64)];
  }

  lemma SetIdBits(words: seq<bv64>, id: nat)
    requires id < 64 * |words|
    ensures Ids(words[id / 64 := WithBit(words[id / 64], id % 64)]) == Ids(words) + {id}
  {
    var words' := words[id / 64 := WithBit(words[id / 64], id % 64)];
    forall k: nat | k < 64 * |words|
      ensures Has(words', k) <==> Has(words, k) || k == id
    {
      if k / 64 == id / 64 {
        WithBitBits(words[id / 64], id % 64, k % 64);
      }
    }
  }

  lemma BelowNext(words: seq<bv64>, i: nat, t: nat)
    requires i < |words| && t < 64
    ensures |Below(words, 64 * i + t + 1)|
         == |Below(words, 64 * i + t)| + if BitAt(words[i], t) then 1 else 0
  {
    var n := 64 * i + t;
    assert n / 64 == i && n % 64 == t;
    assert Below(words, n + 1) == Below(words, n) + if Has(words, n) then {n} else {};
  }

  lemma BelowEmptyWord(words: seq<bv64>, i: nat)
    requires i < |words| && words[i] == 0
    ensures Below(words, 64 * i + 64) == Below(words, 64 * i)
  {
    forall id: nat | 64 * i <= id < 64 * i + 64
      ensures !Has(words, id)
    {
      assert id / 64 == i;
      NoBits(id % 64);
    }
  }

  /** `cpubits_count`: the number of distinct ids. */
  method CpubitsCount(base: array<bv64>) returns (count: nat)
    ensures count == |Ids(base[..])|
  {
    count := 0;
    var i := 0;
    ghost var words := base[..];
    assert Below(words, 0) == {};
    while i < base.Length
      invariant 0 <= i <= base.Length && count == |Below(words, 64 * i)|
    {
      if base[i] != 0 {
        var t := 0;
        while t < 64
          invariant 0 <= t <= 64 && count == |Below(words, 64 * i + t)|
        {
          BelowNext(words, i, t);
          if BitAt(base[i], t) {
            count := count + 1;
          }
          t := t + 1;
        }
      } else {
        BelowEmptyWord(words, i);
      }
      i := i + 1;
    }
  }

  // ----- packages and cores -----

  /** What one logical processor reports; negative if a file is missing. */
  datatype Cpu = Cpu(package: int, core: int)

  function PackId(c: Cpu): nat { if 0 <= c.package < MAX_BITS then c.package else 0 }

  function CoreId(c: Cpu): nat {
    var id := PackId(c) * MAX_CORES_PER_PACK + c.core;
    if 0 <= id < MAX_BITS then id else 0
  }

  /** Ids that do not fit the bitsets count as 0. */
  lemma IdsClamped(c: Cpu)
    ensures PackId(c) == if 0 <= c.package < 65536 then c.package else 0
    ensures
      var id := PackId(c) * 256 + c.core;
      CoreId(c) == if 0 <= id < 65536 then id else 0
  {
  }

  function PackIds(cpus: seq<Cpu>): set<nat> { set c <- cpus :: PackId(c) }

  function CoreIds(cpus: seq<Cpu>): set<nat> { set c <- cpus :: CoreId(c) }

  /** The marking loop of `cpu_procs_cores_threads_nodes` and the two counts behind it. */
  method CountPacksAndCores(cpus: seq<Cpu>) returns (packs: nat, cores: nat)
    ensures packs == |PackIds(cpus)| && cores == |CoreIds(cpus)|
  {
    var packBits := new bv64[MAX_BITS / 64](_ => 0);
    var coreBits := new bv64[MAX_BITS / 64](_ => 0);
    AllClear(packBits[..]);
    AllClear(coreBits[..]);
    for i := 0 to |cpus|
      invariant Ids(packBits[..]) == PackIds(cpus[..i])
      invariant Ids(coreBits[..]) == CoreIds(cpus[..i])
    {
      assert cpus[..i + 1] == cpus[..i] + [cpus[i]];
      OneMore(cpus[..i], cpus[i]);
      SetId(packBits, PackId(cpus[i]));
      SetId(coreBits, CoreId(cpus[i]));
    }
    assert cpus[..|cpus|] == cpus;
    cores := CpubitsCount(coreBits);
    packs := CpubitsCount(packBits);
  }

  lemma AllClear(words: seq<bv64>)
    requires forall i | 0 <= i < |words| :: words[i] == 0
    ensures Ids(words) == {}
  {
    forall id: nat | id < 64 * |words|
      ensures !Has(words, id)
    {
      NoBits(id % 64);
    }
  }

  /** Ids small enough for a package's block of 256, and for 256 such blocks. */
  predicate InBlocks(c: Cpu) { 0 <= c.package < 256 && 0 <= c.core < 256 }

  ghost function Pairs(cpus: seq<Cpu>): set<Cpu> { set c <- cpus }

  /** With such ids, two processors share a core bit only if they share package and core;
      so the core count is the number of distinct pairs. */
  lemma {:induction false} CoresArePairs(cpus: seq<Cpu>)
    requires forall c <- cpus :: InBlocks(c)
    ensures |CoreIds(cpus)| == |Pairs(cpus)|
  {
    if cpus == [] {
      assert CoreIds(cpus) == {} && Pairs(cpus) == {};
    } else {
      var front, last := cpus[..|cpus| - 1], cpus[|cpus| - 1];
      assert cpus == front + [last];
      CoresArePairs(front);
      OneMore(front, last);
      if last in front {
        assert CoreIds(cpus) == CoreIds(front) && Pairs(cpus) == Pairs(front);
      } else {
        assert last !in Pairs(front);
        assert CoreId(last) !in CoreIds(front) by {
          if c :| c in front && CoreId(c) == CoreId(last) {
            SameCore(c, last);
          }
        }
      }
    }
  }

  lemma OneMore(front: seq<Cpu>, last: Cpu)
    ensures PackIds(front + [last]) == PackIds(front) + {PackId(last)}
    ensures CoreIds(front + [last]) == CoreIds(front) + {CoreId(last)}
    ensures Pairs(front + [last]) == Pairs(front) + {last}
  {
  }

  lemma SameCore(c: Cpu, d: Cpu)
    requires InBlocks(c) && InBlocks(d) && CoreId(c) == CoreId(d)
    ensures c == d
  {
  }

  // ----- lists of ranges -----

  /** What one item of a list counts: the size of a range, or one. */
  function ItemCount(item: cstring): int {
    var sp := Find(item, '-');
    if sp < |item| then Atoi(item[sp + 1..]) + 1 - Atoi(item[..sp]) else 1
  }

  function ListCount(s: cstring): int
    decreases |s|
  {
    var np := Find(s, ',');
    ItemCount(s[..np]) + if np < |s| then ListCount(s[np + 1..]) else 0
  }

  /** The string a pointer into a buffer stands for. */
  function StringAt(b: seq<octet>, i: nat): cstring
    requires IsBuffer(b) && i < |b|
  {
    Text(b[i..])
  }

  lemma StringBetween(b: seq<octet>, s: cstring, p: nat, e: nat)
    requires IsBuffer(b) && p <= e <= |s| < |b| && b[e] == NUL
    requires forall k | p <= k < e :: b[k] == s[k]
    ensures StringAt(b, p) == s[p..e]
  {
    var n := Len(b[p..]);
    assert b[p..][e - p] == NUL;
    assert forall k | 0 <= k < e - p :: b[p..][k] == s[p + k];
    assert n == e - p;
  }

  lemma RestOfString(b: seq<octet>, s: cstring, p: nat)
    requires IsBuffer(b) && p <= |s| && |b| == |s| + 1 && forall k | p <= k < |s| :: b[k] == s[k]
    ensures StringAt(b, p) == s[p..]
  {
    StringBetween(b, s, p, |s|);
    assert s[p..|s|] == s[p..];
  }

  lemma ListStep(s: cstring, p: nat, np: nat)
    requires p <= |s| && np == p + Find(s[p..], ',')
    ensures np <= |s| && (np < |s| ==> s[np] == ',')
    ensures ListCount(s[p..]) == ItemCount(s[p..np]) + if np < |s| then ListCount(s[np + 1..]) else 0
  {
    TailParts(s, p, np - p);
    ListParts(s[p..], s[p..np], if np < |s| then s[np + 1..] else []);
  }

  lemma ListParts(s: cstring, item: cstring, later: cstring)
    requires var np := Find(s, ','); item == s[..np] && later == if np < |s| then s[np + 1..] else []
    ensures ListCount(s) == ItemCount(item) + if Find(s, ',') < |s| then ListCount(later) else 0
  {
  }

  /** `count_from_str`, which ends the items of its argument with NULs as it goes. */
  method CountFromStr(str: array<octet>, s: cstring) returns (count: int)
    requires str[..] == ToBuffer(s)
    modifies str
    ensures count == ListCount(s)
  {
    count := 0;
    var p := 0;
    assert s[0..] == s;
    assert forall k | 0 <= k < |s| :: str[..][k] == s[k];
    var more := true;
    while more
      invariant 0 <= p <= |s| && str.Length == |s| + 1 && str[|s|] == NUL
      invariant more ==> forall k | p <= k < |s| :: str[k] == s[k]
      invariant count + (if more then ListCount(s[p..]) else 0) == ListCount(s)
      decreases more, |s| - p
    {
      var c, np;
      c, np, more := NextItem(str, s, p);
      ListStep(s, p, np);
      count := count + c;
      if more {
        p := np + 1;
      }
    }
  }

  /** Counts the item at `p`, which ends at `np`. */
  method NextItem(str: array<octet>, s: cstring, p: nat) returns (c: int, np: nat, more: bool)
    requires p <= |s| && str.Length == |s| + 1 && str[|s|] == NUL
    requires forall k | p <= k < |s| :: str[k] == s[k]
    modifies str
    ensures np == p + Find(s[p..], ',') && more == (np < |s|) && c == ItemCount(s[p..np])
    ensures str[|s|] == NUL && forall k | np < k < |s| :: str[k] == s[k]
  {
    np, more := EndItem(str, s, p);
    c := CountItem(str, s, p, np);
  }

  /** Finds the end of the item at `p`, puts a NUL there, and says whether more follow. */
  method EndItem(str: array<octet>, s: cstring, p: nat) returns (np: nat, more: bool)
    requires p <= |s| && str.Length == |s| + 1 && str[|s|] == NUL
    requires forall k | p <= k < |s| :: str[k] == s[k]
    modifies str
    ensures np == p + Find(s[p..], ',') && more == (np < |s|) && str[np] == NUL
    ensures forall k | 0 <= k < str.Length && k != np :: str[k] == old(str[k])
  {
    RestOfString(str[..], s, p);
    np := p + Find(StringAt(str[..], p), ',');
    ListStep(s, p, np);
    more := str[np] == ',';
    if more {
      str[np] := NUL;
    }
  }

  /** One item, which ends at `np`. */
  method CountItem(str: array<octet>, s: cstring, p: nat, np: nat) returns (c: int)
    requires p <= np <= |s| && str.Length == |s| + 1 && str[|s|] == NUL == str[np]
    requires forall k | p <= k < np :: str[k] == s[k]
    modifies str
    ensures c == ItemCount(s[p..np])
    ensures forall k | np <= k < str.Length :: str[k] == old(str[k])
  {
    StringBetween(str[..], s, p, np);
    var sp := p + Find(StringAt(str[..], p), '-');
    if sp < np {
      assert s[p..np][..sp - p] == s[p..sp] && s[p..np][sp - p + 1..] == s[sp + 1..np];
      c := RangeSize(str, s, p, sp, np);
    } else {
      c := 1;
    }
  }

  /** A range with its `-` at `sp`. */
  method RangeSize(str: array<octet>, s: cstring, p: nat, sp: nat, np: nat) returns (c: int)
    requires p <= sp < np <= |s| && str.Length == |s| + 1 && str[|s|] == NUL == str[np]
    requires forall k | p <= k < np :: str[k] == s[k]
    modifies str
    ensures c == Atoi(s[sp + 1..np]) + 1 - Atoi(s[p..sp])
    ensures forall k | np <= k < str.Length :: str[k] == old(str[k])
  {
    str[sp] := NUL;
    StringBetween(str[..], s, p, sp);
    StringBetween(str[..], s, sp + 1, np);
    c := Atoi(StringAt(str[..], sp + 1)) + 1 - Atoi(StringAt(str[..], p));
  }

  /** Ids from `lo` to `hi`; a range of one is printed as its id. */
  datatype Range = Range(lo: nat, hi: nat)

  function PrintRange(r: Range): (s: cstring)
    ensures s != []
  {
    Decimal(r.lo) + if r.lo == r.hi then [] else ['-'] + Decimal(r.hi)
  }

  function PrintList(ranges: seq<Range>): (s: cstring)
    requires ranges != []
  {
    PrintRange(ranges[0]) + if |ranges| == 1 then [] else [','] + PrintList(ranges[1..])
  }

  function Sizes(ranges: seq<Range>): int {
    if ranges == [] then 0 else ranges[0].hi - ranges[0].lo + 1 + Sizes(ranges[1..])
  }

  lemma NotIn(s: cstring, c: char)
    requires !IsDigit(c) && forall i | 0 <= i < |s| :: IsDigit(s[i])
    ensures c !in s
  {
  }

  lemma RangeItem(r: Range, end: cstring)
    requires r.lo <= r.hi
    requires end == [] || end == ['\n']
    ensures ',' !in PrintRange(r) + end && ItemCount(PrintRange(r) + end) == r.hi - r.lo + 1
  {
    var lo, hi := Decimal(r.lo), Decimal(r.hi);
    NotIn(lo, '-');
    NotIn(lo, ',');
    NotIn(hi, '-');
    NotIn(hi, ',');
    if r.lo == r.hi {
      FindAbsent(PrintRange(r) + end, '-');
    } else {
      var item := lo + ['-'] + (hi + end);
      assert PrintRange(r) + end == item;
      FindFirst(lo, '-', hi + end);
      AtoiDecimal(r.hi, end);
      AtoiDecimal(r.lo, []);
      assert lo + [] == lo;
      assert item[|lo| + 1..] == hi + end && item[..|lo|] == lo;
    }
  }

  lemma ListCountCons(item: cstring, rest: cstring)
    requires ',' !in item
    ensures ListCount(item + [','] + rest) == ItemCount(item) + ListCount(rest)
  {
    var s := item + [','] + rest;
    FindFirst(item, ',', rest);
    assert s[..|item|] == item && s[|item| + 1..] == rest;
  }

  lemma ListCountLast(item: cstring)
    requires ',' !in item
    ensures ListCount(item) == ItemCount(item)
  {
    FindAbsent(item, ',');
    assert item[..|item|] == item;
  }

  /** The kernel's list of id ranges counts as the sum of their sizes, with or without the
      newline it ends in. */
  lemma {:induction false} PrintedListCount(ranges: seq<Range>, end: cstring)
    requires ranges != [] && forall r <- ranges :: r.lo <= r.hi
    requires end == [] || end == ['\n']
    ensures ListCount(PrintList(ranges) + end) == Sizes(ranges)
  {
    var r := ranges[0];
    var item := PrintRange(r);
    if |ranges| == 1 {
      RangeItem(r, end);
      ListCountLast(item + end);
      assert item + [] == item;
      assert ranges[1..] == [];
    } else {
      RangeItem(r, []);
      assert item + [] == item;
      PrintedListCount(ranges[1..], end);
      ListCountCons(item, PrintList(ranges[1..]) + end);
      PrintedAssoc(item, PrintList(ranges[1..]), end);
    }
  }

  lemma PrintedAssoc(item: cstring, rest: cstring, end: cstring)
    ensures item + ([','] + rest) + end == item + [','] + (rest + end)
  {
  }
}
