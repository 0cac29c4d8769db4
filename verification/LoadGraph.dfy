/** The load graph of shell/loadgraph.c: a shifting window of samples whose maximum is only
    recomputed now and then. */
module LoadGraph {

  function Max(a: int, b: int): int { if a > b then a else b }

  /** The maximum of a list; 0 for the empty list. */
  function MaxOf(s: seq<int>): int {
    if s == [] then 0 else Max(MaxOf(s[..|s| - 1]), s[|s| - 1])
  }

  /** A graph starts with nothing but zeros. */
  function Padded(size: nat, accepted: seq<int>): (r: seq<int>)
    ensures |r| == size + |accepted|
  {
    seq(size, _ => 0) + accepted
  }

  function LastOf(s: seq<int>, n: nat): seq<int>
    requires n <= |s|
  {
    s[|s| - n..]
  }

  /** The maximum is recomputed with every sample of this number. */
  const PERIOD: nat := 22

  /** What `max_value` stands for: the maximum over the window, stretched back to the last
      recomputation; before the first one, over all samples and the initial 1. */
  function Meaning(size: nat, accepted: seq<int>): int {
    var n := |accepted|;
    if n < PERIOD then Max(1, MaxOf(accepted))
    else MaxOf(LastOf(Padded(size, accepted), size + n % PERIOD))
  }

  lemma MaxOfSnoc(s: seq<int>, x: int)
    ensures MaxOf(s + [x]) == Max(MaxOf(s), x)
  {
    assert (s + [x])[..|s|] == s;
  }

  lemma {:induction false} MaxOfBounds(s: seq<int>)
    requires forall i | 0 <= i < |s| :: s[i] >= 0
    ensures MaxOf(s) >= 0 && forall i | 0 <= i < |s| :: s[i] <= MaxOf(s)
    ensures MaxOf(s) == 0 || exists i | 0 <= i < |s| :: s[i] == MaxOf(s)
  {
    if s != [] {
      var front := s[..|s| - 1];
      MaxOfBounds(front);
      if MaxOf(s) == s[|s| - 1] {
      } else if MaxOf(front) != 0 {
        var i :| 0 <= i < |front| && front[i] == MaxOf(front);
        assert s[i] == MaxOf(s);
      }
    }
  }

  class LoadGraph {
    const size: nat
    const data: array<int>
    var maxValue: int
    var remaxCount: int
    ghost var accepted: seq<int>  // the samples taken since the last clear

    ghost predicate Valid()
      reads this, data
    {
      && data.Length == size >= 1
      && (forall i | 0 <= i < |accepted| :: accepted[i] >= 0)
      && data[..] == LastOf(Padded(size, accepted), size)
      && remaxCount == |accepted| % PERIOD
      && maxValue == Meaning(size, accepted)
    }

    /** `load_graph_new`. */
    constructor (size_: nat)
      ensures Valid() && fresh(data) && size == (size_ + 1) * 3 / 2
      ensures accepted == []
    {
      size := (size_ + 1) * 3 / 2;
      data := new int[(size_ + 1) * 3 / 2](_ => 0);
      maxValue, remaxCount := 1, 0;
      accepted := [];
      new;
      ZeroWindow(size);
      assert data[..] == seq(size, _ => 0);
    }

    /** `load_graph_clear`. */
    method Clear()
      requires Valid()
      modifies this, data
      ensures Valid() && accepted == []
    {
      for i := 0 to size
        invariant forall k | 0 <= k < i :: data[k] == 0
      {
        data[i] := 0;
      }
      maxValue, remaxCount := 1, 0;
      accepted := [];
      ZeroWindow(size);
      assert data[..] == seq(size, _ => 0);
    }

    /** `load_graph_update`, for the sample converted to an integer. */
    method Update(value: int)
      requires Valid()
      modifies this, data
      ensures Valid()
      ensures accepted == if value < 0 then old(accepted) else old(accepted) + [value]
      ensures value < 0 ==> maxValue == old(maxValue) && data[..] == old(data[..])
    {
      if value < 0 {
        return;
      }
      Shift(value);
      SlideWindow(size, accepted, value);
      accepted := accepted + [value];
      TakeMaximum(value);
    }

    /** The second half of the update: recomputes the maximum when the counter has run up,
        and otherwise only compares it with the new sample. */
    method TakeMaximum(value: int)
      requires data.Length == size >= 1 && accepted != [] && value == accepted[|accepted| - 1]
      requires forall i | 0 <= i < |accepted| :: accepted[i] >= 0
      requires data[..] == LastOf(Padded(size, accepted), size)
      requires remaxCount == (|accepted| - 1) % PERIOD
      requires maxValue == Meaning(size, accepted[..|accepted| - 1])
      modifies this`remaxCount, this`maxValue
      ensures remaxCount == |accepted| % PERIOD && maxValue == Meaning(size, accepted)
    {
      NextOfPeriod(|accepted| - 1);
      assert |accepted| % PERIOD == if remaxCount > 20 then 0 else remaxCount + 1;
      var remax := remaxCount;
      remaxCount := remaxCount + 1;
      if remax > 20 {
        remaxCount := 0;
        AtPeriod(size, accepted);
        maxValue := WindowMax();
      } else {
        StretchLast(size, accepted);
        maxValue := Max(value, maxValue);
      }
    }

    /** Moves the samples one place to the front and puts the new one at the end. */
    method Shift(value: int)
      requires data.Length == size >= 1
      modifies data
      ensures data[..] == old(data[..])[1..] + [value]
    {
      var i := 0;
      while i < size - 1
        invariant 0 <= i <= size - 1
        invariant forall k | 0 <= k < i :: data[k] == old(data[k + 1])
        invariant forall k | i <= k < size :: data[k] == old(data[k])
      {
        data[i] := data[i + 1];
        i := i + 1;
      }
      data[i] := value;
    }

    method WindowMax() returns (max: int)
      requires data.Length == size >= 1 && forall i | 0 <= i < size :: data[i] >= 0
      ensures max == MaxOf(data[..])
    {
      max := data[0];
      assert MaxOf(data[..1]) == Max(MaxOf(data[..1][..0]), data[0]);
      for i := 1 to size
        invariant max == MaxOf(data[..i])
      {
        assert data[..i + 1][..i] == data[..i];
        if data[i] > max {
          max := data[i];
        }
      }
      assert data[..size] == data[..];
    }
  }

  lemma ZeroWindow(size: nat)
    ensures LastOf(Padded(size, []), size) == seq(size, _ => 0)
    ensures Meaning(size, []) == 1
  {
  }

  lemma NextOfPeriod(n: nat)
    ensures (n + 1) % PERIOD == if n % PERIOD == PERIOD - 1 then 0 else n % PERIOD + 1
    ensures n % PERIOD == PERIOD - 1 ==> n + 1 >= PERIOD
  {
  }

  /** The window after one more sample. */
  lemma SlideWindow(size: nat, accepted: seq<int>, value: int)
    requires size >= 1
    ensures LastOf(Padded(size, accepted + [value]), size) == LastOf(Padded(size, accepted), size)[1..] + [value]
    ensures Padded(size, accepted + [value]) == Padded(size, accepted) + [value]
  {
  }

  /** Without recomputation, the window behind `max_value` stretches by the new sample. */
  lemma StretchWindow(size: nat, accepted: seq<int>, value: int)
    requires (|accepted| + 1) % PERIOD != 0
    ensures Meaning(size, accepted + [value]) == Max(value, Meaning(size, accepted))
  {
    var n := |accepted|;
    NextOfPeriod(n);
    if n < PERIOD {
      MaxOfSnoc(accepted, value);
    } else {
      var k := size + n % PERIOD;
      assert Meaning(size, accepted) == MaxOf(LastOf(Padded(size, accepted), k));
      assert Meaning(size, accepted + [value]) == MaxOf(LastOf(Padded(size, accepted + [value]), k + 1));
      MaxOfMore(size, accepted, value, k);
    }
  }

  lemma StretchLast(size: nat, accepted: seq<int>)
    requires accepted != [] && |accepted| % PERIOD != 0
    ensures
      var last := |accepted| - 1;
      Meaning(size, accepted) == Max(accepted[last], Meaning(size, accepted[..last]))
  {
    var last := |accepted| - 1;
    assert accepted == accepted[..last] + [accepted[last]];
    StretchWindow(size, accepted[..last], accepted[last]);
  }

  lemma MaxOfMore(size: nat, accepted: seq<int>, value: int, k: nat)
    requires k <= size + |accepted|
    ensures MaxOf(LastOf(Padded(size, accepted + [value]), k + 1))
         == Max(value, MaxOf(LastOf(Padded(size, accepted), k)))
  {
    var all := Padded(size, accepted);
    assert Padded(size, accepted + [value]) == all + [value];
    assert LastOf(all + [value], k + 1) == LastOf(all, k) + [value];
    MaxOfSnoc(LastOf(all, k), value);
  }

  /** A window holds samples and the zeros a graph starts with. */
  lemma WindowValues(size: nat, accepted: seq<int>)
    requires forall i | 0 <= i < |accepted| :: accepted[i] >= 0
    ensures
      var all := Padded(size, accepted);
      && (forall i | 0 <= i < |all| :: all[i] == if i < size then 0 else accepted[i - size])
      && (forall i | 0 <= i < size :: LastOf(all, size)[i] == all[|accepted| + i] >= 0)
  {
  }

  lemma AtPeriod(size: nat, accepted: seq<int>)
    requires |accepted| >= PERIOD && |accepted| % PERIOD == 0
    requires forall i | 0 <= i < |accepted| :: accepted[i] >= 0
    ensures
      var window := LastOf(Padded(size, accepted), size);
      Meaning(size, accepted) == MaxOf(window) && forall i | 0 <= i < size :: window[i] >= 0
  {
    WindowValues(size, accepted);
  }

  /** In every reachable state no stored sample exceeds the maximum, which is that of the
      stretched window or, before the 22nd sample, of all samples and the 1 the graph
      started with. */
  lemma MaxCoversData(lg: LoadGraph)
    requires lg.Valid()
    ensures forall i | 0 <= i < lg.size :: 0 <= lg.data[i] <= lg.maxValue
    ensures lg.maxValue ==
      if |lg.accepted| < 22 then Max(1, MaxOf(lg.accepted))
      else MaxOf(LastOf(Padded(lg.size, lg.accepted), lg.size + lg.remaxCount))
  {
    var n := |lg.accepted|;
    if n < PERIOD {
      StartCovers(lg.size, lg.accepted);
    } else {
      WindowCovers(lg.size, lg.accepted, lg.size + n % PERIOD);
    }
    assert forall i | 0 <= i < lg.size :: lg.data[i] == lg.data[..][i];
  }

  lemma StartCovers(size: nat, accepted: seq<int>)
    requires forall i | 0 <= i < |accepted| :: accepted[i] >= 0
    ensures forall i | 0 <= i < size :: 0 <= LastOf(Padded(size, accepted), size)[i] <= Max(1, MaxOf(accepted))
  {
    WindowValues(size, accepted);
    MaxOfBounds(accepted);
  }

  lemma WindowCovers(size: nat, accepted: seq<int>, k: nat)
    requires size <= k <= size + |accepted| && forall i | 0 <= i < |accepted| :: accepted[i] >= 0
    ensures
      var all := Padded(size, accepted);
      forall i | 0 <= i < size :: 0 <= LastOf(all, size)[i] <= MaxOf(LastOf(all, k))
  {
    var all := Padded(size, accepted);
    var window := LastOf(all, k);
    WindowValues(size, accepted);
    assert forall i | 0 <= i < k :: window[i] == all[|all| - k + i];
    MaxOfBounds(window);
    assert forall i | 0 <= i < size :: LastOf(all, size)[i] == window[k - size + i];
  }

  /** The scale divides by the maximum.  It is 0 exactly from the 22nd sample on, while the
      samples of the stretched window are all zero. */
  lemma ScaleDivisor(lg: LoadGraph)
    requires lg.Valid()
    ensures lg.maxValue >= 0
    ensures
      var n := |lg.accepted|;
      lg.maxValue == 0 <==>
        n >= 22 && forall i | 0 <= i < n && n - (lg.size + n % 22) <= i :: lg.accepted[i] == 0
  {
    var n := |lg.accepted|;
    if n < PERIOD {
      MaxOfBounds(lg.accepted);
    } else {
      WindowZero(lg.size, lg.accepted, lg.size + n % PERIOD);
    }
  }

  lemma WindowZero(size: nat, accepted: seq<int>, k: nat)
    requires size <= k <= size + |accepted| && forall i | 0 <= i < |accepted| :: accepted[i] >= 0
    ensures
      var max := MaxOf(LastOf(Padded(size, accepted), k));
      max >= 0 && (max == 0 <==> forall i | 0 <= i < |accepted| && |accepted| - k <= i :: accepted[i] == 0)
  {
    var all, n := Padded(size, accepted), |accepted|;
    var window := LastOf(all, k);
    WindowValues(size, accepted);
    assert forall i | 0 <= i < k :: window[i] == all[|all| - k + i];
    MaxOfBounds(window);
    if MaxOf(window) == 0 {
      forall i | 0 <= i < n && n - k <= i
        ensures accepted[i] == 0
      {
        assert accepted[i] == all[size + i] == window[i - (n - k)];
      }
    }
  }

  /** Such states are reached: 22 samples of zero leave a divisor of zero. */
  method FeedZeros(lg: LoadGraph, n: nat)
    requires lg.Valid() && lg.accepted == []
    modifies lg, lg.data
    ensures lg.Valid() && lg.accepted == seq(n, _ => 0)
    ensures lg.maxValue == if n < 22 then 1 else 0
  {
    for i := 0 to n
      invariant lg.Valid() && lg.accepted == seq(i, _ => 0)
    {
      lg.Update(0);
    }
    MaxOfBounds(lg.accepted);
    ScaleDivisor(lg);
  }
}
