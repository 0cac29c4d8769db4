/** Trying items one after another, collecting what they yield, with a limit. */
module LimitedSearch {

  /** An item yields nothing, or something after which the search goes on from a new state,
      or something that ends the search. */
  datatype Outcome<S, V> = Nothing | More(v: V, next: S) | Last(v: V)

  function Collect<S, I, V>(step: (S, I) -> Outcome<S, V>, items: seq<I>, state: S,
                            found: seq<V>, limit: int): seq<V>
  {
    if items == [] then found
    else
      match step(state, items[0])
      case Nothing => Collect(step, items[1..], state, found, limit)
      case Last(v) => found + [v]
      case More(v, next) =>
        if limit > 0 && |found| + 1 >= limit then found + [v]
        else Collect(step, items[1..], next, found + [v], limit)
  }

  /** One round of the search, at position `i` of the first of two lists. */
  lemma CollectHead<S, I, V>(step: (S, I) -> Outcome<S, V>, items: seq<I>, later: seq<I>, i: nat, state: S,
                             found: seq<V>, limit: int)
    requires i < |items|
    ensures
      Collect(step, items[i..] + later, state, found, limit) ==
        match step(state, items[i])
        case Nothing => Collect(step, items[i + 1..] + later, state, found, limit)
        case Last(v) => found + [v]
        case More(v, next) =>
          if limit > 0 && |found| + 1 >= limit then found + [v]
          else Collect(step, items[i + 1..] + later, next, found + [v], limit)
  {
    assert (items[i..] + later)[1..] == items[i + 1..] + later;
  }

  lemma {:induction false} FoundGrows<S, I, V>(step: (S, I) -> Outcome<S, V>, items: seq<I>, state: S,
                                               found: seq<V>, limit: int)
    ensures found <= Collect(step, items, state, found, limit)
  {
    if items != [] {
      match step(state, items[0])
      case Nothing => FoundGrows(step, items[1..], state, found, limit);
      case Last(v) =>
      case More(v, next) => FoundGrows(step, items[1..], next, found + [v], limit);
    }
  }

  /** A limit only cuts off what the unlimited search goes on to find. */
  lemma {:induction false} LimitCutsOff<S, I, V>(step: (S, I) -> Outcome<S, V>, items: seq<I>, state: S,
                                                 found: seq<V>, limit: nat)
    requires |found| < limit
    ensures
      var all := Collect(step, items, state, found, -1);
      Collect(step, items, state, found, limit) == if |all| <= limit then all else all[..limit]
  {
    if items != [] {
      match step(state, items[0])
      case Nothing => LimitCutsOff(step, items[1..], state, found, limit);
      case Last(v) =>
      case More(v, next) =>
        if |found| + 1 < limit {
          LimitCutsOff(step, items[1..], next, found + [v], limit);
        } else {
          FoundGrows(step, items[1..], next, found + [v], -1);
        }
    }
  }

  /** Items that yield nothing are passed over. */
  lemma {:induction false} SkipNothing<S, I, V>(step: (S, I) -> Outcome<S, V>, items: seq<I>, n: nat,
                                                state: S, found: seq<V>, limit: int)
    requires n <= |items| && forall i | 0 <= i < n :: step(state, items[i]).Nothing?
    ensures Collect(step, items, state, found, limit) == Collect(step, items[n..], state, found, limit)
  {
    if n > 0 {
      SkipNothing(step, items[1..], n - 1, state, found, limit);
      assert items[1..][n - 1..] == items[n..];
    } else {
      assert items[0..] == items;
    }
  }
}
