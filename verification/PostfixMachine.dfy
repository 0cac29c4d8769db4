/** `math_postfix_eval`: a stack machine over 500 slots, slot 0 of which starts as zero. */
module PostfixMachine {
  import opened ExprSyntax
  import opened Seqs
  import opened YardHeight

  const SLOTS: nat := 500

  /** With `n` slots in use no operator reaches below slot 0. */
  predicate Supplied<V>(n: nat, postfix: seq<Token<V>>)
    decreases |postfix|
  {
    postfix == []
    || (if postfix[0].Operator? then n >= 2 && Supplied(n - 1, postfix[1..])
        else Supplied(n + 1, postfix[1..]))
  }

  /** The largest number of slots in use at any time. */
  function Rise<V>(n: nat, postfix: seq<Token<V>>): nat
    requires Supplied(n, postfix)
    decreases |postfix|
  {
    if postfix == [] then n
    else
      var later := Rise(if postfix[0].Operator? then n - 1 else n + 1, postfix[1..]);
      if later > n then later else n
  }

  function Push<V>(a: Arith<V>, at: V, stack: seq<V>, t: Token<V>): (r: seq<V>)
    requires t.Operator? ==> |stack| >= 2
    ensures |r| == if t.Operator? then |stack| - 1 else |stack| + 1
  {
    match t
    case Variable => stack + [at]
    case Value(v) => stack + [v]
    case Operator(op) =>
      var sp := |stack| - 2;
      stack[..sp] + [Result(a, stack[sp], stack[sp + 1], op)]
  }

  /** The slots in use after running `postfix`, given those in use before. */
  function EvalFrom<V>(a: Arith<V>, at: V, stack: seq<V>, postfix: seq<Token<V>>): seq<V>
    requires Supplied(|stack|, postfix)
    decreases |postfix|
  {
    if postfix == [] then stack
    else EvalFrom(a, at, Push(a, at, stack, postfix[0]), postfix[1..])
  }

  predicate Evaluable<V>(postfix: seq<Token<V>>) {
    Supplied(1, postfix) && Rise(1, postfix) <= SLOTS
  }

  lemma {:induction false} EvalLength<V>(a: Arith<V>, at: V, stack: seq<V>, postfix: seq<Token<V>>)
    requires stack != [] && Supplied(|stack|, postfix)
    ensures EvalFrom(a, at, stack, postfix) != []
    decreases |postfix|
  {
    if postfix != [] {
      EvalLength(a, at, Push(a, at, stack, postfix[0]), postfix[1..]);
    }
  }

  function Top<V>(a: Arith<V>, at: V, postfix: seq<Token<V>>): V
    requires Supplied(1, postfix)
  {
    EvalLength(a, at, [a.zero], postfix);
    var stack := EvalFrom(a, at, [a.zero], postfix);
    stack[|stack| - 1]
  }

  /** The slots in use are those of the abstract stack. */
  ghost predicate Holds<V>(stack: seq<V>, sp: int, used: seq<V>) {
    0 <= sp < |stack| == SLOTS && stack[..sp + 1] == used
  }

  /** One token: a value is pushed, an operator takes the two values on top. */
  method EvalToken<V>(a: Arith<V>, at: V, stack: array<V>, sp: nat, t: Token<V>, ghost used: seq<V>)
      returns (sp': nat)
    requires Holds(stack[..], sp, used) && (t.Operator? ==> sp >= 1) && (!t.Operator? ==> sp + 1 < SLOTS)
    modifies stack
    ensures Holds(stack[..], sp', Push(a, at, used, t))
  {
    if t.Variable? {
      sp' := sp + 1;
      stack[sp'] := at;
    } else if t.Value? {
      sp' := sp + 1;
      stack[sp'] := t.value;
    } else {
      var op2 := stack[sp];
      sp' := sp - 1;
      var op1 := stack[sp'];
      stack[sp'] := Result(a, op1, op2, t.op);
    }
  }

  method PostfixEval<V>(a: Arith<V>, at: V, postfix: seq<Token<V>>) returns (r: V)
    requires Evaluable(postfix)
    ensures r == Top(a, at, postfix)
  {
    var stack := new V[SLOTS](_ => a.zero);
    var sp := 0;
    ghost var used := [a.zero];
    for p := 0 to |postfix|
      invariant Holds(stack[..], sp, used)
      invariant Supplied(|used|, postfix[p..]) && Rise(|used|, postfix[p..]) <= SLOTS
      invariant EvalFrom(a, at, used, postfix[p..]) == EvalFrom(a, at, [a.zero], postfix)
    {
      var t := postfix[p];
      assert postfix[p..] == [t] + postfix[p + 1..];
      EvalNext(a, at, used, t, postfix[p + 1..]);
      sp := EvalToken(a, at, stack, sp, t, used);
      used := Push(a, at, used, t);
    }
    r := stack[sp];
  }

  lemma EvalNext<V>(a: Arith<V>, at: V, used: seq<V>, t: Token<V>, rest: seq<Token<V>>)
    requires Supplied(|used|, [t] + rest)
    ensures t.Operator? ==> |used| >= 2
    ensures
      var next := Push(a, at, used, t);
      && Supplied(|next|, rest) && |next| <= Rise(|next|, rest) <= Rise(|used|, [t] + rest)
      && EvalFrom(a, at, next, rest) == EvalFrom(a, at, used, [t] + rest)
  {
    assert ([t] + rest)[1..] == rest;
    RiseAtLeast(|Push(a, at, used, t)|, rest);
  }

  lemma RiseAtLeast<V>(n: nat, postfix: seq<Token<V>>)
    requires Supplied(n, postfix)
    ensures Rise(n, postfix) >= n
  {
  }

  // ----- a tree's postfix notation pushes its meaning -----

  lemma BinTokens<V>(op: char, l: Expr<V>, r: Expr<V>, rest: seq<Token<V>>)
    ensures Postfix(Bin(op, l, r)) + rest == Postfix(l) + (Postfix(r) + ([Operator(op)] + rest))
  {
    Regroup3(Postfix(l), Postfix(r), [Operator(op)]);
    Regroup4(Postfix(l), Postfix(r), [Operator(op)], rest);
  }

  lemma {:induction false} EvaluatesTree<V>(a: Arith<V>, at: V, stack: seq<V>, e: Expr<V>, rest: seq<Token<V>>)
    requires Supplied(|stack| + 1, rest)
    ensures Supplied(|stack|, Postfix(e) + rest)
    ensures EvalFrom(a, at, stack, Postfix(e) + rest)
         == EvalFrom(a, at, stack + [Meaning(a, at, e)], rest)
    decreases e, 1
  {
    match e
    case Bin(op, l, r) => EvaluatesBin(a, at, stack, op, l, r, rest);
    case Paren(i) => EvaluatesTree(a, at, stack, i, rest);
    case _ => assert (Postfix(e) + rest)[1..] == rest;
  }

  lemma EvaluatesBin<V>(a: Arith<V>, at: V, stack: seq<V>, op: char, l: Expr<V>, r: Expr<V>, rest: seq<Token<V>>)
    requires Supplied(|stack| + 1, rest)
    ensures
      var e := Bin(op, l, r);
      && Supplied(|stack|, Postfix(e) + rest)
      && EvalFrom(a, at, stack, Postfix(e) + rest) == EvalFrom(a, at, stack + [Meaning(a, at, e)], rest)
    decreases Bin(op, l, r), 0
  {
    var left, tail := Meaning(a, at, l), [Operator(op)] + rest;
    EvaluatesOp(a, at, stack, left, Meaning(a, at, r), op, rest);
    EvaluatesTree(a, at, stack + [left], r, tail);
    EvaluatesTree(a, at, stack, l, Postfix(r) + tail);
    BinTokens(op, l, r, rest);
  }

  /** A right operand and its operator, when the left operand is in the top slot. */
  lemma EvaluatesOperator<V>(a: Arith<V>, at: V, stack: seq<V>, left: V, right: Expr<V>, op: char, rest: seq<Token<V>>)
    requires Supplied(|stack| + 1, rest)
    ensures Supplied(|stack| + 1, Postfix(right) + [Operator(op)] + rest)
    ensures EvalFrom(a, at, stack + [left], Postfix(right) + [Operator(op)] + rest)
         == EvalFrom(a, at, stack + [Result(a, left, Meaning(a, at, right), op)], rest)
  {
    EvaluatesOp(a, at, stack, left, Meaning(a, at, right), op, rest);
    Regroup3(Postfix(right), [Operator(op)], rest);
    EvaluatesTree(a, at, stack + [left], right, [Operator(op)] + rest);
  }

  lemma EvaluatesOp<V>(a: Arith<V>, at: V, stack: seq<V>, left: V, right: V, op: char, rest: seq<Token<V>>)
    requires Supplied(|stack| + 1, rest)
    ensures Supplied(|stack| + 2, [Operator(op)] + rest)
    ensures EvalFrom(a, at, stack + [left] + [right], [Operator(op)] + rest)
         == EvalFrom(a, at, stack + [Result(a, left, right, op)], rest)
  {
    assert ([Operator(op)] + rest)[1..] == rest;
    assert Push(a, at, stack + [left] + [right], Operator(op)) == stack + [Result(a, left, right, op)];
  }

  lemma EvaluatesWhole<V>(a: Arith<V>, at: V, stack: seq<V>, e: Expr<V>)
    ensures Supplied(|stack|, Postfix(e))
    ensures EvalFrom(a, at, stack, Postfix(e)) == stack + [Meaning(a, at, e)]
  {
    EvaluatesTree(a, at, stack, e, []);
    assert Postfix(e) + [] == Postfix(e);
  }

  /** Without its first literal, a tree's postfix notation finds that operand in the top slot. */
  lemma EvaluatesRest<V>(a: Arith<V>, at: V, stack: seq<V>, first: V, rest: seq<Token<V>>, e: Expr<V>)
    requires Postfix(e) == [Value(first)] + rest
    ensures Supplied(|stack| + 1, rest)
    ensures EvalFrom(a, at, stack + [first], rest) == stack + [Meaning(a, at, e)]
  {
    EvaluatesWhole(a, at, stack, e);
    assert Postfix(e)[1..] == rest;
  }

  // ----- how many slots a tree needs -----

  function Need<V>(e: Expr<V>): nat {
    match e
    case Bin(_, l, r) => if Need(l) > 1 + Need(r) then Need(l) else 1 + Need(r)
    case Paren(i) => Need(i)
    case _ => 1
  }

  lemma {:induction false} RiseOfTree<V>(n: nat, e: Expr<V>, rest: seq<Token<V>>)
    requires Supplied(n + 1, rest)
    ensures Supplied(n, Postfix(e) + rest)
    ensures Rise(n, Postfix(e) + rest) == Larger(Rise(n + 1, rest), n + Need(e))
    decreases e, 2
  {
    match e
    case Bin(op, l, r) => RiseOfBin(n, op, l, r, rest);
    case Paren(i) => RiseOfTree(n, i, rest);
    case _ =>
      RiseAtLeast(n + 1, rest);
      assert (Postfix(e) + rest)[1..] == rest;
  }

  function Larger(a: nat, b: nat): nat { if a > b then a else b }

  lemma RiseOfBin<V>(n: nat, op: char, l: Expr<V>, r: Expr<V>, rest: seq<Token<V>>)
    requires Supplied(n + 1, rest)
    ensures
      var e := Bin(op, l, r);
      && Supplied(n, Postfix(e) + rest)
      && Rise(n, Postfix(e) + rest) == Larger(Rise(n + 1, rest), n + Need(e))
    decreases Bin(op, l, r), 1
  {
    var right := Postfix(r) + ([Operator(op)] + rest);
    BinTokens(op, l, r, rest);
    RiseOfRight(n, op, r, rest, right);
    RiseOfLeft(n, l, right, 1 + Need(r), Rise(n + 1, rest));
  }

  lemma RiseOfLeft<V>(n: nat, l: Expr<V>, right: seq<Token<V>>, need: nat, rise: nat)
    requires Supplied(n + 1, right) && need >= 2 && Rise(n + 1, right) == Larger(rise, n + need)
    ensures Supplied(n, Postfix(l) + right)
    ensures Rise(n, Postfix(l) + right) == Larger(rise, n + Larger(Need(l), need))
    decreases l, 3
  {
    RiseOfTree(n, l, right);
  }

  lemma RiseOfRight<V>(n: nat, op: char, r: Expr<V>, rest: seq<Token<V>>, right: seq<Token<V>>)
    requires Supplied(n + 1, rest) && right == Postfix(r) + ([Operator(op)] + rest)
    ensures 1 + Need(r) >= 2 && Supplied(n + 1, right)
    ensures Rise(n + 1, right) == Larger(Rise(n + 1, rest), n + 1 + Need(r))
    decreases r, 3
  {
    NeedsOne(r);
    RiseOfOp(n, op, rest);
    RiseOfTree(n + 1, r, [Operator(op)] + rest);
  }

  lemma RiseOfOp<V>(n: nat, op: char, rest: seq<Token<V>>)
    requires Supplied(n + 1, rest)
    ensures Supplied(n + 2, [Operator(op)] + rest)
    ensures Rise(n + 2, [Operator(op)] + rest) == Larger(Rise(n + 1, rest), n + 2)
  {
    assert ([Operator(op)] + rest)[1..] == rest;
    RiseAtLeast(n + 1, rest);
  }

  lemma NeedsOne<V>(e: Expr<V>)
    ensures Need(e) >= 1
  {
  }

  lemma {:induction false} NeedBound<V>(e: Expr<V>)
    requires WellFormed(e)
    ensures 1 <= Binding(e) <= 4
    ensures Need(e) <= 3 * Depth(e) + 5 - Binding(e)
  {
    match e
    case Bin(_, l, r) =>
      NeedBound(l);
      NeedBound(r);
    case Paren(i) => NeedBound(i);
    case _ =>
  }

  lemma {:induction false} TowerNeed<V>(m: nat)
    ensures Need(Tower<V>(m)) == 3 * m + 4
  {
    if m > 0 {
      TowerNeed<V>(m - 1);
    }
  }

  /** From slot 0 the stack pointer of a formula of depth d never passes 3d+4. */
  lemma TreeRise<V>(e: Expr<V>)
    requires WellFormed(e)
    ensures Supplied(1, Postfix(e)) && Rise(1, Postfix(e)) - 1 == Need(e) <= 3 * Depth(e) + 4
  {
    RiseOfTree(1, e, []);
    assert Postfix(e) + [] == Postfix(e);
    NeedBound(e);
    NeedsOne(e);
  }

  lemma RiseRest<V>(first: V, rest: seq<Token<V>>, e: Expr<V>)
    requires WellFormed(e) && Postfix(e) == [Value(first)] + rest
    ensures Supplied(1, rest) && Rise(1, rest) <= 3 * Depth(e) + 4
  {
    RiseOfTree(0, e, []);
    assert Postfix(e) + [] == Postfix(e);
    NeedBound(e);
    assert Postfix(e)[1..] == rest;
  }

  /** 500 slots are enough for all formulas of a given depth exactly up to depth 165. */
  lemma EvalDepthLimit<V>(d: nat)
    ensures (forall e: Expr<V> | WellFormed(e) && Depth(e) == d :: Evaluable(Postfix(e))) <==> d <= 165
  {
    if d <= 165 {
      forall e: Expr<V> | WellFormed(e) && Depth(e) == d
        ensures Evaluable(Postfix(e))
      {
        TreeRise(e);
      }
    } else {
      TowerShape<V>(d);
      TowerNeed<V>(d);
      TreeRise(Tower<V>(d));
      assert !Evaluable(Postfix(Tower<V>(d)));
    }
  }
}
