/** How high the operator stack grows, and when its 500 slots are enough. */
module YardHeight {
  import opened ExprSyntax
  import opened Seqs
  import opened ShuntingYard
  import opened YardMeaning

  /** Between two parentheses, priorities rise strictly. */
  ghost predicate Ladder(stack: string) {
    forall i | 0 <= i < |stack| ::
      stack[i] == '('
      || (IsBinary(stack[i]) && (i > 0 ==> Priority(stack[i - 1]) < Priority(stack[i])))
  }

  function Opens(stack: string): nat {
    if stack == [] then 0
    else Opens(stack[..|stack| - 1]) + if stack[|stack| - 1] == '(' then 1 else 0
  }

  lemma {:induction false} LadderHeight(stack: string)
    requires Ladder(stack)
    ensures |stack| <= 4 * Opens(stack) + if stack == [] then 0 else Priority(stack[|stack| - 1])
  {
    if stack != [] {
      LadderHeight(stack[..|stack| - 1]);
    }
  }

  lemma {:induction false} OpensBelow(stack: string, n: nat)
    requires n <= |stack| && forall i | n <= i < |stack| :: stack[i] != '('
    ensures Opens(stack[..n]) == Opens(stack)
  {
    if n < |stack| {
      var below := stack[..|stack| - 1];
      OpensBelow(below, n);
      assert below[..n] == stack[..n];
    } else {
      assert stack[..n] == stack;
    }
  }

  lemma OpensPush(stack: string, op: char)
    ensures Opens(stack + [op]) == Opens(stack) + if op == '(' then 1 else 0
  {
    assert (stack + [op])[..|stack|] == stack;
  }

  /** Parentheses match from depth `d` on and never nest more than `m` deep; every
      other operator is one the lexer makes. */
  predicate Nested<V>(tokens: seq<Token<V>>, d: nat, m: nat)
    decreases |tokens|
  {
    d <= m &&
    (tokens != [] ==> TokenOk(tokens[0], d) && Nested(tokens[1..], DepthAfter(tokens[0], d), m))
  }

  predicate TokenOk<V>(t: Token<V>, d: nat) {
    t.Operator? ==> t.op == '(' || (t.op == ')' && d > 0) || IsBinary(t.op)
  }

  function DepthAfter<V>(t: Token<V>, d: nat): nat
    requires TokenOk(t, d)
  {
    if t == Operator('(') then d + 1 else if t == Operator(')') then d - 1 else d
  }

  ghost predicate InOrder<V>(y: Yard<V>, d: nat) {
    y.Yard? && !y.low && Ladder(y.stack) && Opens(y.stack) == d
  }

  lemma CloseInOrder<V>(y: Yard<V>, d: nat)
    requires InOrder(y, d) && d > 0
    ensures InOrder(Step(y, Operator(')')), d - 1)
  {
    var n := KeepGroup(y.stack);
    OpensBelow(y.stack, n);
    assert n > 0;
    var rest := y.stack[..n - 1];
    assert Opens(rest) == d - 1 by {
      assert y.stack[..n] == rest + [y.stack[n - 1]];
      OpensPush(rest, y.stack[n - 1]);
    }
    assert Ladder(rest);
    ParenPops(y, n);
  }

  lemma OperatorInOrder<V>(y: Yard<V>, op: char, d: nat)
    requires InOrder(y, d) && IsBinary(op)
    ensures InOrder(Step(y, Operator(op)), d)
  {
    OperatorPops(y, op, Keep(y.stack, Priority(op)));
    LadderKeep(y.stack, op);
  }

  lemma LadderKeep(stack: string, op: char)
    requires Ladder(stack) && IsBinary(op)
    ensures
      var pushed := stack[..Keep(stack, Priority(op))] + [op];
      Ladder(pushed) && Opens(pushed) == Opens(stack)
  {
    var n := Keep(stack, Priority(op));
    OpensBelow(stack, n);
    LadderPrefix(stack, n);
    OpensPush(stack[..n], op);
    LadderPush(stack[..n], op);
  }

  lemma LadderPrefix(stack: string, n: nat)
    requires Ladder(stack) && n <= |stack|
    ensures Ladder(stack[..n]) && (n > 0 ==> stack[..n][n - 1] == stack[n - 1])
  {
  }

  lemma LadderOpen(stack: string)
    requires Ladder(stack)
    ensures Ladder(stack + ['('])
  {
  }

  lemma LadderPush(stack: string, op: char)
    requires Ladder(stack) && IsBinary(op)
    requires stack == [] || Priority(stack[|stack| - 1]) < Priority(op)
    ensures Ladder(stack + [op])
  {
  }

  lemma StepInOrder<V>(y: Yard<V>, t: Token<V>, d: nat)
    requires InOrder(y, d) && TokenOk(t, d)
    ensures InOrder(Step(y, t), DepthAfter(t, d))
  {
    if t == Operator(')') {
      CloseInOrder(y, d);
    } else if t == Operator('(') {
      OpensPush(y.stack, '(');
      OpenStep(y);
      LadderOpen(y.stack);
    } else if t.Operator? {
      OperatorInOrder(y, t.op, d);
    }
  }

  /** Whether or not the list is a formula: at parenthesis depth `m` the stack never
      exceeds 4m+3 entries, and the converter never crashes. */
  lemma {:induction false} PeakBound<V>(y: Yard<V>, tokens: seq<Token<V>>, d: nat, m: nat)
    requires InOrder(y, d) && Nested(tokens, d, m)
    ensures Run(y, tokens).Yard? && !Run(y, tokens).low
    ensures Peak(y, tokens) <= 4 * m + 3
    decreases |tokens|
  {
    LadderHeight(y.stack);
    if tokens != [] {
      StepInOrder(y, tokens[0], d);
      PeakBound(Step(y, tokens[0]), tokens[1..], DepthAfter(tokens[0], d), m);
    }
  }

  lemma NestedConvertible<V>(tokens: seq<Token<V>>, m: nat)
    requires Nested(tokens, 0, m) && m <= 124
    ensures Convertible(tokens)
  {
    PeakBound(EmptyYard(), tokens, 0, m);
  }

  lemma {:induction false} InfixNested<V>(e: Expr<V>, rest: seq<Token<V>>, d: nat, m: nat)
    requires WellFormed(e) && d + Depth(e) <= m && Nested(rest, d, m)
    ensures Nested(Infix(e) + rest, d, m)
  {
    match e
    case Bin(op, l, r) =>
      InfixNested(r, rest, d, m);
      var tail := [Operator(op)] + (Infix(r) + rest);
      NestedCons(Operator(op), Infix(r) + rest, d, m);
      InfixNested(l, tail, d, m);
      Regroup4(Infix(l), [Operator(op)], Infix(r), rest);
    case Paren(i) =>
      var tail := [Operator(')')] + rest;
      NestedCons(Operator(')'), rest, d + 1, m);
      InfixNested(i, tail, d + 1, m);
      NestedCons(Operator('('), Infix(i) + tail, d, m);
      Regroup4([Operator('(')], Infix(i), [Operator(')')], rest);
    case _ =>
      NestedCons(Infix(e)[0], rest, d, m);
  }

  lemma NestedCons<V>(t: Token<V>, rest: seq<Token<V>>, d: nat, m: nat)
    requires d <= m && TokenOk(t, d) && Nested(rest, DepthAfter(t, d), m)
    ensures Nested([t] + rest, d, m)
  {
    assert ([t] + rest)[1..] == rest;
  }

  // ----- the bound is reached -----

  /** `@+@*@^(...)`: the formula that fills the stack fastest. */
  function Tower<V>(m: nat): Expr<V> {
    Bin('+', At, Bin('*', At, Bin('^', At, if m == 0 then At else Paren(Tower(m - 1)))))
  }

  lemma {:induction false} PeakLater<V>(y: Yard<V>, a: seq<Token<V>>, b: seq<Token<V>>)
    ensures Peak(y, a + b) >= Peak(Run(y, a), b) >= Height(Run(y, a))
    ensures Peak(y, a + b) >= Peak(y, a)
    decreases |a|
  {
    if a == [] {
      assert a + b == b;
    } else {
      assert (a + b)[1..] == a[1..] + b;
      PeakLater(Step(y, a[0]), a[1..], b);
    }
  }

  lemma PeakStep<V>(y: Yard<V>, t: Token<V>, rest: seq<Token<V>>)
    ensures Peak(y, [t] + rest) >= Peak(Step(y, t), rest)
  {
    assert ([t] + rest)[1..] == rest;
  }

  /** An operator that outranks the top of the stack is pushed. */
  lemma PushStep<V>(y: Yard<V>, op: char)
    requires Undisturbed(y, Priority(op)) && IsBinary(op)
    ensures Step(y, Operator(op)) == y.(stack := y.stack + [op])
  {
    KeepBelow(y.stack, [], Priority(op));
    assert y.stack + [] == y.stack == y.stack[..|y.stack|];
    OperatorPops(y, op, |y.stack|);
  }

  function Pushed<V>(y: Yard<V>, op: char): Yard<V>
    requires y.Yard?
  {
    Yard(y.low, y.stack + [op], y.out + [Variable])
  }

  lemma PushPair<V>(y: Yard<V>, op: char, right: Expr<V>)
    requires Undisturbed(y, Priority(op)) && IsBinary(op)
    ensures Peak(y, Infix(Bin(op, At, right))) >= Peak(Pushed(y, op), Infix(right))
  {
    PushStep(y.(out := y.out + [Variable]), op);
    PeakStep(y.(out := y.out + [Variable]), Operator(op), Infix(right));
    PeakStep(y, Variable, [Operator(op)] + Infix(right));
    Regroup3([Variable], [Operator(op)], Infix(right));
  }

  lemma {:induction false} TowerShape<V>(m: nat)
    ensures WellFormed(Tower<V>(m)) && Depth(Tower<V>(m)) == m
  {
    if m > 0 {
      TowerShape<V>(m - 1);
      TowerOver(Paren(Tower<V>(m - 1)));
    } else {
      TowerOver<V>(At);
    }
  }

  lemma TowerOver<V>(inner: Expr<V>)
    requires WellFormed(inner) && !inner.Bin?
    ensures
      var t := Bin('+', At, Bin('*', At, Bin('^', At, inner)));
      WellFormed(t) && Depth(t) == Depth(inner)
  {
    AtAndRight('^', inner);
    AtAndRight('*', Bin('^', At, inner));
    AtAndRight('+', Bin('*', At, Bin('^', At, inner)));
  }

  lemma AtAndRight<V>(op: char, right: Expr<V>)
    requires IsBinary(op) && WellFormed(right) && Binding(right) > Priority(op)
    ensures WellFormed(Bin(op, At, right)) && Depth(Bin(op, At, right)) == Depth(right)
  {
    assert Binding<V>(At) == 4 && Depth<V>(At) == 0;
  }

  function TowerTop<V>(m: nat): Expr<V> {
    if m == 0 then At else Paren(Tower(m - 1))
  }

  /** At every depth some formula needs exactly 4m+3 entries. */
  lemma {:induction false} TowerPeak<V>(y: Yard<V>, m: nat)
    requires Undisturbed(y, 1)
    ensures Peak(y, Infix(Tower(m))) >= |y.stack| + 4 * m + 3
    decreases m, 1
  {
    var power := Bin('^', At, TowerTop(m));
    var product := Bin('*', At, power);
    PushPair(y, '+', product);
    PushPair(Pushed(y, '+'), '*', power);
    PushPair(Pushed(Pushed(y, '+'), '*'), '^', TowerTop(m));
    TowerTopPeak(Pushed(Pushed(Pushed(y, '+'), '*'), '^'), m);
  }

  lemma TowerTopPeak<V>(y: Yard<V>, m: nat)
    requires y.Yard? && !y.low
    ensures Peak(y, Infix(TowerTop(m))) >= |y.stack| + 4 * m
    decreases m, 0
  {
    if m == 0 {
      PeakLater(y, [], Infix<V>(At));
    } else {
      TowerPeak(y.(stack := y.stack + ['(']), m - 1);
      ParenPeak(y, Tower(m - 1));
    }
  }

  lemma ParenPeak<V>(y: Yard<V>, e: Expr<V>)
    requires y.Yard? && !y.low
    ensures Peak(y, Infix(Paren(e))) >= Peak(y.(stack := y.stack + ['(']), Infix(e))
  {
    var open := y.(stack := y.stack + ['(']);
    PeakLater(open, Infix(e), [Operator(')')]);
    OpenStep(y);
    PeakStep(y, Operator('('), Infix(e) + [Operator(')')]);
    Regroup3([Operator('(')], Infix(e), [Operator(')')]);
  }

  lemma OpenStep<V>(y: Yard<V>)
    requires y.Yard? && !y.low
    ensures Step(y, Operator('(')) == y.(stack := y.stack + ['('])
  {
  }

  /** 500 slots are enough for all formulas of a given depth exactly up to depth 124. */
  lemma DepthLimit<V>(d: nat)
    ensures (forall e: Expr<V> | WellFormed(e) && Depth(e) == d :: Convertible(Infix(e))) <==> d <= 124
  {
    if d <= 124 {
      forall e: Expr<V> | WellFormed(e) && Depth(e) == d
        ensures Convertible(Infix(e))
      {
        InfixNested(e, [], 0, d);
        assert Infix(e) + [] == Infix(e);
        NestedConvertible(Infix(e), d);
      }
    } else {
      TowerShape<V>(d);
      TowerPeak<V>(EmptyYard(), d);
      assert !Convertible(Infix(Tower<V>(d)));
    }
  }
}
