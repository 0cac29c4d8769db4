/** Conversion turns the infix notation of every tree into its postfix notation. */
module YardMeaning {
  import opened CStrings
  import opened ExprSyntax
  import opened Seqs
  import opened ShuntingYard

  /** The operators along the right edge of `e`, which wait for more input. */
  function Spine<V>(e: Expr<V>): string {
    if e.Bin? then [e.op] + Spine(e.right) else []
  }

  /** What has gone to the list once `e` is read. */
  function Emitted<V>(e: Expr<V>): seq<Token<V>> {
    if e.Bin? then Postfix(e.left) + Emitted(e.right) else Postfix(e)
  }

  lemma {:induction false} SpineCompletes<V>(e: Expr<V>)
    ensures Emitted(e) + Reverse(Spine(e)) == Postfix(e)
  {
    if e.Bin? {
      SpineCompletes(e.right);
      assert Spine(e)[1..] == Spine(e.right);
    }
  }

  lemma {:induction false} SpineBinds<V>(e: Expr<V>)
    requires WellFormed(e)
    ensures forall i | 0 <= i < |Spine(e)| :: Priority(Spine(e)[i]) >= Binding(e) > 0
    ensures forall i | 0 <= i < |Spine(e)| :: Spine(e)[i] != '('
  {
    if e.Bin? {
      SpineBinds(e.right);
    }
  }

  lemma {:induction false} KeepBelow(stack: string, above: string, p: nat)
    requires stack == [] || Priority(stack[|stack| - 1]) < p
    requires forall i | 0 <= i < |above| :: Priority(above[i]) >= p
    ensures Keep(stack + above, p) == |stack|
  {
    if above == [] {
      assert stack + above == stack;
    } else {
      var top := |above| - 1;
      assert (stack + above)[..|stack| + top] == stack + above[..top];
      KeepBelow(stack, above[..top], p);
    }
  }

  lemma {:induction false} KeepGroupBelow(stack: string, above: string)
    requires forall i | 0 <= i < |above| :: above[i] != '('
    ensures KeepGroup(stack + ['('] + above) == |stack| + 1
  {
    if above == [] {
      assert stack + ['('] + above == stack + ['('];
    } else {
      var top := |above| - 1;
      assert (stack + ['('] + above)[..|stack| + 1 + top] == stack + ['('] + above[..top];
      KeepGroupBelow(stack, above[..top]);
    }
  }

  /** A stack whose top does not outrank `e`, so that no operator of `e` disturbs it. */
  predicate Undisturbed<V>(y: Yard<V>, binding: nat) {
    y.Yard? && !y.low && (y.stack == [] || Priority(y.stack[|y.stack| - 1]) < binding)
  }

  function After<V>(y: Yard<V>, e: Expr<V>): Yard<V>
    requires y.Yard?
  {
    Yard(false, y.stack + Spine(e), y.out + Emitted(e))
  }

  /** An operator pops everything its left operand has left behind. */
  lemma OperatorStep<V>(y: Yard<V>, left: Expr<V>, op: char)
    requires WellFormed(left) && IsBinary(op) && Binding(left) >= Priority(op)
    requires Undisturbed(y, Priority(op))
    ensures Step(After(y, left), Operator(op)) == Yard(false, y.stack + [op], y.out + Postfix(left))
  {
    var z := After(y, left);
    SpineBinds(left);
    KeepBelow(y.stack, Spine(left), Priority(op));
    assert z.stack[..|y.stack|] == y.stack && z.stack[|y.stack|..] == Spine(left);
    OperatorPops(z, op, |y.stack|);
    SpineCompletes(left);
    Regroup3(y.out, Emitted(left), Reverse(Spine(left)));
  }

  lemma OperatorPops<V>(y: Yard<V>, op: char, n: nat)
    requires y.Yard? && !y.low && IsBinary(op) && Keep(y.stack, Priority(op)) == n
    ensures Step(y, Operator(op)) == Yard(false, y.stack[..n] + [op], y.out + Reverse(y.stack[n..]))
  {
    assert op != '(' && op != ')';
  }

  lemma ParenPops<V>(y: Yard<V>, n: nat)
    requires y.Yard? && !y.low && n > 0 && KeepGroup(y.stack) == n
    ensures Step(y, Operator(')')) == Yard(false, y.stack[..n - 1], y.out + Reverse(y.stack[n..]))
  {
  }

  lemma Around(a: string, c: char, b: string)
    ensures (a + [c] + b)[..|a|] == a && (a + [c] + b)[|a| + 1..] == b
  {
  }

  lemma CloseStep<V>(y: Yard<V>, e: Expr<V>)
    requires WellFormed(e) && y.Yard? && !y.low
    ensures Step(After(y.(stack := y.stack + ['(']), e), Operator(')')) == y.(out := y.out + Postfix(e))
  {
    var z := After(y.(stack := y.stack + ['(']), e);
    SpineBinds(e);
    KeepGroupBelow(y.stack, Spine(e));
    Around(y.stack, '(', Spine(e));
    ParenPops(z, |y.stack| + 1);
    SpineCompletes(e);
    Regroup3(y.out, Emitted(e), Reverse(Spine(e)));
  }

  lemma {:induction false} YardReads<V>(y: Yard<V>, e: Expr<V>)
    requires WellFormed(e) && Undisturbed(y, Binding(e))
    ensures Run(y, Infix(e)) == After(y, e)
    decreases e, 1
  {
    match e
    case Bin(op, l, r) =>
      YardReads(y, l);
      ReadsOperator(y, l, op, Infix(r));
      YardReads(Yard(false, y.stack + [op], y.out + Postfix(l)), r);
      Regroup3(y.stack, [op], Spine(r));
      Regroup3(y.out, Postfix(l), Emitted(r));
    case Paren(i) =>
      ReadsParen(y, i);
    case _ =>
      RunOne(y, Infix(e)[0]);
      assert y.stack + [] == y.stack;
  }

  lemma ReadsOperator<V>(y: Yard<V>, left: Expr<V>, op: char, rest: seq<Token<V>>)
    requires WellFormed(left) && IsBinary(op) && Binding(left) >= Priority(op)
    requires Undisturbed(y, Priority(op)) && Run(y, Infix(left)) == After(y, left)
    ensures Run(y, Infix(left) + [Operator(op)] + rest)
         == Run(Yard(false, y.stack + [op], y.out + Postfix(left)), rest)
  {
    RunAround(y, Infix(left), Operator(op), rest);
    OperatorStep(y, left, op);
  }

  lemma ReadsOpen<V>(y: Yard<V>, rest: seq<Token<V>>)
    requires y.Yard? && !y.low
    ensures Run(y, [Operator('(')] + rest) == Run(y.(stack := y.stack + ['(']), rest)
  {
    RunAppend(y, [Operator('(')], rest);
    RunOne(y, Operator('('));
  }

  lemma OpenUndisturbed<V>(y: Yard<V>, e: Expr<V>)
    requires WellFormed(e) && y.Yard? && !y.low
    ensures Undisturbed(y.(stack := y.stack + ['(']), Binding(e))
  {
  }

  lemma ReadsParen<V>(y: Yard<V>, i: Expr<V>)
    requires WellFormed(i) && y.Yard? && !y.low
    ensures Run(y, Infix(Paren(i))) == After(y, Paren(i))
    decreases i, 2
  {
    var y' := y.(stack := y.stack + ['(']);
    var open := [Operator('(')] + Infix(i);
    RunAppend(y, open, [Operator(')')]);
    ReadsOpen(y, Infix(i));
    OpenUndisturbed(y, i);
    YardReads(y', i);
    RunOne(After(y', i), Operator(')'));
    CloseStep(y, i);
    assert y.stack + [] == y.stack;
  }

  lemma ConvertsTree<V>(e: Expr<V>)
    requires WellFormed(e)
    ensures Convert(Infix(e)) == Some(Postfix(e))
  {
    YardReads(EmptyYard(), e);
    SpineCompletes(e);
    assert EmptyYard<V>().stack + Spine(e) == Spine(e);
    assert EmptyYard<V>().out + Emitted(e) == Emitted(e);
  }

  /** A sign before a formula goes through as it would after a literal, which is missing
      from the front of the postfix list. */
  lemma ConvertsSigned<V>(zero: V, sign: char, e: Expr<V>)
    requires IsSign(sign) && WellFormed(e)
    ensures
      var signed := Convert([Operator(sign)] + Infix(e));
      signed.Some? && [Value(zero)] + signed.value == Postfix(Signed(zero, sign, e))
  {
    var tokens, s := [Operator(sign)] + Infix(e), Signed(zero, sign, e);
    SignedPrints(zero, sign, e);
    SplitFirst(Value(zero), Operator(sign), Infix(e));
    assert Convert([Value(zero)] + tokens) == Some(Postfix(s)) by {
      ConvertsTree(s);
    }
    ConvertsBehind(zero, tokens);
  }

  /** A literal in front of a list goes to the front of the converted list. */
  lemma ConvertsBehind<V>(first: V, tokens: seq<Token<V>>)
    ensures
      var (whole, rest) := (Convert([Value(first)] + tokens), Convert(tokens));
      whole == if rest.None? then None else Some([Value(first)] + rest.value)
  {
    RunAppend(EmptyYard(), [Value(first)], tokens);
    RunOne(EmptyYard(), Value(first));
    OutputFrame(EmptyYard(), [Value(first)], tokens);
    assert [Value(first)] + EmptyYard<V>().out == EmptyYard<V>().out + [Value(first)];
    var y := Run(EmptyYard(), tokens);
    if y.Yard? {
      Regroup3([Value(first)], y.out, Reverse(y.stack));
    }
  }

  /** The same inside parentheses, whatever literal `first` is taken to stand before the sign. */
  lemma ReadsSignedParen<V>(y: Yard<V>, first: V, sign: char, e: Expr<V>)
    requires IsSign(sign) && WellFormed(e) && y.Yard? && !y.low
    ensures Run(y, [Operator('(')] + ([Operator(sign)] + Infix(e) + [Operator(')')]))
         == y.(out := y.out + Postfix(Signed(first, sign, e))[1..])
  {
    var s := Signed(first, sign, e);
    var rest := [Operator(sign)] + Infix(e) + [Operator(')')];
    var open := Yard(false, y.stack + ['('], []);
    SignedPrints(first, sign, e);
    ReadsParen(y, s);
    SignedParenSplit(y, open, first, sign, e);
    OutputFrame(open, y.out + [Value(first)], rest);
    OutputFrame(open, y.out, rest);
    RunAppend(y, [Operator('(')], rest);
    RunOne(y, Operator('('));
    var q := Run(open, rest);
    assert open.(out := y.out + open.out) == Step(y, Operator('('));
    assert q.Yard?;
    assert y.out + [Value(first)] + q.out == y.out + Postfix(s);
    Regroup3(y.out, [Value(first)], q.out);
    SamePrefix(y.out, [Value(first)] + q.out, Postfix(s));
  }

  lemma SignedParenSplit<V>(y: Yard<V>, open: Yard<V>, first: V, sign: char, e: Expr<V>)
    requires IsSign(sign) && WellFormed(e) && y.Yard? && !y.low
    requires open == Yard(false, y.stack + ['('], [])
    ensures
      var rest := [Operator(sign)] + Infix(e) + [Operator(')')];
      Run(y, Infix(Paren(Signed(first, sign, e))))
      == Run(open.(out := y.out + [Value(first)] + open.out), rest)
  {
    var rest := [Operator(sign)] + Infix(e) + [Operator(')')];
    SignedPrints(first, sign, e);
    ParenSplit(Operator('('), Value(first), Operator(sign), Infix(e), Operator(')'));
    RunAppend(y, [Operator('('), Value(first)], rest);
    RunTwo(y, Operator('('), Value(first));
    assert y.out + [Value(first)] + [] == y.out + [Value(first)];
  }

  lemma RunTwo<V>(y: Yard<V>, t: Token<V>, u: Token<V>)
    ensures Run(y, [t, u]) == Step(Step(y, t), u)
  {
    assert [t, u][1..] == [u];
    RunOne(Step(y, t), u);
  }

  lemma ParenSplit<T>(o: T, v: T, s: T, body: seq<T>, c: T)
    ensures [o] + ([v, s] + body) + [c] == [o, v] + ([s] + body + [c])
  {
  }
}
