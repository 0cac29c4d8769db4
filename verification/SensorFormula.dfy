/** `math_string_eval`: a formula's text evaluates to the meaning of its syntax tree. */
module SensorFormula {
  import opened CStrings
  import opened ExprSyntax
  import opened Seqs
  import opened ShuntingYard
  import opened YardMeaning
  import opened YardHeight
  import opened Precedence
  import PM = PostfixMachine
  import opened Lexer

  /** The infix list `math_string_to_postfix` goes on with; None for a NULL list, which
      is what an invalid character and an empty formula both give. */
  function InfixOf<V>(read: cstring -> V, s: cstring): Option<seq<Token<V>>> {
    match Lex(s)
    case None => None
    case Some(tokens) => if tokens == [] then None else Some(ReadTokens(read, tokens))
  }

  /** Every array of the three stages is large enough and never left. */
  predicate Safe<V>(read: cstring -> V, s: cstring) {
    && LiteralsFit(s)
    && (InfixOf(read, s).Some? ==>
        && Convertible(InfixOf(read, s).value)
        && PM.Evaluable(Convert(InfixOf(read, s).value).value))
  }

  /** The value; without tokens, the zero of slot 0. */
  function StringValue<V>(a: Arith<V>, read: cstring -> V, s: cstring, at: V): V
    requires Safe(read, s)
  {
    match InfixOf(read, s)
    case None => a.zero
    case Some(infix) => PM.Top(a, at, Convert(infix).value)
  }

  method StringEval<V(0)>(a: Arith<V>, read: cstring -> V, s: cstring, at: V) returns (r: V)
    requires Safe(read, s)
    ensures r == StringValue(a, read, s, at)
  {
    var infix := StringToInfix(s, read);
    var postfix: seq<Token<V>> := [];
    if infix.Some? && infix.value != [] {
      postfix := InfixToPostfix(infix.value);
    }
    r := PM.PostfixEval(a, at, postfix);
  }

  // ----- meaning preservation -----

  function ReadExpr<V>(read: cstring -> V, e: Expr<cstring>): Expr<V> {
    match e
    case Num(text) => Num(read(text))
    case At => At
    case Bin(op, l, r) => Bin(op, ReadExpr(read, l), ReadExpr(read, r))
    case Paren(i) => Paren(ReadExpr(read, i))
  }

  lemma {:induction false} ReadExprShape<V>(read: cstring -> V, e: Expr<cstring>)
    ensures Infix(ReadExpr(read, e)) == ReadTokens(read, Infix(e))
    ensures WellFormed(ReadExpr(read, e)) == WellFormed(e)
    ensures Binding(ReadExpr(read, e)) == Binding(e) && Depth(ReadExpr(read, e)) == Depth(e)
  {
    match e
    case Bin(op, l, r) =>
      ReadExprShape(read, l);
      ReadExprShape(read, r);
      ReadTokensAppend(read, Infix(l) + [Operator(op)], Infix(r));
      ReadTokensAppend(read, Infix(l), [Operator(op)]);
    case Paren(i) =>
      ReadExprShape(read, i);
      ReadTokensAppend(read, [Operator('(')] + Infix(i), [Operator(')')]);
      ReadTokensAppend(read, [Operator('(')], Infix(i));
    case _ =>
  }

  /** Conversion and evaluation of any well-formed tree stay inside their arrays and give
      the tree's meaning, whatever the numbers and operations are. */
  lemma TreeValue<V>(a: Arith<V>, at: V, e: Expr<V>)
    requires WellFormed(e) && Depth(e) <= 124
    ensures Convertible(Infix(e)) && PM.Evaluable(Convert(Infix(e)).value)
    ensures PM.Top(a, at, Convert(Infix(e)).value) == Meaning(a, at, e)
  {
    InfixNested(e, [], 0, 124);
    assert Infix(e) + [] == Infix(e);
    NestedConvertible(Infix(e), 124);
    ConvertsTree(e);
    PM.TreeRise(e);
    PM.EvaluatesWhole(a, at, [a.zero], e);
  }

  /** Two readings of one token list mean the same: the notation is unambiguous. */
  lemma Unambiguous<V>(a: Arith<V>, at: V, e: Expr<V>, f: Expr<V>)
    requires WellFormed(e) && WellFormed(f) && Infix(e) == Infix(f)
    ensures Postfix(e) == Postfix(f) && Meaning(a, at, e) == Meaning(a, at, f)
  {
    ConvertsTree(e);
    ConvertsTree(f);
    PM.EvaluatesWhole(a, at, [], e);
    PM.EvaluatesWhole(a, at, [], f);
    assert ([] + [Meaning(a, at, e)])[0] == ([] + [Meaning(a, at, f)])[0];
  }

  /** From text to value: a tree written with any white space that keeps literals apart. */
  lemma FormulaValue<V>(a: Arith<V>, read: cstring -> V, at: V, e: Expr<cstring>, gaps: seq<cstring>)
    requires WellFormed(e) && Depth(e) <= 124
    requires Printable(Infix(e), gaps) && Separated(Infix(e), gaps)
    requires forall t <- Infix(e) :: t.Value? ==> |t.value| < 32
    ensures Safe(read, Print(Infix(e), gaps))
    ensures StringValue(a, read, Print(Infix(e), gaps), at) == Meaning(a, at, ReadExpr(read, e))
  {
    LexPrint(Infix(e), gaps);
    ReadExprShape(read, e);
    TreeValue(a, at, ReadExpr(read, e));
  }

  /** Conversely, every grammatical token list is evaluated as some tree written that way. */
  lemma GrammaticalValue<V>(a: Arith<V>, at: V, tokens: seq<Token<V>>) returns (e: Expr<V>)
    requires Grammatical(START, tokens) && Nested(tokens, 0, 124)
    ensures WellFormed(e) && Infix(e) == tokens
    ensures Convertible(tokens) && PM.Evaluable(Convert(tokens).value)
    ensures PM.Top(a, at, Convert(tokens).value) == Meaning(a, at, e)
  {
    e := GrammaticalIsInfix(tokens);
    assert Depth(e) <= 124 by {
      assert Infix(e) + [] == tokens;
      NestedDepth(e, [], 0, 124);
    }
    TreeValue(a, at, e);
  }

  lemma {:induction false} NestedDepth<V>(e: Expr<V>, rest: seq<Token<V>>, d: nat, m: nat)
    requires WellFormed(e) && Nested(Infix(e) + rest, d, m)
    ensures Nested(rest, d, m) && d + Depth(e) <= m
    decreases e, 1
  {
    match e
    case Bin(op, l, r) => NestedBin(op, l, r, rest, d, m);
    case Paren(i) =>
      Regroup4([Operator('(')], Infix(i), [Operator(')')], rest);
      NestedTail(Operator('('), Infix(i) + ([Operator(')')] + rest), d, m);
      NestedDepth(i, [Operator(')')] + rest, d + 1, m);
      NestedTail(Operator(')'), rest, d + 1, m);
    case _ => NestedTail(Infix(e)[0], rest, d, m);
  }

  lemma NestedBin<V>(op: char, l: Expr<V>, r: Expr<V>, rest: seq<Token<V>>, d: nat, m: nat)
    requires WellFormed(Bin(op, l, r)) && Nested(Infix(Bin(op, l, r)) + rest, d, m)
    ensures Nested(rest, d, m) && d + Depth(l) <= m && d + Depth(r) <= m
    decreases Bin(op, l, r), 0
  {
    var tail := Infix(r) + rest;
    assert Infix(Bin(op, l, r)) + rest == Infix(l) + ([Operator(op)] + tail) by {
      Regroup4(Infix(l), [Operator(op)], Infix(r), rest);
    }
    NestedDepth(l, [Operator(op)] + tail, d, m);
    NestedTail(Operator(op), tail, d, m);
    NestedDepth(r, rest, d, m);
  }

  lemma NestedTail<V>(t: Token<V>, rest: seq<Token<V>>, d: nat, m: nat)
    requires Nested([t] + rest, d, m)
    ensures d <= m && TokenOk(t, d) && Nested(rest, DepthAfter(t, d), m)
  {
    assert ([t] + rest)[1..] == rest;
  }

  // ----- signs -----

  lemma SignedConverts<V>(zero: V, sign: char, e: Expr<V>)
    requires IsSign(sign) && WellFormed(e) && Depth(e) <= 124
    ensures
      var signed := [Operator(sign)] + Infix(e);
      var s := Signed(zero, sign, e);
      && Convertible(signed) && WellFormed(s) && Depth(s) <= 124
      && Infix(s) == [Value(zero)] + signed
      && Postfix(s) == [Value(zero)] + Convert(signed).value
  {
    SignedPrints(zero, sign, e);
    SplitFirst(Value(zero), Operator(sign), Infix(e));
    ConvertsSigned(zero, sign, e);
    SignedConvertible(sign, e);
  }

  lemma SignedConvertible<V>(sign: char, e: Expr<V>)
    requires IsSign(sign) && WellFormed(e) && Depth(e) <= 124
    ensures Convertible([Operator(sign)] + Infix(e))
  {
    InfixNested(e, [], 0, 124);
    assert Infix(e) + [] == Infix(e);
    NestedCons(Operator(sign), Infix(e), 0, 124);
    NestedConvertible([Operator(sign)] + Infix(e), 124);
  }

  /** A leading sign takes the zero of slot 0 as its left operand: the value is the same
      as with a literal zero written in front. */
  lemma LeadingSign<V>(a: Arith<V>, at: V, sign: char, e: Expr<V>)
    requires IsSign(sign) && WellFormed(e) && Depth(e) <= 124
    ensures
      var signed := [Operator(sign)] + Infix(e);
      var explicit := [Value(a.zero)] + signed;
      && Convertible(signed) && PM.Evaluable(Convert(signed).value)
      && Convertible(explicit) && PM.Evaluable(Convert(explicit).value)
      && Convert(explicit).value == [Value(a.zero)] + Convert(signed).value
      && PM.Top(a, at, Convert(signed).value) == PM.Top(a, at, Convert(explicit).value)
      && PM.Top(a, at, Convert(signed).value) == Meaning(a, at, Signed(a.zero, sign, e))
  {
    var s := Signed(a.zero, sign, e);
    var signed := [Operator(sign)] + Infix(e);
    SignedConverts(a.zero, sign, e);
    TreeValue(a, at, s);
    ConvertsTree(s);
    PM.RiseRest(a.zero, Convert(signed).value, s);
    PM.EvaluatesRest(a, at, [], a.zero, Convert(signed).value, s);
    assert [] + [a.zero] == [a.zero];
  }

  /** A sign after a parenthesis is no sign.  In `f op (-e)` the minus takes the value of
      `f` as its left operand, and `op` is left with the zero of slot 0. */
  lemma InnerSign<V>(a: Arith<V>, at: V, f: Expr<V>, op: char, sign: char, e: Expr<V>)
    requires WellFormed(f) && IsBinary(op) && Binding(f) >= Priority(op)
    requires IsSign(sign) && WellFormed(e)
    ensures
      var tokens := Infix(f) + [Operator(op)]
                  + ([Operator('(')] + ([Operator(sign)] + Infix(e) + [Operator(')')]));
      && Convert(tokens).Some? && PM.Supplied(1, Convert(tokens).value)
      && PM.Top(a, at, Convert(tokens).value)
         == Result(a, a.zero, Meaning(a, at, Signed(Meaning(a, at, f), sign, e)), op)
  {
    InnerSignRun(Meaning(a, at, f), f, op, sign, e);
    InnerSignEval(a, at, f, op, sign, e);
    assert Reverse<V>([op]) == [Operator(op)];
  }

  lemma InnerSignRun<V>(first: V, f: Expr<V>, op: char, sign: char, e: Expr<V>)
    requires WellFormed(f) && IsBinary(op) && Binding(f) >= Priority(op)
    requires IsSign(sign) && WellFormed(e)
    ensures
      var group := [Operator('(')] + ([Operator(sign)] + Infix(e) + [Operator(')')]);
      Run(EmptyYard(), Infix(f) + [Operator(op)] + group)
      == Yard(false, [op], Postfix(f) + Postfix(Signed(first, sign, e))[1..])
  {
    var group := [Operator('(')] + ([Operator(sign)] + Infix(e) + [Operator(')')]);
    RunAppend(EmptyYard(), Infix(f) + [Operator(op)], group);
    ReadsFirst(f, op);
    ReadsSignedParen(Yard(false, [op], Postfix(f)), first, sign, e);
  }

  lemma InnerSignEval<V>(a: Arith<V>, at: V, f: Expr<V>, op: char, sign: char, e: Expr<V>)
    requires WellFormed(e) && IsSign(sign)
    ensures
      var s := Signed(Meaning(a, at, f), sign, e);
      var postfix := Postfix(f) + Postfix(s)[1..] + [Operator(op)];
      && PM.Supplied(1, postfix)
      && PM.Top(a, at, postfix) == Result(a, a.zero, Meaning(a, at, s), op)
  {
    var left := Meaning(a, at, f);
    var s := Signed(left, sign, e);
    var rest, tail := Postfix(s)[1..], [Operator(op)];
    SignedStarts(left, sign, e);
    PM.EvaluatesTree(a, at, [a.zero], s, tail);
    assert (Postfix(s) + tail)[1..] == rest + tail;
    PM.EvaluatesTree(a, at, [a.zero], f, rest + tail);
    Regroup3(Postfix(f), rest, tail);
  }

  /** A `(` that is never closed is evaluated as an operator, which gives zero. */
  lemma UnclosedIsZero<V>(a: Arith<V>, at: V, e: Expr<V>)
    requires WellFormed(e)
    ensures
      var postfix := Convert([Operator('(')] + Infix(e));
      postfix.Some? && PM.Supplied(1, postfix.value) && PM.Top(a, at, postfix.value) == a.zero
  {
    UnmatchedOpen(e);
    PM.EvaluatesTree(a, at, [a.zero], e, [Operator('(')]);
  }

  /** Behind an operand and an operator, it gives the operator a zero on either side. */
  lemma UnclosedInner<V>(a: Arith<V>, at: V, f: Expr<V>, op: char, e: Expr<V>)
    requires WellFormed(f) && IsBinary(op) && Binding(f) >= Priority(op) && WellFormed(e)
    ensures
      var postfix := Convert(Infix(f) + [Operator(op)] + ([Operator('(')] + Infix(e)));
      && postfix.Some? && PM.Supplied(1, postfix.value)
      && PM.Top(a, at, postfix.value) == Result(a, a.zero, a.zero, op)
  {
    UnmatchedInner(f, op, e);
    Regroup3(Postfix(f), Postfix(e), [Operator('(')] + [Operator(op)]);
    UnclosedEval(a, at, f, op, e);
  }

  lemma UnclosedEval<V>(a: Arith<V>, at: V, f: Expr<V>, op: char, e: Expr<V>)
    ensures
      var postfix := Postfix(f) + (Postfix(e) + ([Operator('(')] + [Operator(op)]));
      PM.Supplied(1, postfix) && PM.Top(a, at, postfix) == Result(a, a.zero, a.zero, op)
  {
    TwoOperators(a, at, [a.zero, Meaning(a, at, f), Meaning(a, at, e)], op);
    TwoTrees(a, at, f, e, [Operator('(')] + [Operator(op)]);
  }

  lemma TwoTrees<V>(a: Arith<V>, at: V, f: Expr<V>, e: Expr<V>, tail: seq<Token<V>>)
    requires PM.Supplied(3, tail)
    ensures PM.Supplied(1, Postfix(f) + (Postfix(e) + tail))
    ensures PM.EvalFrom(a, at, [a.zero], Postfix(f) + (Postfix(e) + tail))
         == PM.EvalFrom(a, at, [a.zero, Meaning(a, at, f), Meaning(a, at, e)], tail)
  {
    var left, right := Meaning(a, at, f), Meaning(a, at, e);
    assert [a.zero, left] + [right] == [a.zero, left, right] && [a.zero] + [left] == [a.zero, left];
    PM.EvaluatesTree(a, at, [a.zero, left], e, tail);
    PM.EvaluatesTree(a, at, [a.zero], f, Postfix(e) + tail);
  }

  lemma TwoOperators<V>(a: Arith<V>, at: V, stack: seq<V>, op: char)
    requires |stack| == 3
    ensures
      var tail := [Operator('(')] + [Operator(op)];
      PM.Supplied(3, tail) && PM.EvalFrom(a, at, stack, tail) == [Result(a, stack[0], a.zero, op)]
  {
    var next := PM.Push(a, at, stack, Operator('('));
    assert next == [stack[0], a.zero];
    LastOperator(a, at, next, op);
    assert ([Operator('(')] + [Token<V>.Operator(op)])[1..] == [Operator(op)];
  }

  lemma LastOperator<V>(a: Arith<V>, at: V, stack: seq<V>, op: char)
    requires |stack| == 2
    ensures PM.Supplied<V>(2, [Operator(op)])
    ensures PM.EvalFrom(a, at, stack, [Operator(op)]) == [Result(a, stack[0], stack[1], op)]
  {
    var last: seq<Token<V>> := [Operator(op)];
    assert last[1..] == [];
    assert PM.Push(a, at, stack, Operator(op)) == [Result(a, stack[0], stack[1], op)];
  }
}
