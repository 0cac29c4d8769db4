/** The grammar of formulas, written with the operator characters themselves. */
module Precedence {
  import opened CStrings
  import opened Seqs
  import opened ExprSyntax
  import opened ShuntingYard
  import opened YardMeaning

  // A formula is a sum of products of powers of atoms, every level grouping to the left.

  predicate IsSum<V>(e: Expr<V>) {
    IsProduct(e) || (e.Bin? && (e.op == '+' || e.op == '-') && IsSum(e.left) && IsProduct(e.right))
  }

  predicate IsProduct<V>(e: Expr<V>)
    decreases e, 2
  {
    IsPower(e) || (e.Bin? && (e.op == '*' || e.op == '/') && IsProduct(e.left) && IsPower(e.right))
  }

  predicate IsPower<V>(e: Expr<V>)
    decreases e, 1
  {
    IsAtom(e) || (e.Bin? && e.op == '^' && IsPower(e.left) && IsAtom(e.right))
  }

  predicate IsAtom<V>(e: Expr<V>)
    decreases e, 0
  {
    e.Num? || e.At? || (e.Paren? && IsSum(e.inner))
  }

  /** The trees that conversion is proved for are those of the grammar. */
  lemma {:induction false} WellFormedIsSum<V>(e: Expr<V>)
    ensures WellFormed(e) <==> IsSum(e)
    ensures IsProduct(e) <==> WellFormed(e) && !(e.Bin? && (e.op == '+' || e.op == '-'))
    ensures IsPower(e) <==> WellFormed(e) && (e.Bin? ==> e.op == '^')
    ensures IsAtom(e) <==> WellFormed(e) && !e.Bin?
  {
    match e
    case Bin(op, l, r) =>
      FiveOperators(op);
      LevelOf(l);
      LevelOf(r);
      WellFormedIsSum(l);
      WellFormedIsSum(r);
      assert !IsAtom(e);
      assert IsPower(e) <==> op == '^' && IsPower(l) && IsAtom(r);
      assert IsProduct(e) <==> IsPower(e) || ((op == '*' || op == '/') && IsProduct(l) && IsPower(r));
      assert IsSum(e) <==> IsProduct(e) || ((op == '+' || op == '-') && IsSum(l) && IsProduct(r));
    case Paren(i) =>
      WellFormedIsSum(i);
      assert IsPower(e) <==> IsAtom(e);
      assert IsProduct(e) <==> IsAtom(e);
    case _ => assert IsAtom(e) && IsPower(e) && IsProduct(e);
  }

  lemma FiveOperators(op: char)
    ensures IsBinary(op) <==> op in ['+', '-', '*', '/', '^']
    ensures Priority(op) == if op == '^' then 3 else if op == '*' || op == '/' then 2
                            else if op == '+' || op == '-' then 1 else 0
  {
  }

  lemma LevelOf<V>(e: Expr<V>)
    ensures Binding(e) == if !e.Bin? then 4 else if e.op == '^' then 3 else if e.op == '*' || e.op == '/' then 2
                          else if e.op == '+' || e.op == '-' then 1 else 0
  {
    if e.Bin? {
      FiveOperators(e.op);
    }
  }

  /** `q` takes an operand away from a `p` in front of it. */
  predicate Tighter(q: char, p: char) {
    (q == '^' && p != '^') || ((q == '*' || q == '/') && (p == '+' || p == '-'))
  }

  /** Parentheses are added around a left operand that binds less tightly than its parent,
      and around a right operand that does not bind more tightly. */
  lemma BracketedWraps<V>(op: char, l: Expr<V>, r: Expr<V>)
    requires ParenFree(Bin(op, l, r))
    ensures
      var b := Bracketed(Bin(op, l, r));
      && IsSum(b) && b.Bin?
      && b.left == (if l.Bin? && Tighter(op, l.op) then Paren(Bracketed(l)) else Bracketed(l))
      && b.right == (if r.Bin? && !Tighter(r.op, op) then Paren(Bracketed(r)) else Bracketed(r))
  {
    var e := Bin(op, l, r);
    FiveOperators(op);
    LevelOf(l);
    LevelOf(r);
    if l.Bin? {
      FiveOperators(l.op);
    }
    if r.Bin? {
      FiveOperators(r.op);
    }
    BracketedWellFormed(e);
    WellFormedIsSum(Bracketed(e));
  }

  /** Three operands and two operators: the second operator goes first exactly if it is a `^`
      behind anything else, or a `*` or `/` behind a `+` or `-`. */
  lemma ThreeOperands<V>(x: Token<V>, p: char, y: Token<V>, q: char, z: Token<V>)
    requires !x.Operator? && !y.Operator? && !z.Operator?
    requires p in ['+', '-', '*', '/', '^'] && q in ['+', '-', '*', '/', '^']
    ensures Convert([x, Operator(p), y, Operator(q), z]) ==
      Some(if Tighter(q, p) then [x, y, z, Operator(q), Operator(p)] else [x, y, Operator(p), z, Operator(q)])
  {
    FiveOperators(p);
    FiveOperators(q);
    FiveTokens(x, Operator(p), y, Operator(q), z);
    if Tighter(q, p) {
      SecondFirst(Leaf(x), p, Leaf(y), q, Leaf(z));
    } else {
      FirstFirst(Leaf(x), p, Leaf(y), q, Leaf(z));
    }
  }

  lemma FiveTokens<T>(x: T, p: T, y: T, q: T, z: T)
    ensures [x] + [p] + ([y] + [q] + [z]) == [x, p, y, q, z] == [x] + [p] + [y] + [q] + [z]
    ensures [x] + ([y] + [z] + [q]) + [p] == [x, y, z, q, p]
    ensures [x] + [y] + [p] + [z] + [q] == [x, y, p, z, q]
  {
  }

  lemma SecondFirst<V>(a: Expr<V>, p: char, b: Expr<V>, q: char, c: Expr<V>)
    requires IsBinary(p) && Priority(p) < Priority(q)
    requires forall e <- [a, b, c] :: !e.Bin? && WellFormed(e)
    ensures Convert(Infix(a) + [Operator(p)] + (Infix(b) + [Operator(q)] + Infix(c)))
         == Some(Postfix(a) + (Postfix(b) + Postfix(c) + [Operator(q)]) + [Operator(p)])
  {
    assert a in [a, b, c] && b in [a, b, c] && c in [a, b, c];
    var inner := Bin(q, b, c);
    assert WellFormed(inner);
    ConvertsTree(Bin(p, a, inner));
  }

  lemma FirstFirst<V>(a: Expr<V>, p: char, b: Expr<V>, q: char, c: Expr<V>)
    requires IsBinary(q) && Priority(p) >= Priority(q)
    requires forall e <- [a, b, c] :: !e.Bin? && WellFormed(e)
    ensures Convert(Infix(a) + [Operator(p)] + Infix(b) + [Operator(q)] + Infix(c))
         == Some(Postfix(a) + Postfix(b) + [Operator(p)] + Postfix(c) + [Operator(q)])
  {
    assert a in [a, b, c] && b in [a, b, c] && c in [a, b, c];
    var inner := Bin(p, a, b);
    assert WellFormed(inner);
    ConvertsTree(Bin(q, inner, c));
  }

  function Leaf<V>(t: Token<V>): (e: Expr<V>)
    requires !t.Operator?
    ensures Infix(e) == Postfix(e) == [t] && !e.Bin? && WellFormed(e)
  {
    if t.Value? then Num(t.value) else At
  }

  // ----- unmatched parentheses -----

  /** A `)` too many at the end of a formula leads the final loop below the array; one that a
      `(` follows is forgotten together with it. */
  lemma UnmatchedClose<V>(e: Expr<V>)
    requires WellFormed(e)
    ensures Convert(Infix(e) + [Operator(')')]) == None
    ensures Convert(Infix(e) + [Operator(')'), Operator('(')]) == Some(Postfix(e))
  {
    var y, closed := Run(EmptyYard(), Infix(e)), Yard(true, [], Postfix(e));
    assert Step(y, Operator(')')) == closed by {
      CloseAll(e);
    }
    RunAppend(EmptyYard(), Infix(e), [Operator(')')]);
    RunOne(y, Operator(')'));
    RunAppend(EmptyYard(), Infix(e), [Operator(')'), Operator('(')]);
    RunTwo(y, Operator(')'), Operator('('));
    assert Step(closed, Operator('(')) == Yard(false, [], Postfix(e));
    assert Postfix(e) + [] == Postfix(e);
  }

  /** A `(` too many ends up as an operator behind what follows it. */
  lemma UnmatchedOpen<V>(e: Expr<V>)
    requires WellFormed(e)
    ensures Convert([Operator('(')] + Infix(e)) == Some(Postfix(e) + [Operator('(')])
  {
    OpenEnds([], Yard(false, [], []), e);
    SpareEmpty([Operator('(')] + Infix(e), Postfix(e), Operator('('));
  }

  lemma SpareEmpty<T>(s: seq<T>, t: seq<T>, x: T)
    ensures [] + s == s && [] + t + ([x] + []) == t + [x]
  {
  }

  /** The same behind an operand and an operator. */
  lemma UnmatchedInner<V>(f: Expr<V>, op: char, e: Expr<V>)
    requires WellFormed(f) && IsBinary(op) && Binding(f) >= Priority(op) && WellFormed(e)
    ensures Convert(Infix(f) + [Operator(op)] + ([Operator('(')] + Infix(e)))
         == Some(Postfix(f) + Postfix(e) + ([Operator('(')] + [Operator(op)]))
  {
    ReadsFirst(f, op);
    OpenEnds(Infix(f) + [Operator(op)], Yard(false, [op], Postfix(f)), e);
    assert Reverse<V>([op]) == [Operator(op)];
  }

  lemma ReadsFirst<V>(f: Expr<V>, op: char)
    requires WellFormed(f) && IsBinary(op) && Binding(f) >= Priority(op)
    ensures Run(EmptyYard(), Infix(f) + [Operator(op)]) == Yard(false, [op], Postfix(f))
  {
    YardReads(EmptyYard(), f);
    RunAppend(EmptyYard(), Infix(f), [Operator(op)]);
    RunOne(After(EmptyYard(), f), Operator(op));
    OperatorStep(EmptyYard(), f, op);
    assert [] + [op] == [op] && [] + Postfix(f) == Postfix(f);
  }

  lemma OpenEnds<V>(pre: seq<Token<V>>, y: Yard<V>, e: Expr<V>)
    requires WellFormed(e) && Run(EmptyYard(), pre) == y && y.Yard? && !y.low
    ensures Convert(pre + ([Operator('(')] + Infix(e)))
         == Some(y.out + Postfix(e) + ([Operator('(')] + Reverse(y.stack)))
  {
    RunAppend(EmptyYard(), pre, [Operator('(')] + Infix(e));
    OpenRuns(y, e);
    OpenBelow(y.stack, y.out, e);
  }

  lemma OpenRuns<V>(y: Yard<V>, e: Expr<V>)
    requires WellFormed(e) && y.Yard? && !y.low
    ensures Run(y, [Operator('(')] + Infix(e)) == After(y.(stack := y.stack + ['(']), e)
  {
    ReadsOpen(y, Infix(e));
    OpenUndisturbed(y, e);
    YardReads(y.(stack := y.stack + ['(']), e);
  }

  lemma OpenBelow<V>(stack: string, out: seq<Token<V>>, e: Expr<V>)
    ensures
      var y := After(Yard(false, stack + ['('], out), e);
      y.out + Reverse(y.stack) == out + Postfix(e) + ([Operator('(')] + Reverse(stack))
  {
    ReverseAppend<V>(stack + ['('], Spine(e));
    ReverseAppend<V>(stack, ['(']);
    assert Reverse<V>(['(']) == [Operator('(')];
    SpineCompletes(e);
    Regroup4(out, Emitted(e), Reverse(Spine(e)), [Operator('(')] + Reverse<V>(stack));
    Regroup3(out, Emitted(e), Reverse(Spine(e)));
  }

  lemma {:induction false} ReverseAppend<V>(a: string, b: string)
    ensures Reverse<V>(a + b) == Reverse(b) + Reverse(a)
  {
    if a == [] {
      assert a + b == b;
    } else {
      assert (a + b)[1..] == a[1..] + b;
      ReverseAppend<V>(a[1..], b);
    }
  }

  lemma CloseAll<V>(e: Expr<V>)
    requires WellFormed(e)
    ensures Step(Run(EmptyYard(), Infix(e)), Operator(')')) == Yard(true, [], Postfix(e))
  {
    YardReads(EmptyYard(), e);
    SpineBinds(e);
    NoGroup(Spine(e));
    SpineCompletes(e);
    assert EmptyYard<V>().stack + Spine(e) == Spine(e) && EmptyYard<V>().out + Emitted(e) == Emitted(e);
    CloseBottom(Yard(false, Spine(e), Emitted(e)));
  }

  lemma CloseBottom<V>(y: Yard<V>)
    requires y.Yard? && !y.low && KeepGroup(y.stack) == 0
    ensures Step(y, Operator(')')) == Yard(true, [], y.out + Reverse(y.stack))
  {
    assert y.stack[0..] == y.stack && y.stack[..0] == [];
  }

  lemma {:induction false} NoGroup(stack: string)
    requires forall i | 0 <= i < |stack| :: stack[i] != '('
    ensures KeepGroup(stack) == 0
  {
    if stack != [] {
      NoGroup(stack[..|stack| - 1]);
    }
  }
}
