/** What the code makes of a formula in which one operand is missing, such as the left
    operand of a sign. */
module MissingOperand {
  import opened CStrings
  import opened ExprSyntax
  import opened Seqs
  import opened ShuntingYard
  import opened YardMeaning
  import opened YardHeight
  import PM = PostfixMachine

  /** A syntax tree with one leaf left open. */
  datatype Hole<V> =
    | Here
    | InLeft(op: char, hole: Hole<V>, right: Expr<V>)
    | InRight(op: char, left: Expr<V>, hole: Hole<V>)
    | InParen(hole: Hole<V>)

  function Plug<V>(h: Hole<V>, v: V): Expr<V> {
    match h
    case Here => Num(v)
    case InLeft(op, h', r) => Bin(op, Plug(h', v), r)
    case InRight(op, l, h') => Bin(op, l, Plug(h', v))
    case InParen(h') => Paren(Plug(h', v))
  }

  /** The tokens on either side of the open leaf. */
  function Before<V>(h: Hole<V>): seq<Token<V>> {
    match h
    case Here => []
    case InLeft(_, h', _) => Before(h')
    case InRight(op, l, h') => Infix(l) + [Operator(op)] + Before(h')
    case InParen(h') => [Operator('(')] + Before(h')
  }

  function Behind<V>(h: Hole<V>): seq<Token<V>> {
    match h
    case Here => []
    case InLeft(op, h', r) => Behind(h') + ([Operator(op)] + Infix(r))
    case InRight(_, _, h') => Behind(h')
    case InParen(h') => Behind(h') + [Operator(')')]
  }

  /** The same in postfix notation. */
  function Early<V>(h: Hole<V>): seq<Token<V>> {
    match h
    case Here => []
    case InRight(_, l, h') => Postfix(l) + Early(h')
    case _ => Early(h.hole)
  }

  function Late<V>(h: Hole<V>): seq<Token<V>> {
    match h
    case Here => []
    case InLeft(op, h', r) => Late(h') + (Postfix(r) + [Operator(op)])
    case InRight(op, _, h') => Late(h') + [Operator(op)]
    case InParen(h') => Late(h')
  }

  lemma {:induction false} PlugInfix<V>(h: Hole<V>, v: V)
    ensures Infix(Plug(h, v)) == Before(h) + [Value(v)] + Behind(h)
  {
    match h
    case Here =>
    case InLeft(op, h', r) =>
      PlugInfix(h', v);
      Regroup3(Before(h') + [Value(v)], Behind(h'), [Operator(op)] + Infix(r));
      Regroup3(Infix(Plug(h', v)), [Operator(op)], Infix(r));
    case InRight(op, l, h') =>
      PlugInfix(h', v);
      Append3(Infix(l) + [Operator(op)], Before(h'), [Value(v)], Behind(h'));
    case InParen(h') =>
      PlugInfix(h', v);
      Append3([Operator('(')], Before(h'), [Value(v)], Behind(h'));
      Regroup3([Operator('(')] + Before(h') + [Value(v)], Behind(h'), [Operator(')')]);
  }

  lemma {:induction false} PlugPostfix<V>(h: Hole<V>, v: V)
    ensures Postfix(Plug(h, v)) == Early(h) + [Value(v)] + Late(h)
  {
    match h
    case Here =>
    case InLeft(op, h', r) =>
      PlugPostfix(h', v);
      Regroup3(Early(h') + [Value(v)], Late(h'), Postfix(r) + [Operator(op)]);
      Regroup3(Postfix(Plug(h', v)), Postfix(r), [Operator(op)]);
    case InRight(op, l, h') =>
      PlugPostfix(h', v);
      Append3(Postfix(l), Early(h'), [Value(v)], Late(h'));
      Regroup3(Early(h) + [Value(v)], Late(h'), [Operator(op)]);
    case InParen(h') => PlugPostfix(h', v);
  }

  /** Every literal of a tree's notation stands at the open leaf of some hole. */
  lemma {:induction false} FindHole<V>(t: Expr<V>, pre: seq<Token<V>>, v: V, rest: seq<Token<V>>) returns (h: Hole<V>)
    requires Infix(t) == pre + [Value(v)] + rest
    ensures Plug(h, v) == t && Before(h) == pre && Behind(h) == rest
  {
    var i := |pre|;
    assert Infix(t)[i] == Value(v) && Infix(t)[..i] == pre && Infix(t)[i + 1..] == rest;
    match t
    case Num(_) => h := Here;
    case Bin(op, l, r) =>
      var n := |Infix(l)|;
      if i < n {
        CutLeft(Infix(l), Operator(op), Infix(r), i);
        var inner := FindHole(l, Infix(l)[..i], v, Infix(l)[i + 1..]);
        h := InLeft(op, inner, r);
      } else {
        var j := i - n - 1;
        CutRight(Infix(l), Operator(op), Infix(r), j);
        var inner := FindHole(r, Infix(r)[..j], v, Infix(r)[j + 1..]);
        h := InRight(op, l, inner);
      }
    case Paren(e) =>
      var j := i - 1;
      CutMiddle(Operator('('), Infix(e), Operator(')'), j);
      var inner := FindHole(e, Infix(e)[..j], v, Infix(e)[j + 1..]);
      h := InParen(inner);
  }

  lemma CutLeft<T>(a: seq<T>, c: T, b: seq<T>, i: nat)
    requires i < |a|
    ensures
      var s := a + [c] + b;
      s[i] == a[i] && s[..i] == a[..i] && s[i + 1..] == a[i + 1..] + ([c] + b)
    ensures a == a[..i] + [a[i]] + a[i + 1..]
  {
  }

  lemma CutRight<T>(a: seq<T>, c: T, b: seq<T>, j: nat)
    requires j < |b|
    ensures
      var (s, i) := (a + [c] + b, |a| + 1 + j);
      s[i] == b[j] && s[..i] == a + [c] + b[..j] && s[i + 1..] == b[j + 1..]
    ensures b == b[..j] + [b[j]] + b[j + 1..]
  {
  }

  lemma CutMiddle<T>(c: T, b: seq<T>, d: T, j: nat)
    requires j < |b|
    ensures
      var (s, i) := ([c] + b + [d], 1 + j);
      s[i] == b[j] && s[..i] == [c] + b[..j] && s[i + 1..] == b[j + 1..] + [d]
    ensures b == b[..j] + [b[j]] + b[j + 1..]
  {
  }

  // ----- conversion -----

  /** Up to the open leaf the converter has emitted exactly what precedes it in postfix order. */
  lemma {:induction false} RunBefore<V>(y: Yard<V>, h: Hole<V>, v: V)
    requires WellFormed(Plug(h, v)) && Undisturbed(y, Binding(Plug(h, v)))
    ensures HasEmitted(Run(y, Before(h)), y.out + Early(h))
    decreases h, 0
  {
    match h
    case Here => assert y.out + [] == y.out;
    case InLeft(op, h', _) =>
      assert WellFormed(Plug(h', v)) && Binding(Plug(h', v)) >= Priority(op);
      RunBefore(y, h', v);
    case InRight(op, l, h') => RunBeforeRight(y, op, l, h', v);
    case InParen(h') => RunBeforeParen(y, h', v);
  }

  lemma RunBeforeParen<V>(y: Yard<V>, h: Hole<V>, v: V)
    requires WellFormed(Plug(h, v)) && y.Yard? && !y.low
    ensures HasEmitted(Run(y, Before(InParen(h))), y.out + Early(InParen(h)))
    decreases h, 1
  {
    ReadsOpen(y, Before(h));
    OpenUndisturbed(y, Plug(h, v));
    RunBefore(y.(stack := y.stack + ['(']), h, v);
  }

  ghost predicate HasEmitted<V>(y: Yard<V>, out: seq<Token<V>>) {
    y.Yard? && !y.low && y.out == out
  }

  lemma RunBeforeRight<V>(y: Yard<V>, op: char, l: Expr<V>, h: Hole<V>, v: V)
    requires WellFormed(Bin(op, l, Plug(h, v))) && Undisturbed(y, Priority(op))
    ensures HasEmitted(Run(y, Before(InRight(op, l, h))), y.out + Early(InRight(op, l, h)))
    decreases h, 1
  {
    var pushed := Yard(false, y.stack + [op], y.out + Postfix(l));
    assert Run(y, Before(InRight(op, l, h))) == Run(pushed, Before(h)) by {
      YardReads(y, l);
      ReadsOperator(y, l, op, Before(h));
    }
    RunBefore(pushed, h, v);
    Regroup3(y.out, Postfix(l), Early(h));
  }

  /** The conversion goes through, and its result lacks the same leaf. */
  lemma ConvertsWithout<V>(h: Hole<V>, v: V)
    requires WellFormed(Plug(h, v))
    ensures Convert(Before(h) + Behind(h)) == Some(Early(h) + Late(h))
  {
    var z := Run(EmptyYard(), Before(h));
    RunBefore(EmptyYard(), h, v);
    assert EmptyYard<V>().out + Early(h) == Early(h);
    RunAppend(EmptyYard(), Before(h), Behind(h));
    RunAround(EmptyYard(), Before(h), Value(v), Behind(h));
    FromThere(z, v, Behind(h));
    PlugInfix(h, v);
    PlugPostfix(h, v);
    ConvertsTree(Plug(h, v));
    var q := Run(z.(out := []), Behind(h));
    SamePrefix(Early(h) + [Value(v)], q.out + Reverse(q.stack), Late(h));
    Regroup3(Early(h), q.out, Reverse(q.stack));
  }

  /** A literal only adds itself to what follows in the list. */
  lemma FromThere<V>(z: Yard<V>, v: V, tokens: seq<Token<V>>)
    requires z.Yard? && !z.low
    ensures
      var (q, without, whole) := (Run(z.(out := []), tokens), Run(z, tokens), Run(Step(z, Value(v)), tokens));
      if q.Crashed? then without.Crashed? && whole.Crashed?
      else
        && without == q.(out := z.out + q.out)
        && whole.Yard? && whole == q.(out := z.out + [Value(v)] + q.out)
        && whole.out + Reverse(whole.stack) == z.out + [Value(v)] + (q.out + Reverse(q.stack))
  {
    var q := Run(z.(out := []), tokens);
    OutputFrame(z.(out := []), z.out, tokens);
    OutputFrame(z.(out := []), z.out + [Value(v)], tokens);
    assert z.out + [] == z.out && z.out + [Value(v)] + [] == z.out + [Value(v)];
    if q.Yard? {
      Regroup3(z.out + [Value(v)], q.out, Reverse(q.stack));
    }
  }

  // ----- evaluation -----

  /** The value: at the open leaf the evaluator finds the left operand that was computed
      last, for which it then takes the one before, and so on down to slot 0. */
  function Shifted<V>(a: Arith<V>, at: V, h: Hole<V>, carry: V): V {
    match h
    case Here => carry
    case InLeft(op, h', r) => Result(a, Shifted(a, at, h', carry), Meaning(a, at, r), op)
    case InRight(op, l, h') => Result(a, carry, Shifted(a, at, h', Meaning(a, at, l)), op)
    case InParen(h') => Shifted(a, at, h', carry)
  }

  lemma {:induction false} EvaluatesWithout<V>(a: Arith<V>, at: V, stack: seq<V>, carry: V, h: Hole<V>,
                                               rest: seq<Token<V>>)
    requires PM.Supplied(|stack| + 1, rest)
    ensures PM.Supplied(|stack| + 1, Early(h) + (Late(h) + rest))
    ensures PM.EvalFrom(a, at, stack + [carry], Early(h) + (Late(h) + rest))
         == PM.EvalFrom(a, at, stack + [Shifted(a, at, h, carry)], rest)
    decreases h, 0
  {
    match h
    case Here => assert Early(h) + (Late(h) + rest) == rest;
    case InLeft(op, h', r) =>
      PM.EvaluatesOperator(a, at, stack, Shifted(a, at, h', carry), r, op, rest);
      Regroup3(Late(h'), Postfix(r) + [Operator(op)], rest);
      EvaluatesWithout(a, at, stack, carry, h', Postfix(r) + [Operator(op)] + rest);
    case InRight(op, l, h') =>
      EvaluatesRight(a, at, stack, carry, op, l, h', rest);
    case InParen(h') => EvaluatesWithout(a, at, stack, carry, h', rest);
  }

  lemma EvaluatesRight<V>(a: Arith<V>, at: V, stack: seq<V>, carry: V, op: char, l: Expr<V>, h: Hole<V>,
                          rest: seq<Token<V>>)
    requires PM.Supplied(|stack| + 1, rest)
    ensures
      var g := InRight(op, l, h);
      && PM.Supplied(|stack| + 1, Early(g) + (Late(g) + rest))
      && PM.EvalFrom(a, at, stack + [carry], Early(g) + (Late(g) + rest))
         == PM.EvalFrom(a, at, stack + [Shifted(a, at, g, carry)], rest)
    decreases h, 1
  {
    var left, tail := Meaning(a, at, l), [Operator(op)] + rest;
    var x := Shifted(a, at, h, left);
    PM.EvaluatesOp(a, at, stack, carry, x, op, rest);
    EvaluatesWithout(a, at, stack + [carry], left, h, tail);
    PM.EvaluatesTree(a, at, stack + [carry], l, Early(h) + (Late(h) + tail));
    RightTokens(op, l, h, rest);
  }

  lemma RightTokens<V>(op: char, l: Expr<V>, h: Hole<V>, rest: seq<Token<V>>)
    ensures
      var g := InRight(op, l, h);
      Early(g) + (Late(g) + rest) == Postfix(l) + (Early(h) + (Late(h) + ([Operator(op)] + rest)))
  {
    Regroup3(Postfix(l), Early(h), Late(h) + ([Operator(op)] + rest));
    Regroup3(Late(h), [Operator(op)], rest);
  }

  // ----- the arrays are not left -----

  lemma {:induction false} NestedWithout<V>(before: seq<Token<V>>, v: V, behind: seq<Token<V>>, d: nat, m: nat)
    requires Nested(before + [Value(v)] + behind, d, m)
    ensures Nested(before + behind, d, m)
    decreases |before|
  {
    var whole := before + [Value(v)] + behind;
    if before == [] {
      assert whole[1..] == behind && before + behind == behind;
    } else {
      assert whole[1..] == before[1..] + [Value(v)] + behind;
      assert (before + behind)[1..] == before[1..] + behind;
      NestedWithout(before[1..], v, behind, DepthAfter(whole[0], d), m);
    }
  }

  lemma {:induction false} RiseMore<V>(n: nat, postfix: seq<Token<V>>)
    requires PM.Supplied(n, postfix)
    ensures PM.Supplied(n + 1, postfix) && PM.Rise(n, postfix) <= PM.Rise(n + 1, postfix)
    decreases |postfix|
  {
    if postfix != [] {
      RiseMore(if postfix[0].Operator? then n - 1 else n + 1, postfix[1..]);
    }
  }

  lemma {:induction false} RiseWithout<V>(n: nat, early: seq<Token<V>>, v: V, late: seq<Token<V>>)
    requires PM.Supplied(n, early + late)
    ensures PM.Supplied(n, early + [Value(v)] + late)
    ensures PM.Rise(n, early + late) <= PM.Rise(n, early + [Value(v)] + late)
    decreases |early|
  {
    var whole := early + [Value(v)] + late;
    if early == [] {
      assert whole[1..] == late && early + late == late;
      RiseMore(n, late);
    } else {
      assert whole[1..] == early[1..] + [Value(v)] + late;
      assert (early + late)[1..] == early[1..] + late;
      RiseWithout(if early[0].Operator? then n - 1 else n + 1, early[1..], v, late);
    }
  }

  /** What becomes of a formula without one of its operands, whichever it is. */
  lemma MissingLiteral<V>(a: Arith<V>, at: V, h: Hole<V>, v: V)
    requires WellFormed(Plug(h, v)) && Depth(Plug(h, v)) <= 124
    ensures
      var tokens, postfix := Before(h) + Behind(h), Early(h) + Late(h);
      && Convertible(tokens) && Convert(tokens) == Some(postfix)
      && PM.Evaluable(postfix) && PM.Top(a, at, postfix) == Shifted(a, at, h, a.zero)
  {
    ConvertsWithout(h, v);
    ConvertibleWithout(h, v);
    TopWithout(a, at, h);
    EvaluableWithout(h, v);
  }

  lemma ConvertibleWithout<V>(h: Hole<V>, v: V)
    requires WellFormed(Plug(h, v)) && Depth(Plug(h, v)) <= 124
    ensures Convertible(Before(h) + Behind(h))
  {
    var t := Plug(h, v);
    InfixNested(t, [], 0, 124);
    assert Infix(t) + [] == Infix(t);
    PlugInfix(h, v);
    NestedWithout(Before(h), v, Behind(h), 0, 124);
    NestedConvertible(Before(h) + Behind(h), 124);
  }

  lemma TopWithout<V>(a: Arith<V>, at: V, h: Hole<V>)
    ensures PM.Supplied(1, Early(h) + Late(h))
    ensures PM.Top(a, at, Early(h) + Late(h)) == Shifted(a, at, h, a.zero)
  {
    EvaluatesWithout(a, at, [], a.zero, h, []);
    assert Late(h) + [] == Late(h) && [] + [a.zero] == [a.zero];
  }

  lemma EvaluableWithout<V>(h: Hole<V>, v: V)
    requires WellFormed(Plug(h, v)) && Depth(Plug(h, v)) <= 124
    requires PM.Supplied(1, Early(h) + Late(h))
    ensures PM.Evaluable(Early(h) + Late(h))
  {
    PM.TreeRise(Plug(h, v));
    PlugPostfix(h, v);
    RiseWithout(1, Early(h), v, Late(h));
  }

  // ----- when a missing operand counts as zero -----

  predicate OnlyOpens<V>(tokens: seq<Token<V>>) {
    forall i | 0 <= i < |tokens| :: tokens[i].Operator? && tokens[i].op == '('
  }

  ghost predicate OnlyZeros<V>(tokens: seq<Token<V>>, zero: V) {
    forall t <- tokens :: t == Value(zero)
  }

  lemma {:induction false} OpensEmitNothing<V>(h: Hole<V>)
    ensures OnlyOpens(Before(h)) <==> Early(h) == []
  {
    match h
    case Here =>
    case InLeft(_, h', _) => OpensEmitNothing(h');
    case InRight(op, l, h') =>
      OperandFirst(l, [Operator(op)] + Before(h'));
      Regroup3(Infix(l), [Operator(op)], Before(h'));
    case InParen(h') =>
      OpensEmitNothing(h');
      assert Before(h)[1..] == Before(h');
      assert OnlyOpens(Before(h')) ==> OnlyOpens(Before(h));
      assert OnlyOpens(Before(h)) ==> forall i | 0 <= i < |Before(h')| :: Before(h')[i] == Before(h)[i + 1];
  }

  /** A tree's notation holds the operand its postfix notation starts with. */
  lemma {:induction false} OperandFirst<V>(e: Expr<V>, rest: seq<Token<V>>)
    ensures Postfix(e)[0] in Infix(e) && !Postfix(e)[0].Operator?
    ensures !OnlyOpens(Infix(e) + rest)
  {
    FirstOperand(e);
    var i :| 0 <= i < |Infix(e)| && Infix(e)[i] == Postfix(e)[0];
    assert (Infix(e) + rest)[i] == Postfix(e)[0];
  }

  lemma {:induction false} FirstOperand<V>(e: Expr<V>)
    ensures Postfix(e)[0] in Infix(e) && !Postfix(e)[0].Operator?
  {
    match e
    case Bin(op, l, r) =>
      FirstOperand(l);
      assert Postfix(e)[0] == Postfix(l)[0];
      assert forall t <- Infix(l) :: t in Infix(l) + [Operator(op)] + Infix(r);
    case Paren(i) => FirstOperand(i);
    case _ => assert Infix(e)[0] == Postfix(e)[0];
  }

  /** A literal zero, in parentheses or not. */
  predicate IsZero<V(==)>(e: Expr<V>, zero: V) {
    match e
    case Num(v) => v == zero
    case Paren(i) => IsZero(i, zero)
    case _ => false
  }

  /** Every left operand that the open leaf stands to the right of is a literal zero. */
  predicate ZerosLeft<V(==)>(h: Hole<V>, zero: V) {
    match h
    case Here => true
    case InRight(_, l, h') => IsZero(l, zero) && ZerosLeft(h', zero)
    case _ => ZerosLeft(h.hole, zero)
  }

  lemma {:induction false} ZeroTokens<V>(e: Expr<V>, zero: V)
    ensures OnlyZeros(Postfix(e), zero) <==> IsZero(e, zero)
  {
    match e
    case Bin(op, l, r) => assert Operator(op) in Postfix(e);
    case Paren(i) => ZeroTokens(i, zero);
    case _ => assert Postfix(e)[0] in Postfix(e);
  }

  lemma {:induction false} ZerosEmitted<V>(h: Hole<V>, zero: V)
    ensures OnlyZeros(Early(h), zero) <==> ZerosLeft(h, zero)
  {
    match h
    case Here =>
    case InRight(_, l, h') =>
      ZerosEmitted(h', zero);
      ZeroTokens(l, zero);
      assert forall t :: t in Early(h) <==> t in Postfix(l) || t in Early(h');
    case _ => ZerosEmitted(h.hole, zero);
  }

  lemma {:induction false} ZeroMeaning<V>(a: Arith<V>, at: V, e: Expr<V>, zero: V)
    requires IsZero(e, zero)
    ensures Meaning(a, at, e) == zero
  {
    if e.Paren? {
      ZeroMeaning(a, at, e.inner, zero);
    }
  }

  lemma {:induction false} ZerosShift<V>(a: Arith<V>, at: V, h: Hole<V>, zero: V)
    requires ZerosLeft(h, zero)
    ensures Shifted(a, at, h, zero) == Meaning(a, at, Plug(h, zero))
  {
    match h
    case Here =>
    case InLeft(_, h', _) => ZerosShift(a, at, h', zero);
    case InRight(_, l, h') =>
      ZeroMeaning(a, at, l, zero);
      ZerosShift(a, at, h', zero);
    case InParen(h') => ZerosShift(a, at, h', zero);
  }

  /** Values that record how they came about. */
  datatype Term = Leaf(n: nat) | At | Node(op: char, left: Term, right: Term)

  const ZERO: Term := Leaf(0)

  const TERMS: Arith<Term> := Arith(ZERO, (x, y) => Node('^', x, y), (x, y) => Node('+', x, y),
                                    (x, y) => Node('-', x, y), (x, y) => Node('/', x, y), (x, y) => Node('*', x, y))

  lemma TermsRecord(x: Term, y: Term, op: char)
    requires IsBinary(op)
    ensures Result(TERMS, x, y, op) == Node(op, x, y)
  {
  }

  lemma {:induction false} TermIsZero(e: Expr<Term>)
    requires WellFormed(e)
    ensures Meaning(TERMS, Term.At, e) == ZERO ==> IsZero(e, ZERO)
  {
    match e
    case Bin(op, l, r) => TermsRecord(Meaning(TERMS, Term.At, l), Meaning(TERMS, Term.At, r), op);
    case Paren(i) => TermIsZero(i);
    case _ =>
  }

  /** On terms the values only agree if no left operand had to be shifted for another. */
  lemma {:induction false} TermsTellApart(h: Hole<Term>, carry: Term)
    requires WellFormed(Plug(h, ZERO))
    requires Shifted(TERMS, Term.At, h, carry) == Meaning(TERMS, Term.At, Plug(h, ZERO))
    ensures carry == ZERO && ZerosLeft(h, ZERO)
  {
    match h
    case Here =>
    case InLeft(op, h', r) =>
      TermsRecord(Shifted(TERMS, Term.At, h', carry), Meaning(TERMS, Term.At, r), op);
      TermsRecord(Meaning(TERMS, Term.At, Plug(h', ZERO)), Meaning(TERMS, Term.At, r), op);
      TermsTellApart(h', carry);
    case InRight(op, l, h') =>
      var left := Meaning(TERMS, Term.At, l);
      TermsRecord(carry, Shifted(TERMS, Term.At, h', left), op);
      TermsRecord(left, Meaning(TERMS, Term.At, Plug(h', ZERO)), op);
      TermsTellApart(h', left);
      TermIsZero(l);
    case InParen(h') => TermsTellApart(h', carry);
  }

  // ----- in terms of tokens -----

  function EmittedFrom<V>(tokens: seq<Token<V>>): seq<Token<V>> {
    var y := Run(EmptyYard(), tokens);
    if y.Crashed? then [] else y.out
  }

  /** A sign, or any operator, that lacks its left operand at any place of a formula.  The
      list converts as it would with a zero in front of everything if and only if all that
      has been emitted by then are literal zeros; without such zeros in the formula so far,
      if and only if nothing but `(` precedes it. */
  lemma MissingLeft<V>(t: Expr<V>, pre: seq<Token<V>>, zero: V, rest: seq<Token<V>>)
    requires WellFormed(t) && Infix(t) == pre + [Value(zero)] + rest
    ensures
      var signed := Convert(pre + rest);
      var early := EmittedFrom(pre);
      && signed.Some?
      && (([Value(zero)] + signed.value == Postfix(t)) <==> OnlyZeros(early, zero))
      && (OnlyOpens(pre) <==> early == [])
      && (Value(zero) !in pre ==> (OnlyZeros(early, zero) <==> OnlyOpens(pre)))
  {
    var h := FindHole(t, pre, zero, rest);
    RunBefore(EmptyYard(), h, zero);
    assert EmptyYard<V>().out + Early(h) == Early(h);
    ConvertsWithout(h, zero);
    PlugPostfix(h, zero);
    OpensEmitNothing(h);
    Rotated(Value(zero), Early(h), Late(h));
    if Early(h) != [] {
      EmittedFirst(h);
      assert Early(h)[0] in Early(h);
    }
  }

  lemma {:induction false} Rotated<T>(z: T, a: seq<T>, b: seq<T>)
    ensures [z] + (a + b) == a + [z] + b <==> forall x <- a :: x == z
  {
    if a == [] {
      assert [z] + (a + b) == a + [z] + b;
    } else {
      var x, a' := a[0], a[1..];
      assert a == [x] + a';
      assert x in a && forall y :: y in a <==> y == x || y in a';
      Rotated(x, a', b);
      Regroup3([x], a', b);
      Regroup3([x], a', [z]);
      Regroup3([x], a' + [z], b);
      SameHeads(z, [x] + (a' + b), x, a' + [z] + b);
      assert (forall y <- a :: y == z) <==> x == z && forall y <- a' :: y == z;
    }
  }

  lemma {:induction false} EmittedFirst<V>(h: Hole<V>)
    requires Early(h) != []
    ensures Early(h)[0] in Before(h)
  {
    match h
    case InRight(op, l, h') =>
      FirstOperand(l);
      assert Early(h)[0] == Postfix(l)[0];
      InFront(Postfix(l)[0], Infix(l), [Operator(op)], Before(h'));
    case InLeft(_, h', _) => EmittedFirst(h');
    case InParen(h') =>
      EmittedFirst(h');
      InFront(Early(h)[0], [Operator('(')], Before(h'), []);
  }

  lemma InFront<T>(x: T, a: seq<T>, b: seq<T>, c: seq<T>)
    requires x in a || x in b
    ensures x in a + b && x in a + b + c
  {
    assert forall t <- a :: t in a + b;
    assert forall t <- b :: t in a + b;
  }

  /** The value: with zeros only to its left, a missing left operand counts as zero whatever
      the numbers and operations are. */
  lemma MissingZero<V>(a: Arith<V>, at: V, t: Expr<V>, pre: seq<Token<V>>, rest: seq<Token<V>>)
    requires WellFormed(t) && Infix(t) == pre + [Value(a.zero)] + rest && Depth(t) <= 124
    requires OnlyZeros(EmittedFrom(pre), a.zero)
    ensures Convertible(pre + rest) && PM.Evaluable(Convert(pre + rest).value)
    ensures PM.Top(a, at, Convert(pre + rest).value) == Meaning(a, at, t)
  {
    var h := FindHole(t, pre, a.zero, rest);
    RunBefore(EmptyYard(), h, a.zero);
    assert EmptyYard<V>().out + Early(h) == Early(h);
    MissingLiteral(a, at, h, a.zero);
    ZerosEmitted(h, a.zero);
    ZerosShift(a, at, h, a.zero);
  }

  /** In particular where nothing but `(` precedes, as in `(-@)*2`. */
  lemma BehindOpens<V>(a: Arith<V>, at: V, t: Expr<V>, pre: seq<Token<V>>, rest: seq<Token<V>>)
    requires WellFormed(t) && Infix(t) == pre + [Value(a.zero)] + rest && Depth(t) <= 124
    requires OnlyOpens(pre)
    ensures Convertible(pre + rest) && PM.Evaluable(Convert(pre + rest).value)
    ensures PM.Top(a, at, Convert(pre + rest).value) == Meaning(a, at, t)
  {
    MissingLeft(t, pre, a.zero, rest);
    MissingZero(a, at, t, pre, rest);
  }

  /** And the condition is exact: over terms, no other list has the value of the formula. */
  lemma MissingZeroOnly(t: Expr<Term>, pre: seq<Token<Term>>, rest: seq<Token<Term>>)
    requires WellFormed(t) && Infix(t) == pre + [Value(ZERO)] + rest && Depth(t) <= 124
    ensures Convertible(pre + rest) && PM.Evaluable(Convert(pre + rest).value)
    ensures PM.Top(TERMS, Term.At, Convert(pre + rest).value) == Meaning(TERMS, Term.At, t)
       <==> OnlyZeros(EmittedFrom(pre), ZERO)
  {
    var h := FindHole(t, pre, ZERO, rest);
    RunBefore(EmptyYard(), h, ZERO);
    assert EmptyYard<Term>().out + Early(h) == Early(h);
    MissingLiteral(TERMS, Term.At, h, ZERO);
    ZerosEmitted(h, ZERO);
    if ZerosLeft(h, ZERO) {
      ZerosShift(TERMS, Term.At, h, ZERO);
    } else if Shifted(TERMS, Term.At, h, ZERO) == Meaning(TERMS, Term.At, t) {
      TermsTellApart(h, ZERO);
    }
  }

  /** A zero may stand to the left: `0+-@` is read as `0+0-@` is. */
  lemma ZeroInFront<V>(zero: V) returns (t: Expr<V>, pre: seq<Token<V>>, rest: seq<Token<V>>)
    ensures WellFormed(t) && Infix(t) == pre + [Value(zero)] + rest && !OnlyOpens(pre)
    ensures Convert(pre + rest).Some? && [Value(zero)] + Convert(pre + rest).value == Postfix(t)
  {
    var inner := InRight('+', Num(zero), Here);
    var h := InLeft('-', inner, Expr<V>.At);
    t, pre, rest := Plug(h, zero), Before(h), Behind(h);
    assert Plug(inner, zero) == Bin('+', Num(zero), Num(zero));
    PlugInfix(h, zero);
    RunBefore(EmptyYard(), h, zero);
    assert Early(inner) == [Value(zero)] && Before(inner)[0] == Value(zero);
    MissingLeft(t, pre, zero, rest);
  }
}
