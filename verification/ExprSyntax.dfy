/** Tokens and expression trees of the sensor formula language of hardinfo2/expr.c. */
module ExprSyntax {
  import opened CStrings
  import opened Seqs

  /** A MathToken: the variable is always `@`. */
  datatype Token<V> = Value(value: V) | Variable | Operator(op: char)

  function Priority(operation: char): (p: nat) {
    match operation
    case '^' => 3
    case '*' => 2
    case '/' => 2
    case '+' => 1
    case '-' => 1
    case _ => 0
  }

  /** Exactly the five characters that `Priority` ranks above a parenthesis. */
  predicate IsBinary(op: char) {
    Priority(op) > 0
  }

  /** The carrier of the evaluator: `zero` is what `memset` leaves in a stack slot. */
  datatype Arith<!V> = Arith(zero: V, power: (V, V) -> V, add: (V, V) -> V,
                             subtract: (V, V) -> V, divide: (V, V) -> V, multiply: (V, V) -> V)

  function Result<V>(a: Arith<V>, op1: V, op2: V, operation: char): V {
    match operation
    case '^' => a.power(op1, op2)
    case '+' => a.add(op1, op2)
    case '-' => a.subtract(op1, op2)
    case '/' => a.divide(op1, op2)
    case '*' => a.multiply(op1, op2)
    case _ => a.zero
  }

  /** Syntax trees.  `Paren` records the parentheses a formula is written with. */
  datatype Expr<V> =
    | Num(value: V)
    | At
    | Bin(op: char, left: Expr<V>, right: Expr<V>)
    | Paren(inner: Expr<V>)

  function Meaning<V>(a: Arith<V>, at: V, e: Expr<V>): V {
    match e
    case Num(v) => v
    case At => at
    case Bin(op, l, r) => Result(a, Meaning(a, at, l), Meaning(a, at, r), op)
    case Paren(i) => Meaning(a, at, i)
  }

  /** How tightly the outermost construct of `e` binds. */
  function Binding<V>(e: Expr<V>): nat {
    if e.Bin? then Priority(e.op) else 4
  }

  /** Every operator is left-associative: a left operand may bind as tightly as
      its parent, a right operand must bind tighter, unless it is parenthesised. */
  predicate WellFormed<V>(e: Expr<V>) {
    match e
    case Bin(op, l, r) =>
      && IsBinary(op) && WellFormed(l) && WellFormed(r)
      && Binding(l) >= Priority(op) && Binding(r) > Priority(op)
    case Paren(i) => WellFormed(i)
    case _ => true
  }

  /** How deeply the parentheses of `e` nest. */
  function Depth<V>(e: Expr<V>): nat {
    match e
    case Bin(_, l, r) => if Depth(l) > Depth(r) then Depth(l) else Depth(r)
    case Paren(i) => 1 + Depth(i)
    case _ => 0
  }

  /** Infix notation of a tree. */
  function Infix<V>(e: Expr<V>): (s: seq<Token<V>>)
    ensures s != []
  {
    match e
    case Num(v) => [Value(v)]
    case At => [Variable]
    case Bin(op, l, r) => Infix(l) + [Operator(op)] + Infix(r)
    case Paren(i) => [Operator('(')] + Infix(i) + [Operator(')')]
  }

  /** Postfix notation of a tree: its operands and operators in post-order. */
  function Postfix<V>(e: Expr<V>): (s: seq<Token<V>>)
    ensures s != []
  {
    match e
    case Num(v) => [Value(v)]
    case At => [Variable]
    case Bin(op, l, r) => Postfix(l) + Postfix(r) + [Operator(op)]
    case Paren(i) => Postfix(i)
  }

  // ----- adding the parentheses a tree needs -----

  predicate ParenFree<V>(e: Expr<V>) {
    match e
    case Bin(op, l, r) => IsBinary(op) && ParenFree(l) && ParenFree(r)
    case Paren(_) => false
    case _ => true
  }

  function Wrap<V>(needed: bool, e: Expr<V>): Expr<V> {
    if needed then Paren(e) else e
  }

  /** Writes a bare tree with parentheses exactly where priority and
      left-associativity would otherwise regroup it. */
  function Bracketed<V>(e: Expr<V>): Expr<V> {
    match e
    case Bin(op, l, r) =>
      Bin(op, Wrap(Binding(l) < Priority(op), Bracketed(l)),
          Wrap(Binding(r) <= Priority(op), Bracketed(r)))
    case _ => e
  }

  lemma {:induction false} BracketedIsFaithful<V>(a: Arith<V>, at: V, e: Expr<V>)
    requires ParenFree(e)
    ensures WellFormed(Bracketed(e)) && Binding(Bracketed(e)) == Binding(e)
    ensures Meaning(a, at, Bracketed(e)) == Meaning(a, at, e)
    ensures Postfix(Bracketed(e)) == Postfix(e)
  {
    BracketedWellFormed(e);
    if e.Bin? {
      BracketedIsFaithful(a, at, e.left);
      BracketedIsFaithful(a, at, e.right);
    }
  }

  lemma {:induction false} BracketedWellFormed<V>(e: Expr<V>)
    requires ParenFree(e)
    ensures WellFormed(Bracketed(e)) && Binding(Bracketed(e)) == Binding(e)
  {
    if e.Bin? {
      BracketedWellFormed(e.left);
      BracketedWellFormed(e.right);
    }
  }

  // ----- a leading sign -----

  /** The tree read when `sign` precedes `e`: the literal `zero` becomes the left
      operand of `sign`, at the left end of the additive chain `e` starts with. */
  function Signed<V>(zero: V, sign: char, e: Expr<V>): Expr<V> {
    if Binding(e) > 1 || !e.Bin? then Bin(sign, Num(zero), e)
    else Bin(e.op, Signed(zero, sign, e.left), e.right)
  }

  lemma {:induction false} SignedPrints<V>(zero: V, sign: char, e: Expr<V>)
    requires IsSign(sign) && WellFormed(e)
    ensures WellFormed(Signed(zero, sign, e)) && Binding(Signed(zero, sign, e)) == 1
    ensures Depth(Signed(zero, sign, e)) == Depth(e)
    ensures Infix(Signed(zero, sign, e)) == [Value(zero), Operator(sign)] + Infix(e)
  {
    SignedInfix(zero, sign, e);
    if e.Bin? && Binding(e) <= 1 {
      SignedPrints(zero, sign, e.left);
    }
  }

  lemma {:induction false} SignedInfix<V>(zero: V, sign: char, e: Expr<V>)
    ensures Infix(Signed(zero, sign, e)) == [Value(zero), Operator(sign)] + Infix(e)
  {
    if e.Bin? && Binding(e) <= 1 {
      SignedInfix(zero, sign, e.left);
      Append3([Value(zero), Operator(sign)], Infix(e.left), [Operator(e.op)], Infix(e.right));
    }
  }

  lemma {:induction false} SignedStarts<V>(zero: V, sign: char, e: Expr<V>)
    ensures Postfix(Signed(zero, sign, e))[0] == Value(zero)
  {
    if e.Bin? && Binding(e) <= 1 {
      SignedStarts(zero, sign, e.left);
    }
  }

  // ----- every grammatical token list is the notation of some tree -----

  /** How many parentheses are open, and whether an operand must come next. */
  datatype Scan = Scan(depth: nat, needOperand: bool)

  function ScanToken<V>(s: Scan, t: Token<V>): Option<Scan> {
    if s.needOperand then
      if t == Operator('(') then Some(Scan(s.depth + 1, true))
      else if t.Operator? then None
      else Some(Scan(s.depth, false))
    else if t == Operator(')') then
      if s.depth > 0 then Some(Scan(s.depth - 1, false)) else None
    else if t.Operator? && IsBinary(t.op) then Some(Scan(s.depth, true))
    else None
  }

  /** Operands and binary operators alternate, and parentheses match. */
  predicate Grammatical<V>(s: Scan, tokens: seq<Token<V>>)
    decreases |tokens|
  {
    if tokens == [] then s == Scan(0, false)
    else
      var s' := ScanToken(s, tokens[0]);
      s'.Some? && Grammatical(s'.value, tokens[1..])
  }

  const START: Scan := Scan(0, true)

  /** What has been read of one parenthesised group. */
  datatype Group<V> = Empty | Complete(e: Expr<V>) | Pending(e: Expr<V>, op: char)

  predicate GroupOk<V>(g: Group<V>) {
    match g
    case Empty => true
    case Complete(e) => WellFormed(e)
    case Pending(e, op) => WellFormed(e) && IsBinary(op)
  }

  function GroupInfix<V>(g: Group<V>): seq<Token<V>> {
    match g
    case Empty => []
    case Complete(e) => Infix(e)
    case Pending(e, op) => Infix(e) + [Operator(op)]
  }

  /** Adds `op atom` at the right end of a chain. */
  function Extend<V>(e: Expr<V>, op: char, atom: Expr<V>): Expr<V> {
    if e.Bin? && Priority(e.op) < Priority(op) then Bin(e.op, e.left, Extend(e.right, op, atom))
    else Bin(op, e, atom)
  }

  lemma {:induction false} ExtendPrints<V>(e: Expr<V>, op: char, atom: Expr<V>)
    requires WellFormed(e) && IsBinary(op) && WellFormed(atom) && !atom.Bin?
    ensures WellFormed(Extend(e, op, atom))
    ensures Binding(Extend(e, op, atom)) == if Binding(e) < Priority(op) then Binding(e) else Priority(op)
    ensures Infix(Extend(e, op, atom)) == Infix(e) + [Operator(op)] + Infix(atom)
  {
    if e.Bin? && Priority(e.op) < Priority(op) {
      ExtendPrints(e.right, op, atom);
      Append3(Infix(e.left) + [Operator(e.op)], Infix(e.right), [Operator(op)], Infix(atom));
    }
  }

  function Operand<V>(g: Group<V>, atom: Expr<V>): Group<V>
    requires !g.Complete?
  {
    if g.Pending? then Complete(Extend(g.e, g.op, atom)) else Complete(atom)
  }

  lemma OperandPrints<V>(g: Group<V>, atom: Expr<V>)
    requires !g.Complete? && GroupOk(g) && WellFormed(atom) && !atom.Bin?
    ensures GroupOk(Operand(g, atom))
    ensures GroupInfix(Operand(g, atom)) == GroupInfix(g) + Infix(atom)
  {
    if g.Pending? {
      ExtendPrints(g.e, g.op, atom);
    }
  }

  /** Reads one group after another: `outer` are the groups still open around `g`. */
  datatype Reader<V> = Top(g: Group<V>) | Inside(outer: Reader<V>, g: Group<V>)

  function Nesting<V>(r: Reader<V>): nat {
    if r.Top? then 0 else 1 + Nesting(r.outer)
  }

  function ScanOf<V>(r: Reader<V>): Scan {
    Scan(Nesting(r), !r.g.Complete?)
  }

  predicate ReaderOk<V>(r: Reader<V>) {
    GroupOk(r.g) && (r.Inside? ==> ReaderOk(r.outer) && !r.outer.g.Complete?)
  }

  /** The tokens read so far. */
  function ReadInfix<V>(r: Reader<V>): seq<Token<V>> {
    if r.Top? then GroupInfix(r.g)
    else ReadInfix(r.outer) + [Operator('(')] + GroupInfix(r.g)
  }

  function Advance<V>(r: Reader<V>, t: Token<V>): Reader<V>
    requires ReaderOk(r) && ScanToken(ScanOf(r), t).Some?
  {
    if r.g.Complete? && t.op == ')' then r.outer.(g := Operand(r.outer.g, Paren(r.g.e)))
    else if r.g.Complete? then r.(g := Pending(r.g.e, t.op))
    else if t == Operator('(') then Inside(r, Empty)
    else r.(g := Operand(r.g, if t.Value? then Num(t.value) else At))
  }

  lemma ReplacePrints<V>(r: Reader<V>, g: Group<V>, more: seq<Token<V>>)
    requires GroupInfix(g) == GroupInfix(r.g) + more
    ensures ReadInfix(r.(g := g)) == ReadInfix(r) + more && Nesting(r.(g := g)) == Nesting(r)
  {
  }

  lemma ClosePrints<V>(r: Reader<V>)
    requires ReaderOk(r) && r.Inside? && r.g.Complete?
    ensures
      var r' := r.outer.(g := Operand(r.outer.g, Paren(r.g.e)));
      ReaderOk(r') && ReadInfix(r') == ReadInfix(r) + [Operator(')')] && Nesting(r') == Nesting(r.outer)
  {
    var atom := Paren(r.g.e);
    OperandPrints(r.outer.g, atom);
    ReplacePrints(r.outer, Operand(r.outer.g, atom), Infix(atom));
    Append3(ReadInfix(r.outer), [Operator('(')], Infix(r.g.e), [Operator(')')]);
  }

  lemma AdvancePrints<V>(r: Reader<V>, t: Token<V>)
    requires ReaderOk(r) && ScanToken(ScanOf(r), t).Some?
    ensures ReaderOk(Advance(r, t)) && ReadInfix(Advance(r, t)) == ReadInfix(r) + [t]
    ensures ScanOf(Advance(r, t)) == ScanToken(ScanOf(r), t).value
  {
    if r.g.Complete? && t.op == ')' {
      ClosePrints(r);
    } else if r.g.Complete? {
      ReplacePrints(r, Pending(r.g.e, t.op), [t]);
    } else if !t.Operator? {
      var atom := if t.Value? then Num(t.value) else At;
      OperandPrints(r.g, atom);
      ReplacePrints(r, Operand(r.g, atom), Infix(atom));
    }
  }

  lemma {:induction false} ParseFrom<V>(r: Reader<V>, tokens: seq<Token<V>>) returns (e: Expr<V>)
    requires ReaderOk(r) && Grammatical(ScanOf(r), tokens)
    ensures WellFormed(e) && Infix(e) == ReadInfix(r) + tokens
    decreases |tokens|
  {
    if tokens == [] {
      e := r.g.e;
    } else {
      AdvancePrints(r, tokens[0]);
      e := ParseFrom(Advance(r, tokens[0]), tokens[1..]);
      assert tokens == [tokens[0]] + tokens[1..];
    }
  }

  lemma GrammaticalIsInfix<V>(tokens: seq<Token<V>>) returns (e: Expr<V>)
    requires Grammatical(START, tokens)
    ensures WellFormed(e) && Infix(e) == tokens
  {
    e := ParseFrom(Top(Empty), tokens);
  }

  /** The converse: a well-formed tree is written grammatically. */
  lemma {:induction false} InfixIsGrammatical<V>(e: Expr<V>, rest: seq<Token<V>>, depth: nat)
    requires WellFormed(e)
    ensures Grammatical(Scan(depth, true), Infix(e) + rest) == Grammatical(Scan(depth, false), rest)
  {
    match e
    case Bin(op, l, r) =>
      var tail := [Operator(op)] + (Infix(r) + rest);
      assert Infix(e) + rest == Infix(l) + tail;
      InfixIsGrammatical(l, tail, depth);
      ScansFirst(Scan(depth, false), Operator(op), Infix(r) + rest);
      InfixIsGrammatical(r, rest, depth);
    case Paren(i) =>
      var tail := [Operator(')')] + rest;
      assert Infix(e) + rest == [Operator('(')] + (Infix(i) + tail);
      ScansFirst(Scan(depth, true), Operator('('), Infix(i) + tail);
      InfixIsGrammatical(i, tail, depth + 1);
      ScansFirst(Scan(depth + 1, false), Operator(')'), rest);
    case _ =>
      ScansFirst(Scan(depth, true), Infix(e)[0], rest);
      assert Infix(e) == [Infix(e)[0]];
  }

  lemma ScansFirst<V>(s: Scan, t: Token<V>, rest: seq<Token<V>>)
    ensures Grammatical(s, [t] + rest) == (ScanToken(s, t).Some? && Grammatical(ScanToken(s, t).value, rest))
  {
    assert ([t] + rest)[1..] == rest;
  }
}
