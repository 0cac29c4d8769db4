/** `math_infix_to_postfix`: infix to postfix over an operator stack of 500 slots. */
module ShuntingYard {
  import opened CStrings
  import opened ExprSyntax

  const SLOTS: nat := 500

  /** The converter between two tokens.  `stack` is `stack[1..t_sp]`, which only ever
      holds operators and is given as their characters; `low` says that `t_sp` is -1,
      as after a `)` without partner.  A crashed converter has followed `stack[-1]`. */
  datatype Yard<V> =
    | Crashed
    | Yard(low: bool, stack: string, out: seq<Token<V>>)

  /** The entries of a stack in the order they are popped. */
  function Reverse<V>(s: string): (r: seq<Token<V>>)
    ensures |r| == |s|
  {
    if s == [] then [] else Reverse(s[1..]) + [Operator(s[0])]
  }

  /** How many entries stay when those of priority `p` or more are popped. */
  function Keep(stack: string, p: nat): (n: nat)
    ensures n <= |stack|
    ensures n == 0 || Priority(stack[n - 1]) < p
    ensures forall i | n <= i < |stack| :: Priority(stack[i]) >= p
  {
    var top := |stack| - 1;
    if top >= 0 && p <= Priority(stack[top]) then Keep(stack[..top], p) else top + 1
  }

  /** How many entries stay when those above the last `(` are popped. */
  function KeepGroup(stack: string): (n: nat)
    ensures n <= |stack|
    ensures n == 0 || stack[n - 1] == '('
    ensures forall i | n <= i < |stack| :: stack[i] != '('
  {
    var top := |stack| - 1;
    if top >= 0 && stack[top] != '(' then KeepGroup(stack[..top]) else top + 1
  }

  function Step<V>(y: Yard<V>, t: Token<V>): Yard<V> {
    if y.Crashed? then y
    else if t == Operator('(') then
      // from t_sp == -1 the parenthesis lands in slot 0 and is forgotten
      if y.low then y.(low := false) else y.(stack := y.stack + ['('])
    else if t == Operator(')') then
      if y.low then Crashed
      else
        var n := KeepGroup(y.stack);
        Yard(n == 0, y.stack[..if n == 0 then 0 else n - 1], y.out + Reverse(y.stack[n..]))
    else if !t.Operator? then y.(out := y.out + [t])
    else if y.low then Crashed
    else
      var n := Keep(y.stack, Priority(t.op));
      Yard(false, y.stack[..n] + [t.op], y.out + Reverse(y.stack[n..]))
  }

  function Run<V>(y: Yard<V>, tokens: seq<Token<V>>): Yard<V>
    decreases |tokens|
  {
    if tokens == [] then y else Run(Step(y, tokens[0]), tokens[1..])
  }

  function Height<V>(y: Yard<V>): nat {
    if y.Crashed? then 0 else |y.stack|
  }

  /** The highest stack reached on the way. */
  function Peak<V>(y: Yard<V>, tokens: seq<Token<V>>): nat
    decreases |tokens|
  {
    if tokens == [] then Height(y)
    else
      var later := Peak(Step(y, tokens[0]), tokens[1..]);
      if later > Height(y) then later else Height(y)
  }

  function EmptyYard<V>(): Yard<V> { Yard(false, [], []) }

  /** The postfix list, or None where the C code leaves its array. */
  function Convert<V>(infix: seq<Token<V>>): Option<seq<Token<V>>> {
    var y := Run(EmptyYard(), infix);
    if y.Crashed? || y.low then None else Some(y.out + Reverse(y.stack))
  }

  predicate Convertible<V>(infix: seq<Token<V>>) {
    Convert(infix).Some? && Peak(EmptyYard(), infix) < SLOTS
  }

  // ----- the C function -----

  /** The array, stack pointer and list of the C function represent `y`. */
  ghost predicate Represents<V>(y: Yard<V>, slots: seq<Token<V>>, sp: int, postfix: seq<Token<V>>) {
    && -1 <= sp < |slots| == SLOTS
    && y.Yard? && y.low == (sp < 0) && |y.stack| == (if sp < 0 then 0 else sp)
    && (forall i :: 0 <= i < |y.stack| ==> slots[i + 1] == Operator(y.stack[i]))
    && y.out == postfix
  }

  lemma SlotAt<V>(y: Yard<V>, slots: seq<Token<V>>, sp: int, list: seq<Token<V>>, k: nat)
    requires Represents(y, slots, sp, list) && 0 < k <= |y.stack|
    ensures slots[k] == Operator(y.stack[k - 1])
  {
    assert slots[(k - 1) + 1] == Operator(y.stack[k - 1]);
  }

  /** Popping one more entry to the list. */
  lemma PopOne<V>(list: seq<Token<V>>, s: string, n: nat)
    requires 0 < n <= |s|
    ensures list + Reverse(s[n - 1..]) == list + Reverse(s[n..]) + [Operator(s[n - 1])]
  {
    assert s[n - 1..][1..] == s[n..];
  }

  /** The pop loop at a `)`: moves what lies above the last `(` to the list. */
  method PopGroup<V>(stack: array<Token<V>>, sp: nat, list: seq<Token<V>>, ghost y: Yard<V>)
      returns (sp': nat, list': seq<Token<V>>)
    requires Represents(y, stack[..], sp, list)
    ensures sp' == KeepGroup(y.stack)
    ensures list' == list + Reverse(y.stack[sp'..])
  {
    sp', list' := sp, list;
    ghost var n := KeepGroup(y.stack);
    if sp' > 0 {
      SlotAt(y, stack[..], sp, list, sp');
    }
    while sp' != 0 && stack[sp'].op != '('
      invariant n <= sp' <= sp
      invariant sp' > 0 ==> stack[sp'] == Operator(y.stack[sp' - 1])
      invariant list' == list + Reverse(y.stack[sp'..])
    {
      assert sp' != n;
      PopOne(list, y.stack, sp');
      list' := list' + [stack[sp']];
      sp' := sp' - 1;
      if sp' > 0 {
        SlotAt(y, stack[..], sp, list, sp');
      }
    }
  }

  /** The pop loop at an operator: moves what binds at least as tightly to the list. */
  method PopOperators<V>(stack: array<Token<V>>, sp: nat, list: seq<Token<V>>, op: char, ghost y: Yard<V>)
      returns (sp': nat, list': seq<Token<V>>)
    requires Represents(y, stack[..], sp, list)
    ensures sp' == Keep(y.stack, Priority(op))
    ensures list' == list + Reverse(y.stack[sp'..])
  {
    sp', list' := sp, list;
    ghost var n := Keep(y.stack, Priority(op));
    while sp' != 0 && Priority(op) <= Priority(stack[sp'].op)
      invariant n <= sp' <= sp
      invariant sp' > 0 ==> stack[sp'] == Operator(y.stack[sp' - 1])
      invariant list' == list + Reverse(y.stack[sp'..])
    {
      PopOne(list, y.stack, sp');
      list' := list' + [stack[sp']];
      sp' := sp' - 1;
      if sp' > 0 {
        SlotAt(y, stack[..], sp, list, sp');
      }
    }
  }

  /** The final pop loop. */
  method PopAll<V>(stack: array<Token<V>>, sp: nat, list: seq<Token<V>>, ghost y: Yard<V>)
      returns (list': seq<Token<V>>)
    requires Represents(y, stack[..], sp, list)
    ensures list' == list + Reverse(y.stack)
  {
    var sp' := sp;
    list' := list;
    while sp' != 0
      invariant 0 <= sp' <= sp
      invariant list' == list + Reverse(y.stack[sp'..])
    {
      PopOne(list, y.stack, sp');
      assert stack[..][sp'] == Operator(y.stack[sp' - 1]);
      list' := list' + [stack[sp']];
      sp' := sp' - 1;
    }
    assert y.stack[sp'..] == y.stack;
  }

  method ReadToken<V>(stack: array<Token<V>>, sp: int, list: seq<Token<V>>, t: Token<V>, ghost y: Yard<V>)
      returns (sp': int, list': seq<Token<V>>)
    requires Represents(y, stack[..], sp, list)
    requires !Step(y, t).Crashed? && |Step(y, t).stack| < SLOTS
    modifies stack
    ensures Represents(Step(y, t), stack[..], sp', list')
  {
    sp', list' := sp, list;
    if t == Operator('(') {
      sp' := sp' + 1;
      stack[sp'] := t;
    } else if t == Operator(')') {
      sp', list' := PopGroup(stack, sp', list', y);
      sp' := sp' - 1;
    } else if !t.Operator? {
      list' := list' + [t];
    } else if sp' == 0 {
      sp' := sp' + 1;
      stack[sp'] := t;
    } else {
      sp', list' := PopOperators(stack, sp', list', t.op, y);
      sp' := sp' + 1;
      stack[sp'] := t;
    }
  }

  method InfixToPostfix<V>(infix: seq<Token<V>>) returns (postfix: seq<Token<V>>)
    requires Convertible(infix)
    ensures Convert(infix) == Some(postfix)
  {
    var stack := new Token<V>[SLOTS](_ => Variable);
    var sp: int := 0;
    postfix := [];
    ghost var y := EmptyYard<V>();
    for p := 0 to |infix|
      invariant Represents(y, stack[..], sp, postfix)
      invariant Run(y, infix[p..]) == Run(EmptyYard(), infix)
      invariant Peak(y, infix[p..]) < SLOTS
    {
      CrashStays(Step(y, infix[p]), infix[p + 1..]);
      assert infix[p..][1..] == infix[p + 1..];
      sp, postfix := ReadToken(stack, sp, postfix, infix[p], y);
      y := Step(y, infix[p]);
    }
    postfix := PopAll(stack, sp, postfix, y);
  }

  lemma {:induction false} CrashStays<V>(y: Yard<V>, tokens: seq<Token<V>>)
    ensures y.Crashed? ==> Run(y, tokens).Crashed?
    decreases |tokens|
  {
    if y.Crashed? && tokens != [] {
      CrashStays(y, tokens[1..]);
    }
  }

  // ----- running over concatenations -----

  lemma {:induction false} RunAppend<V>(y: Yard<V>, a: seq<Token<V>>, b: seq<Token<V>>)
    ensures Run(y, a + b) == Run(Run(y, a), b)
    decreases |a|
  {
    if a == [] {
      assert a + b == b;
    } else {
      assert (a + b)[1..] == a[1..] + b;
      RunAppend(Step(y, a[0]), a[1..], b);
    }
  }

  lemma RunOne<V>(y: Yard<V>, t: Token<V>)
    ensures Run(y, [t]) == Step(y, t)
  {
  }

  lemma RunAround<V>(y: Yard<V>, a: seq<Token<V>>, t: Token<V>, b: seq<Token<V>>)
    ensures Run(y, a + [t] + b) == Run(Step(Run(y, a), t), b)
  {
    RunAppend(y, a + [t], b);
    RunAppend(y, a, [t]);
    RunOne(Run(y, a), t);
  }

  /** Tokens already sent to the list do not influence the rest of the run. */
  lemma {:induction false} OutputFrame<V>(y: Yard<V>, before: seq<Token<V>>, tokens: seq<Token<V>>)
    requires y.Yard?
    ensures
      var y' := Run(y, tokens);
      Run(y.(out := before + y.out), tokens) == if y'.Crashed? then y' else y'.(out := before + y'.out)
    decreases |tokens|
  {
    if tokens != [] {
      var t := tokens[0];
      StepFrame(y, before, t);
      if Step(y, t).Yard? {
        OutputFrame(Step(y, t), before, tokens[1..]);
      } else {
        CrashStays(Step(y, t), tokens[1..]);
      }
    }
  }

  lemma StepFrame<V>(y: Yard<V>, before: seq<Token<V>>, t: Token<V>)
    requires y.Yard?
    ensures
      var y' := Step(y, t);
      Step(y.(out := before + y.out), t) == if y'.Crashed? then y' else y'.(out := before + y'.out)
  {
  }
}
