/** `math_string_to_infix`: text to tokens.  A literal is kept as its text; the number
    read from it is the business of a parameter. */
module Lexer {
  import opened CStrings
  import opened ExprSyntax

  const VALUE_SIZE: nat := 32

  predicate IsOperatorChar(c: char) {
    IsBinary(c) || c == '(' || c == ')'
  }

  /** The characters a literal may go on with: a `-` among them. */
  predicate IsLiteralChar(c: char) {
    c == '-' || c == '.' || IsDigit(c)
  }

  function LiteralRun(s: cstring): (n: nat)
    ensures n <= |s|
    ensures forall i | 0 <= i < n :: IsLiteralChar(s[i])
    ensures n < |s| ==> !IsLiteralChar(s[n])
  {
    if s == [] || !IsLiteralChar(s[0]) then 0 else 1 + LiteralRun(s[1..])
  }

  function Cons<T>(t: T, rest: Option<seq<T>>): Option<seq<T>> {
    if rest.None? then None else Some([t] + rest.value)
  }

  /** The tokens of `s`; None, the NULL list, if it holds an invalid character. */
  function Lex(s: cstring): Option<seq<Token<cstring>>> {
    if s == [] then Some([])
    else if IsOperatorChar(s[0]) then Cons(Operator(s[0]), Lex(s[1..]))
    else if s[0] == '@' then Cons(Variable, Lex(s[1..]))
    else if IsLiteralChar(s[0]) then
      var n := LiteralRun(s);
      Cons(Value(s[..n]), Lex(s[n..]))
    else if IsSpace(s[0]) then Lex(s[1..])
    else None
  }

  /** Every literal the lexer reaches fits its buffer with the terminator. */
  predicate LiteralsFit(s: cstring) {
    if s == [] then true
    else if IsOperatorChar(s[0]) || s[0] == '@' then LiteralsFit(s[1..])
    else if IsLiteralChar(s[0]) then
      var n := LiteralRun(s);
      n < VALUE_SIZE && LiteralsFit(s[n..])
    else IsSpace(s[0]) ==> LiteralsFit(s[1..])
  }

  function ReadToken<V>(read: cstring -> V, t: Token<cstring>): Token<V> {
    match t
    case Value(text) => Value(read(text))
    case Variable => Variable
    case Operator(op) => Operator(op)
  }

  function ReadTokens<V>(read: cstring -> V, tokens: seq<Token<cstring>>): (r: seq<Token<V>>)
    ensures |r| == |tokens|
  {
    seq(|tokens|, i requires 0 <= i < |tokens| => ReadToken(read, tokens[i]))
  }

  lemma ReadTokensAppend<V>(read: cstring -> V, a: seq<Token<cstring>>, b: seq<Token<cstring>>)
    ensures ReadTokens(read, a + b) == ReadTokens(read, a) + ReadTokens(read, b)
  {
  }

  method StringToInfix<V(0)>(s: cstring, read: cstring -> V) returns (infix: Option<seq<Token<V>>>)
    requires LiteralsFit(s)
    ensures infix == match Lex(s) case None => None case Some(tokens) => Some(ReadTokens(read, tokens))
  {
    var list: seq<Token<V>> := [];
    ghost var made: seq<Token<cstring>> := [];
    var expr := 0;
    assert s[expr..] == s;
    JoinNothing(Lex(s));
    while expr < |s|
      invariant 0 <= expr <= |s| && LiteralsFit(s[expr..])
      invariant list == ReadTokens(read, made)
      invariant Lex(s) == Join(made, Lex(s[expr..]))
    {
      var c := s[expr];
      LexNext(s, expr);
      if IsOperatorChar(c) {
        Emit(read, list, made, Operator(c), Lex(s[expr + 1..]));
        list, made := list + [Operator(c)], made + [Operator(c)];
        expr := expr + 1;
      } else if c == '@' {
        Emit(read, list, made, Variable, Lex(s[expr + 1..]));
        list, made := list + [Variable], made + [Variable];
        expr := expr + 1;
      } else if IsLiteralChar(c) {
        var text := ReadLiteral(s, expr);
        Emit(read, list, made, Value(text), Lex(s[expr + |text|..]));
        list, made := list + [Value(read(text))], made + [Value(text)];
        expr := expr + |text|;
      } else if IsSpace(c) {
        expr := expr + 1;
      } else {
        return None;
      }
    }
    assert made + [] == made;
    return Some(list);
  }

  /** What is lexed from one place on, by the first character there. */
  lemma LexNext(s: cstring, expr: nat)
    requires expr < |s| && LiteralsFit(s[expr..])
    ensures
      var (c, here, next) := (s[expr], s[expr..], s[expr + 1..]);
      if IsOperatorChar(c) then LiteralsFit(next) && Lex(here) == Cons(Operator(c), Lex(next))
      else if c == '@' then LiteralsFit(next) && Lex(here) == Cons(Variable, Lex(next))
      else if IsLiteralChar(c) then
        var n := LiteralRun(here);
        && 0 < n < VALUE_SIZE && expr + n <= |s| && LiteralsFit(s[expr + n..])
        && Lex(here) == Cons(Value(here[..n]), Lex(s[expr + n..]))
      else if IsSpace(c) then LiteralsFit(next) && Lex(here) == Lex(next)
      else Lex(here) == None
  {
    var here := s[expr..];
    assert here[1..] == s[expr + 1..];
    if IsLiteralChar(s[expr]) {
      var n := LiteralRun(here);
      assert here[n..] == s[expr + n..];
    }
  }

  /** One more token, in the C list and in the list of texts. */
  lemma Emit<V>(read: cstring -> V, list: seq<Token<V>>, made: seq<Token<cstring>>, t: Token<cstring>,
                rest: Option<seq<Token<cstring>>>)
    requires list == ReadTokens(read, made)
    ensures list + [ReadToken(read, t)] == ReadTokens(read, made + [t])
    ensures Join(made, Cons(t, rest)) == Join(made + [t], rest)
  {
    JoinCons(made, t, rest);
    ReadTokensAppend(read, made, [t]);
  }

  /** The inner loop: copies a literal to its buffer. */
  method ReadLiteral(s: cstring, start: nat) returns (text: cstring)
    requires start < |s| && IsLiteralChar(s[start]) && LiteralRun(s[start..]) < VALUE_SIZE
    ensures text == s[start..][..LiteralRun(s[start..])]
  {
    var value := new char[VALUE_SIZE];
    var expr, v := start, 0;
    ghost var run := LiteralRun(s[start..]);
    value[v] := s[expr];
    expr, v := expr + 1, v + 1;
    while expr < |s| && IsLiteralChar(s[expr])
      invariant 1 <= v <= run && expr == start + v
      invariant forall k | 0 <= k < v :: value[k] == s[start + k]
    {
      assert s[start..][v] == s[expr];
      value[v] := s[expr];
      expr, v := expr + 1, v + 1;
    }
    assert value[..v] == s[start..][..v];
    value[v] := NUL;
    text := value[..v];
  }

  /** What has been made, followed by what is still to come. */
  function Join<T>(made: seq<T>, rest: Option<seq<T>>): Option<seq<T>> {
    if rest.None? then None else Some(made + rest.value)
  }

  lemma JoinNothing<T>(rest: Option<seq<T>>)
    ensures Join([], rest) == rest
  {
    assert rest.Some? ==> [] + rest.value == rest.value;
  }

  lemma JoinCons<T>(made: seq<T>, t: T, rest: Option<seq<T>>)
    ensures Join(made, Cons(t, rest)) == Join(made + [t], rest)
  {
    if rest.Some? {
      assert made + ([t] + rest.value) == made + [t] + rest.value;
    }
  }

  // ----- printing tokens and reading them back -----

  /** The tokens the lexer can make.  A literal never starts with `-`. */
  predicate LexerToken(t: Token<cstring>) {
    match t
    case Value(text) => text != [] && text[0] != '-' && forall c <- text :: IsLiteralChar(c)
    case Variable => true
    case Operator(op) => IsOperatorChar(op)
  }

  function Text(t: Token<cstring>): (s: cstring)
    requires LexerToken(t)
    ensures s != []
  {
    match t
    case Value(text) => text
    case Variable => ['@']
    case Operator(op) => [op]
  }

  predicate Blank(gap: cstring) {
    forall i | 0 <= i < |gap| :: IsSpace(gap[i])
  }

  predicate Printable(tokens: seq<Token<cstring>>, gaps: seq<cstring>) {
    && |gaps| == |tokens| + 1
    && (forall i | 0 <= i < |tokens| :: LexerToken(tokens[i]))
    && (forall i | 0 <= i < |gaps| :: Blank(gaps[i]))
  }

  /** The tokens with white space around them: `gaps[i]` precedes token `i`. */
  function Print(tokens: seq<Token<cstring>>, gaps: seq<cstring>): cstring
    requires Printable(tokens, gaps)
  {
    if tokens == [] then gaps[0]
    else gaps[0] + (Text(tokens[0]) + Print(tokens[1..], gaps[1..]))
  }

  /** Where a literal is followed at once by a literal or a `-`, the two run together. */
  predicate Apart(t: Token<cstring>, gap: cstring, next: Token<cstring>) {
    t.Value? && gap == [] ==> !next.Value? && next != Operator('-')
  }

  predicate Separated(tokens: seq<Token<cstring>>, gaps: seq<cstring>)
    requires |gaps| == |tokens| + 1
  {
    forall i | 0 < i < |tokens| :: Apart(tokens[i - 1], gaps[i], tokens[i])
  }

  lemma {:induction false} LexSkipsSpace(gap: cstring, s: cstring)
    requires Blank(gap)
    ensures Lex(gap + s) == Lex(s) && LiteralsFit(gap + s) == LiteralsFit(s)
  {
    if gap == [] {
      assert gap + s == s;
    } else {
      assert (gap + s)[0] == gap[0] && (gap + s)[1..] == gap[1..] + s;
      LexSkipsSpace(gap[1..], s);
    }
  }

  lemma {:induction false} RunOfText(text: cstring, s: cstring)
    requires forall c <- text :: IsLiteralChar(c)
    ensures LiteralRun(text + s) == |text| + LiteralRun(s)
  {
    if text == [] {
      assert text + s == s;
    } else {
      assert (text + s)[1..] == text[1..] + s;
      RunOfText(text[1..], s);
    }
  }

  /** What follows a literal in the printed text, and whether it lengthens the literal. */
  lemma Follows(tokens: seq<Token<cstring>>, gaps: seq<cstring>)
    requires Printable(tokens, gaps)
    ensures LiteralRun(Print(tokens, gaps)) > 0
       <==> gaps[0] == [] && tokens != [] && (tokens[0].Value? || tokens[0] == Operator('-'))
  {
    if gaps[0] != [] {
      assert Print(tokens, gaps)[0] == gaps[0][0];
      assert IsSpace(gaps[0][0]);
    } else if tokens != [] {
      var rest := Print(tokens[1..], gaps[1..]);
      assert [] + (Text(tokens[0]) + rest) == Text(tokens[0]) + rest;
      StartsLiteral(tokens[0], rest);
    }
  }

  lemma StartsLiteral(t: Token<cstring>, rest: cstring)
    requires LexerToken(t)
    ensures LiteralRun(Text(t) + rest) > 0 <==> t.Value? || t == Operator('-')
  {
    assert (Text(t) + rest)[0] == Text(t)[0];
  }

  lemma SeparatedTail(tokens: seq<Token<cstring>>, gaps: seq<cstring>)
    requires |gaps| == |tokens| + 1 && tokens != []
    ensures Separated(tokens, gaps)
       <==> (|tokens| > 1 ==> Apart(tokens[0], gaps[1], tokens[1])) && Separated(tokens[1..], gaps[1..])
  {
    if Separated(tokens[1..], gaps[1..]) && (|tokens| > 1 ==> Apart(tokens[0], gaps[1], tokens[1])) {
      forall i | 0 < i < |tokens|
        ensures Apart(tokens[i - 1], gaps[i], tokens[i])
      {
        if i > 1 {
          assert Apart(tokens[1..][i - 2], gaps[1..][i - 1], tokens[1..][i - 1]);
        }
      }
    }
  }

  lemma LexHead(t: Token<cstring>, rest: cstring)
    requires LexerToken(t)
    requires t.Value? ==> LiteralRun(rest) == 0
    ensures Lex(Text(t) + rest) == Cons(t, Lex(rest))
    ensures LiteralsFit(Text(t) + rest) == (LiteralsFit(rest) && (t.Value? ==> |t.value| < VALUE_SIZE))
  {
    if t.Value? {
      LexHeadValue(t.value, rest);
    } else {
      assert (Text(t) + rest)[1..] == rest;
    }
  }

  lemma LexHeadValue(text: cstring, rest: cstring)
    requires LexerToken(Value(text)) && LiteralRun(rest) == 0
    ensures Lex(text + rest) == Cons(Value(text), Lex(rest))
    ensures LiteralsFit(text + rest) == (LiteralsFit(rest) && |text| < VALUE_SIZE)
  {
    RunOfText(text, rest);
    assert (text + rest)[..|text|] == text && (text + rest)[|text|..] == rest;
  }

  lemma LexMerged(text: cstring, rest: cstring)
    requires LexerToken(Value(text)) && LiteralRun(rest) > 0
    ensures
      var lexed := Lex(text + rest);
      lexed.Some? ==> lexed.value != [] && lexed.value[0] != Value(text)
  {
    RunOfText(text, rest);
    assert |(text + rest)[..LiteralRun(text + rest)]| > |text|;
  }

  /** Printed tokens are read back exactly when no literal runs into what follows it. */
  lemma {:induction false} LexPrint(tokens: seq<Token<cstring>>, gaps: seq<cstring>)
    requires Printable(tokens, gaps)
    ensures Lex(Print(tokens, gaps)) == Some(tokens) <==> Separated(tokens, gaps)
    ensures Separated(tokens, gaps) ==>
      (LiteralsFit(Print(tokens, gaps)) <==> forall t <- tokens :: t.Value? ==> |t.value| < 32)
  {
    if tokens == [] {
      LexSkipsSpace(gaps[0], []);
      assert gaps[0] + [] == gaps[0];
    } else {
      var t, rest := tokens[0], Print(tokens[1..], gaps[1..]);
      LexSkipsSpace(gaps[0], Text(t) + rest);
      Follows(tokens[1..], gaps[1..]);
      SeparatedTail(tokens, gaps);
      if t.Value? && LiteralRun(rest) > 0 {
        LexMerged(t.value, rest);
      } else {
        LexHead(t, rest);
        LexPrint(tokens[1..], gaps[1..]);
        assert tokens == [t] + tokens[1..];
      }
    }
  }

  // ----- which characters are which -----

  /** The characters of formulas, written out. */
  lemma FormulaChars(c: char)
    ensures IsOperatorChar(c) <==> c in ['+', '-', '/', '*', '^', '(', ')']
    ensures IsLiteralChar(c) <==> c in ['-', '.', '1', '2', '3', '4', '5', '6', '7', '8', '9', '0']
    ensures IsSpace(c) <==> c in [' ', '\t', '\n', '\U{B}', '\U{C}', '\r']
  {
  }

  predicate IsFormulaChar(c: char) {
    || c in ['+', '-', '/', '*', '^', '(', ')', '@', '.']
    || '0' <= c <= '9'
    || c in [' ', '\t', '\n', '\U{B}', '\U{C}', '\r']
  }

  /** A text has no tokens exactly if it holds a character that no formula has. */
  lemma {:induction false} LexFails(s: cstring)
    ensures Lex(s) == None <==> exists i | 0 <= i < |s| :: !IsFormulaChar(s[i])
    decreases |s|
  {
    if s != [] {
      FormulaChars(s[0]);
      var n := if IsLiteralChar(s[0]) && !IsOperatorChar(s[0]) then LiteralRun(s) else 1;
      forall i | 0 <= i < n
        ensures IsFormulaChar(s[i]) || (n == 1 && Lex(s) == None)
      {
        FormulaChars(s[i]);
      }
      LexFails(s[n..]);
      assert forall i | n <= i < |s| :: s[i] == s[n..][i - n];
    }
  }
}
