/** The calculator's infix to postfix conversion and its postfix evaluator. */
module Calculator {

  datatype TokenType = NumberTok | VariableTok | FunctionTok | OperatorTok | LParenTok | RParenTok | CommaTok

  /** `value` is what the number token holds; operators and functions are told apart by `str`. */
  datatype CalcToken<V> = CalcToken(kind: TokenType, str: string, value: V)

  const STACK_SIZE: nat := 256

  /** "^" binds like a power: the later comparison that would make it an exclusive or is never reached. */
  function Precedence(op: string): (p: nat)
    ensures p <= 7
  {
    if op == "~" || op == "!" then 7
    else if op == "^" then 6
    else if op == "*" || op == "/" || op == "%" then 5
    else if op == "+" || op == "-" then 4
    else if op == "<<" || op == ">>" then 3
    else if op == "&" then 2
    else if op == "|" then 1
    else 0
  }

  // ----- conversion as a function of stack and output -----

  /** The operator stack, bottom first, and the output so far. */
  datatype State<V> = State(stack: seq<CalcToken<V>>, output: seq<CalcToken<V>>)

  /** Pops operators that bind at least as tightly as `op`. */
  function PopOperators<V>(s: State<V>, op: string): State<V>
    decreases |s.stack|
  {
    var n := |s.stack|;
    if n > 0 && s.stack[n - 1].kind.OperatorTok? && Precedence(s.stack[n - 1].str) >= Precedence(op)
    then PopOperators(State(s.stack[..n - 1], s.output + [s.stack[n - 1]]), op)
    else s
  }

  /** Pops down to the nearest left parenthesis. */
  function PopToParen<V>(s: State<V>): State<V>
    decreases |s.stack|
  {
    var n := |s.stack|;
    if n > 0 && !s.stack[n - 1].kind.LParenTok?
    then PopToParen(State(s.stack[..n - 1], s.output + [s.stack[n - 1]]))
    else s
  }

  function PopAll<V>(s: State<V>): State<V>
    decreases |s.stack|
  {
    var n := |s.stack|;
    if n > 0 then PopAll(State(s.stack[..n - 1], s.output + [s.stack[n - 1]])) else s
  }

  /** Drops the parenthesis, then moves a function in front of it to the output. */
  function CloseParen<V>(s: State<V>): State<V> {
    var n := |s.stack|;
    var t := if n > 0 then s.stack[..n - 1] else s.stack;
    if |t| > 0 && t[|t| - 1].kind.FunctionTok? then State(t[..|t| - 1], s.output + [t[|t| - 1]])
    else State(t, s.output)
  }

  function Step<V>(s: State<V>, t: CalcToken<V>): State<V> {
    match t.kind
    case NumberTok | VariableTok => State(s.stack, s.output + [t])
    case FunctionTok | LParenTok => State(s.stack + [t], s.output)
    case OperatorTok =>
      var popped := PopOperators(s, t.str);
      State(popped.stack + [t], popped.output)
    case RParenTok => CloseParen(PopToParen(s))
    case CommaTok => s
  }

  function Convert<V>(s: State<V>, tokens: seq<CalcToken<V>>): State<V>
    decreases |tokens|
  {
    if tokens == [] then s else Convert(Step(s, tokens[0]), tokens[1..])
  }

  function ToRpn<V>(tokens: seq<CalcToken<V>>): seq<CalcToken<V>> {
    PopAll(Convert(State([], []), tokens)).output
  }

  lemma {:induction false} ConvertAppend<V>(s: State<V>, a: seq<CalcToken<V>>, b: seq<CalcToken<V>>)
    ensures Convert(s, a + b) == Convert(Convert(s, a), b)
    decreases |a|
  {
    if a == [] {
      assert a + b == b;
    } else {
      assert (a + b)[1..] == a[1..] + b;
      ConvertAppend(Step(s, a[0]), a[1..], b);
    }
  }

  lemma StepIs<V>(s: State<V>, t: CalcToken<V>)
    ensures Convert(s, [t]) == Step(s, t)
  {
    assert [t][1..] == [];
  }

  // ----- evaluation as a function of the value stack -----

  function Rpn<V>(tokens: seq<CalcToken<V>>, stack: seq<V>, apply: (string, V, V) -> V, call: (string, V) -> V,
                  zero: V): V
    decreases |tokens|
  {
    var n := |stack|;
    if tokens == [] then if n > 0 then stack[n - 1] else zero
    else
      var t := tokens[0];
      match t.kind
      case NumberTok => Rpn(tokens[1..], stack + [t.value], apply, call, zero)
      case OperatorTok =>
        if n < 2 then zero
        else Rpn(tokens[1..], stack[..n - 2] + [apply(t.str, stack[n - 2], stack[n - 1])], apply, call, zero)
      case FunctionTok =>
        if n < 1 then zero
        else Rpn(tokens[1..], stack[..n - 1] + [call(t.str, stack[n - 1])], apply, call, zero)
      case _ => Rpn(tokens[1..], stack, apply, call, zero)
  }

  // ----- expressions as written -----

  datatype Expr<V> =
    | Num(tok: CalcToken<V>)
    | Group(e: Expr<V>)
    | Fun(f: CalcToken<V>, e: Expr<V>)
    | Bin(op: CalcToken<V>, l: Expr<V>, r: Expr<V>)

  /** How tightly the loosest operator outside parentheses binds. */
  function Bind<V>(e: Expr<V>): nat { if e.Bin? then Precedence(e.op.str) else 8 }

  /** Operands of the right kind; operators of one precedence group to the left, "^" included. */
  predicate WellFormed<V>(e: Expr<V>) {
    match e
    case Num(t) => t.kind.NumberTok?
    case Group(x) => WellFormed(x)
    case Fun(f, x) => f.kind.FunctionTok? && WellFormed(x)
    case Bin(op, l, r) =>
      op.kind.OperatorTok? && WellFormed(l) && WellFormed(r) && Bind(l) >= Precedence(op.str) &&
        Bind(r) > Precedence(op.str)
  }

  /** The tokens of the expression; `open` and `close` are the parenthesis tokens. */
  function Written<V>(e: Expr<V>, open: CalcToken<V>, close: CalcToken<V>): seq<CalcToken<V>> {
    match e
    case Num(t) => [t]
    case Group(x) => [open] + Written(x, open, close) + [close]
    case Fun(f, x) => [f, open] + Written(x, open, close) + [close]
    case Bin(op, l, r) => Written(l, open, close) + [op] + Written(r, open, close)
  }

  function PostfixOf<V>(e: Expr<V>): seq<CalcToken<V>> {
    match e
    case Num(t) => [t]
    case Group(x) => PostfixOf(x)
    case Fun(f, x) => PostfixOf(x) + [f]
    case Bin(op, l, r) => PostfixOf(l) + PostfixOf(r) + [op]
  }

  function ValueOf<V>(e: Expr<V>, apply: (string, V, V) -> V, call: (string, V) -> V): V {
    match e
    case Num(t) => t.value
    case Group(x) => ValueOf(x, apply, call)
    case Fun(f, x) => call(f.str, ValueOf(x, apply, call))
    case Bin(op, l, r) => apply(op.str, ValueOf(l, apply, call), ValueOf(r, apply, call))
  }

  // ----- conversion yields postfix order -----

  /** Operators still on the stack when the last token of the expression has been read, and the output by then. */
  function Held<V>(e: Expr<V>): seq<CalcToken<V>> { if e.Bin? then [e.op] + Held(e.r) else [] }

  function Out<V>(e: Expr<V>): seq<CalcToken<V>> { if e.Bin? then PostfixOf(e.l) + Out(e.r) else PostfixOf(e) }

  function Reverse<T>(s: seq<T>): seq<T> { if s == [] then [] else Reverse(s[1..]) + [s[0]] }

  lemma {:induction false} ReverseSnoc<T>(s: seq<T>)
    requires s != []
    ensures Reverse(s) == [s[|s| - 1]] + Reverse(s[..|s| - 1])
  {
    if |s| > 1 {
      ReverseSnoc(s[1..]);
      assert s[1..][..|s| - 2] == s[..|s| - 1][1..];
    }
  }

  lemma {:induction false} HeldIsRest<V>(e: Expr<V>)
    requires WellFormed(e)
    ensures PostfixOf(e) == Out(e) + Reverse(Held(e))
    ensures forall i :: 0 <= i < |Held(e)| ==> Held(e)[i].kind.OperatorTok? && Precedence(Held(e)[i].str) >= Bind(e)
  {
    if e.Bin? {
      HeldIsRest(e.r);
      assert Held(e)[1..] == Held(e.r);
    }
  }

  /** An operator of precedence `p` would not pop the top of the stack. */
  predicate Keeps<V>(stack: seq<CalcToken<V>>, p: nat) {
    var n := |stack|;
    n == 0 || (stack[n - 1].kind.OperatorTok? && Precedence(stack[n - 1].str) < p) || stack[n - 1].kind.LParenTok?
  }

  lemma {:induction false} PopsHeld<V>(stack: seq<CalcToken<V>>, held: seq<CalcToken<V>>, output: seq<CalcToken<V>>,
                                       op: string)
    requires Keeps(stack, Precedence(op))
    requires forall i :: 0 <= i < |held| ==> held[i].kind.OperatorTok? && Precedence(held[i].str) >= Precedence(op)
    ensures PopOperators(State(stack + held, output), op) == State(stack, output + Reverse(held))
    decreases |held|
  {
    hide Precedence;
    if held == [] {
      assert stack + held == stack && output + Reverse(held) == output;
    } else {
      var k := |held| - 1;
      assert (stack + held)[..|stack| + k] == stack + held[..k];
      PopsHeld(stack, held[..k], output + [held[k]], op);
      ReverseSnoc(held);
      assert output + [held[k]] + Reverse(held[..k]) == output + Reverse(held);
    }
  }

  lemma {:induction false} PopsToParen<V>(stack: seq<CalcToken<V>>, held: seq<CalcToken<V>>, output: seq<CalcToken<V>>)
    requires stack != [] && stack[|stack| - 1].kind.LParenTok?
    requires forall i :: 0 <= i < |held| ==> held[i].kind.OperatorTok?
    ensures PopToParen(State(stack + held, output)) == State(stack, output + Reverse(held))
    decreases |held|
  {
    if held == [] {
      assert stack + held == stack && output + Reverse(held) == output;
    } else {
      var k := |held| - 1;
      assert (stack + held)[..|stack| + k] == stack + held[..k];
      PopsToParen(stack, held[..k], output + [held[k]]);
      ReverseSnoc(held);
      assert output + [held[k]] + Reverse(held[..k]) == output + Reverse(held);
    }
  }

  lemma {:induction false} PopsAll<V>(held: seq<CalcToken<V>>, output: seq<CalcToken<V>>)
    ensures PopAll(State(held, output)) == State([], output + Reverse(held))
    decreases |held|
  {
    if held == [] {
      assert output + Reverse(held) == output;
    } else {
      var k := |held| - 1;
      PopsAll(held[..k], output + [held[k]]);
      ReverseSnoc(held);
      assert output + [held[k]] + Reverse(held[..k]) == output + Reverse(held);
    }
  }

  /** Reading an expression where nothing below on the stack binds as tightly leaves its operators and its output. */
  lemma {:induction false} Reads<V>(e: Expr<V>, s: State<V>, open: CalcToken<V>, close: CalcToken<V>)
    requires WellFormed(e) && open.kind.LParenTok? && close.kind.RParenTok? && Keeps(s.stack, Bind(e))
    ensures Convert(s, Written(e, open, close)) == State(s.stack + Held(e), s.output + Out(e))
    decreases e, 1
  {
    hide PopOperators, PopToParen, Precedence;
    assert s.stack + [] == s.stack;
    match e
    case Num(t) => StepIs(s, t);
    case Group(x) => ReadsParen(x, s, open, close);
    case Fun(_, _) => ReadsCall(e, s, open, close);
    case Bin(_, _, _) => ReadsBinary(e, s, open, close);
  }

  /** An expression in parentheses is put out whole, and a function in front of it after it. */
  lemma {:induction false} ReadsParen<V>(e: Expr<V>, s: State<V>, open: CalcToken<V>, close: CalcToken<V>)
    requires WellFormed(e) && open.kind.LParenTok? && close.kind.RParenTok?
    ensures Convert(s, [open] + Written(e, open, close) + [close]) ==
      if s.stack != [] && s.stack[|s.stack| - 1].kind.FunctionTok?
      then State(s.stack[..|s.stack| - 1], s.output + PostfixOf(e) + [s.stack[|s.stack| - 1]])
      else State(s.stack, s.output + PostfixOf(e))
    decreases e, 2
  {
    hide PopOperators, PopToParen, Precedence, Convert;
    var t := State(s.stack + [open], s.output);
    ConvertAppend(s, [open] + Written(e, open, close), [close]);
    ConvertAppend(s, [open], Written(e, open, close));
    StepIs(s, open);
    Reads(e, t, open, close);
    HeldIsRest(e);
    PopsToParen(t.stack, Held(e), s.output + Out(e));
    assert s.output + Out(e) + Reverse(Held(e)) == s.output + PostfixOf(e);
    StepIs(Convert(t, Written(e, open, close)), close);
    assert t.stack[..|t.stack| - 1] == s.stack;
  }

  lemma {:induction false} ReadsCall<V>(e: Expr<V>, s: State<V>, open: CalcToken<V>, close: CalcToken<V>)
    requires e.Fun? && WellFormed(e) && open.kind.LParenTok? && close.kind.RParenTok?
    ensures Convert(s, Written(e, open, close)) == State(s.stack, s.output + Out(e))
    decreases e, 0
  {
    hide PopOperators, PopToParen, Precedence, Convert;
    var t := State(s.stack + [e.f], s.output);
    var paren := [open] + Written(e.e, open, close) + [close];
    assert Written(e, open, close) == [e.f] + paren;
    ConvertAppend(s, [e.f], paren);
    StepIs(s, e.f);
    ReadsParen(e.e, t, open, close);
    assert t.stack[..|s.stack|] == s.stack;
    assert s.output + PostfixOf(e.e) + [e.f] == s.output + PostfixOf(e);
  }

  lemma {:induction false} ReadsBinary<V>(e: Expr<V>, s: State<V>, open: CalcToken<V>, close: CalcToken<V>)
    requires e.Bin? && WellFormed(e) && open.kind.LParenTok? && close.kind.RParenTok? && Keeps(s.stack, Bind(e))
    ensures Convert(s, Written(e, open, close)) == State(s.stack + Held(e), s.output + Out(e))
    decreases e, 0
  {
    hide PopOperators, PopToParen, Precedence, Convert;
    var op, l, r := e.op, e.l, e.r;
    var t := State(s.stack + [op], s.output + PostfixOf(l));
    Reads(l, s, open, close);
    HeldIsRest(l);
    PopsHeld(s.stack, Held(l), s.output + Out(l), op.str);
    assert s.output + Out(l) + Reverse(Held(l)) == s.output + PostfixOf(l);
    ConvertAppend(s, Written(l, open, close) + [op], Written(r, open, close));
    ConvertAppend(s, Written(l, open, close), [op]);
    StepIs(Convert(s, Written(l, open, close)), op);
    Reads(r, t, open, close);
    assert s.stack + [op] + Held(r) == s.stack + Held(e);
    assert s.output + PostfixOf(l) + Out(r) == s.output + Out(e);
  }

  /** infix_to_rpn turns every expression into its postfix order. */
  lemma ToRpnIsPostfix<V>(e: Expr<V>, open: CalcToken<V>, close: CalcToken<V>)
    requires WellFormed(e) && open.kind.LParenTok? && close.kind.RParenTok?
    ensures ToRpn(Written(e, open, close)) == PostfixOf(e)
  {
    Reads(e, State([], []), open, close);
    HeldIsRest(e);
    PopsAll(Held(e), Out(e));
    assert [] + Held(e) == Held(e) && [] + Out(e) == Out(e);
  }

  /** Evaluating the postfix order pushes one value, that of the expression. */
  lemma {:induction false} RpnValue<V>(e: Expr<V>, rest: seq<CalcToken<V>>, stack: seq<V>,
                                       apply: (string, V, V) -> V, call: (string, V) -> V, zero: V)
    requires WellFormed(e)
    ensures Rpn(PostfixOf(e) + rest, stack, apply, call, zero) ==
      Rpn(rest, stack + [ValueOf(e, apply, call)], apply, call, zero)
    decreases e
  {
    match e
    case Num(t) =>
      assert ([t] + rest)[1..] == rest;
    case Group(x) =>
      RpnValue(x, rest, stack, apply, call, zero);
    case Fun(f, x) =>
      assert PostfixOf(x) + [f] + rest == PostfixOf(x) + ([f] + rest);
      RpnValue(x, [f] + rest, stack, apply, call, zero);
      assert ([f] + rest)[1..] == rest;
      assert (stack + [ValueOf(x, apply, call)])[..|stack|] == stack;
    case Bin(op, l, r) =>
      var a, b := ValueOf(l, apply, call), ValueOf(r, apply, call);
      assert PostfixOf(l) + PostfixOf(r) + [op] + rest == PostfixOf(l) + (PostfixOf(r) + ([op] + rest));
      RpnValue(l, PostfixOf(r) + ([op] + rest), stack, apply, call, zero);
      RpnValue(r, [op] + rest, stack + [a], apply, call, zero);
      assert ([op] + rest)[1..] == rest;
      assert (stack + [a] + [b])[..|stack|] == stack;
  }

  /** Conversion and evaluation together preserve meaning, for every expression and every meaning of its operators. */
  lemma EvaluatesTo<V>(e: Expr<V>, open: CalcToken<V>, close: CalcToken<V>,
                       apply: (string, V, V) -> V, call: (string, V) -> V, zero: V)
    requires WellFormed(e) && open.kind.LParenTok? && close.kind.RParenTok?
    ensures Rpn(ToRpn(Written(e, open, close)), [], apply, call, zero) == ValueOf(e, apply, call)
  {
    ToRpnIsPostfix(e, open, close);
    RpnValue(e, [], [], apply, call, zero);
    assert PostfixOf(e) + [] == PostfixOf(e);
    assert [] + [ValueOf(e, apply, call)] == [ValueOf(e, apply, call)];
  }

  // ----- trees, written with the parentheses they need -----

  datatype Tree<V> =
    | Leaf(tok: CalcToken<V>)
    | App(f: CalcToken<V>, arg: Tree<V>)
    | Op(op: CalcToken<V>, l: Tree<V>, r: Tree<V>)

  predicate ValidTree<V>(t: Tree<V>) {
    match t
    case Leaf(tok) => tok.kind.NumberTok?
    case App(f, x) => f.kind.FunctionTok? && ValidTree(x)
    case Op(op, l, r) => op.kind.OperatorTok? && ValidTree(l) && ValidTree(r)
  }

  function Meaning<V>(t: Tree<V>, apply: (string, V, V) -> V, call: (string, V) -> V): V {
    match t
    case Leaf(tok) => tok.value
    case App(f, x) => call(f.str, Meaning(x, apply, call))
    case Op(op, l, r) => apply(op.str, Meaning(l, apply, call), Meaning(r, apply, call))
  }

  /** The tree as an expression whose operators bind at least as tightly as `least`, in parentheses if they do not. */
  function Show<V>(t: Tree<V>, least: nat): Expr<V> {
    match t
    case Leaf(tok) => Num(tok)
    case App(f, x) => Fun(f, Show(x, 0))
    case Op(op, l, r) =>
      var p := Precedence(op.str);
      var e := Bin(op, Show(l, p), Show(r, p + 1));
      if p >= least then e else Group(e)
  }

  lemma {:induction false} ShowMeans<V>(t: Tree<V>, least: nat, apply: (string, V, V) -> V, call: (string, V) -> V)
    requires ValidTree(t) && least <= 8
    ensures WellFormed(Show(t, least)) && Bind(Show(t, least)) >= least
    ensures ValueOf(Show(t, least), apply, call) == Meaning(t, apply, call)
  {
    match t
    case Leaf(_) =>
    case App(_, x) => ShowMeans(x, 0, apply, call);
    case Op(op, l, r) =>
      ShowMeans(l, Precedence(op.str), apply, call);
      ShowMeans(r, Precedence(op.str) + 1, apply, call);
  }

  // ----- the algorithms as they run -----

  /** The stack and the output as the arrays hold them. */
  function StateOf<V>(stack: array<CalcToken<V>>, top: nat, output: array<CalcToken<V>>, out: nat): State<V>
    requires top <= stack.Length && out <= output.Length
    reads stack, output
  {
    State(stack[..top], output[..out])
  }

  /** output[out++] = stack[--top] */
  method Pop<V>(stack: array<CalcToken<V>>, top: nat, output: array<CalcToken<V>>, out: nat)
    returns (top': nat, out': nat)
    requires 0 < top <= stack.Length && out < output.Length && stack != output
    modifies output
    ensures top' == top - 1 && out' == out + 1
    ensures StateOf(stack, top', output, out') == State(stack[..top][..top - 1], old(output[..out]) + [stack[top - 1]])
  {
    output[out] := stack[top - 1];
    assert stack[..top][..top - 1] == stack[..top - 1];
    return top - 1, out + 1;
  }

  method ReduceOperators<V>(stack: array<CalcToken<V>>, top: nat, output: array<CalcToken<V>>, out: nat, op: string)
    returns (top': nat, out': nat)
    requires top <= stack.Length && top + out <= output.Length && stack != output
    modifies output
    ensures top' <= top && top' + out' == top + out
    ensures StateOf(stack, top', output, out') == PopOperators(old(StateOf(stack, top, output, out)), op)
  {
    hide Precedence;
    top', out' := top, out;
    while top' > 0 && stack[top' - 1].kind.OperatorTok? && Precedence(stack[top' - 1].str) >= Precedence(op)
      invariant top' <= top && top' + out' == top + out
      invariant PopOperators(StateOf(stack, top', output, out'), op) ==
        PopOperators(old(StateOf(stack, top, output, out)), op)
    {
      top', out' := Pop(stack, top', output, out');
    }
  }

  method ReduceToParen<V>(stack: array<CalcToken<V>>, top: nat, output: array<CalcToken<V>>, out: nat)
    returns (top': nat, out': nat)
    requires top <= stack.Length && top + out <= output.Length && stack != output
    modifies output
    ensures top' <= top && top' + out' <= top + out
    ensures StateOf(stack, top', output, out') == CloseParen(PopToParen(old(StateOf(stack, top, output, out))))
  {
    top', out' := top, out;
    while top' > 0 && !stack[top' - 1].kind.LParenTok?
      invariant top' <= top && top' + out' == top + out
      invariant PopToParen(StateOf(stack, top', output, out')) == PopToParen(old(StateOf(stack, top, output, out)))
    {
      top', out' := Pop(stack, top', output, out');
    }
    if top' > 0 {
      top' := top' - 1;
      assert stack[..top'] == stack[..top' + 1][..top'];
    }
    if top' > 0 && stack[top' - 1].kind.FunctionTok? {
      top', out' := Pop(stack, top', output, out');
    }
  }

  /** One turn of the conversion's loop. */
  method TakeToken<V>(t: CalcToken<V>, stack: array<CalcToken<V>>, top: nat, output: array<CalcToken<V>>, out: nat)
    returns (top': nat, out': nat)
    requires top < stack.Length && top + out < output.Length && stack != output
    modifies stack, output
    ensures top' + out' <= top + out + 1 && top' <= stack.Length
    ensures StateOf(stack, top', output, out') == Step(old(StateOf(stack, top, output, out)), t)
  {
    hide PopOperators, PopToParen, CloseParen, Precedence;
    top', out' := top, out;
    match t.kind {
      case NumberTok | VariableTok =>
        output[out'] := t;
        out' := out' + 1;
      case FunctionTok | LParenTok =>
        stack[top'] := t;
        top' := top' + 1;
      case OperatorTok =>
        top', out' := ReduceOperators(stack, top', output, out', t.str);
        ghost var popped := StateOf(stack, top', output, out');
        stack[top'] := t;
        top' := top' + 1;
        assert stack[..top'] == popped.stack + [t];
      case RParenTok =>
        top', out' := ReduceToParen(stack, top', output, out');
      case CommaTok =>
    }
  }

  method InfixToRpn<V(0)>(tokens: array<CalcToken<V>>, count: nat, output: array<CalcToken<V>>) returns (outCount: nat)
    requires count <= tokens.Length && count <= STACK_SIZE && count <= output.Length && output != tokens
    modifies output
    ensures outCount <= count && output[..outCount] == ToRpn(old(tokens[..count]))
  {
    hide Step, PopAll;
    ghost var input := tokens[..count];
    var stack := new CalcToken<V>[STACK_SIZE];
    var top: nat, out: nat := 0, 0;
    assert StateOf(stack, top, output, out) == State([], []) && tokens[0..count] == input;
    for i := 0 to count
      invariant top + out <= i
      invariant Convert(StateOf(stack, top, output, out), tokens[i..count]) == Convert(State([], []), input)
    {
      ghost var rest := tokens[i + 1..count];
      assert tokens[i..count][0] == tokens[i] && tokens[i..count][1..] == rest;
      top, out := TakeToken(tokens[i], stack, top, output, out);
      assert tokens[i + 1..count] == rest;
    }
    assert tokens[count..count] == [];
    top, outCount := Flush(stack, top, output, out);
  }

  method Flush<V>(stack: array<CalcToken<V>>, top: nat, output: array<CalcToken<V>>, out: nat)
    returns (top': nat, out': nat)
    requires top <= stack.Length && top + out <= output.Length && stack != output
    modifies output
    ensures out' == top + out && output[..out'] == PopAll(old(StateOf(stack, top, output, out))).output
  {
    top', out' := top, out;
    while top' > 0
      invariant top' <= top && top' + out' == top + out
      invariant PopAll(StateOf(stack, top', output, out')) == PopAll(old(StateOf(stack, top, output, out)))
    {
      top', out' := Pop(stack, top', output, out');
    }
  }

  method EvaluateRpn<V(0)>(tokens: array<CalcToken<V>>, count: nat, apply: (string, V, V) -> V, call: (string, V) -> V,
                           zero: V)
    returns (r: V)
    requires count <= tokens.Length && count <= STACK_SIZE
    ensures r == Rpn(tokens[..count], [], apply, call, zero)
  {
    var stack := new V[STACK_SIZE];
    var top := 0;
    assert stack[..top] == [] && tokens[0..count] == tokens[..count];
    for i := 0 to count
      invariant top <= i
      invariant Rpn(tokens[i..count], stack[..top], apply, call, zero) == Rpn(tokens[..count], [], apply, call, zero)
    {
      var t := tokens[i];
      ghost var s := stack[..top];
      assert tokens[i..count][0] == t && tokens[i..count][1..] == tokens[i + 1..count];
      match t.kind {
        case NumberTok =>
          stack[top] := t.value;
          top := top + 1;
          assert stack[..top] == s + [t.value];
        case OperatorTok =>
          if top < 2 {
            return zero;
          }
          var b, a := stack[top - 1], stack[top - 2];
          top := top - 2;
          stack[top] := apply(t.str, a, b);
          top := top + 1;
          assert stack[..top] == s[..|s| - 2] + [apply(t.str, a, b)];
        case FunctionTok =>
          if top < 1 {
            return zero;
          }
          var a := stack[top - 1];
          stack[top - 1] := call(t.str, a);
          assert stack[..top] == s[..|s| - 1] + [call(t.str, a)];
        case _ =>
      }
    }
    r := if top > 0 then stack[top - 1] else zero;
  }

  /** What the user types for a tree evaluates to the tree's meaning. */
  method Evaluate<V(0)>(tree: Tree<V>, open: CalcToken<V>, close: CalcToken<V>, tokens: array<CalcToken<V>>,
                        apply: (string, V, V) -> V, call: (string, V) -> V, zero: V)
    returns (r: V)
    requires ValidTree(tree) && open.kind.LParenTok? && close.kind.RParenTok?
    requires tokens.Length <= STACK_SIZE && tokens[..] == Written(Show(tree, 0), open, close)
    ensures r == Meaning(tree, apply, call)
  {
    var rpn := new CalcToken<V>[STACK_SIZE];
    ghost var input := tokens[..];
    assert tokens[..tokens.Length] == input;
    var count := InfixToRpn(tokens, tokens.Length, rpn);
    r := EvaluateRpn(rpn, count, apply, call, zero);
    ShowMeans(tree, 0, apply, call);
    EvaluatesTo(Show(tree, 0), open, close, apply, call, zero);
  }
}
