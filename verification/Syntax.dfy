/** Tokens and trees of the native compiler, and the expression grammar its parser follows. */
module Syntax {

  datatype Kind =
    | Eof | Id | Num | Str | Chr
    | Plus | Minus | Mul | Div | Mod
    | Eq | Ne | Lt | Gt | Le | Ge
    | And | Or | Not | BAnd | BOr | BXor | BNot
    | Shl | Shr | Inc | Dec
    | LParen | RParen | LBracket | RBracket | Comma | Dot | Arrow | Colon | Question
    | Assign | AddAssign | SubAssign | MulAssign | DivAssign | ModAssign
    | AndAssign | OrAssign | XorAssign | ShlAssign | ShrAssign
    | Sizeof
    | Other(code: nat)

  datatype Token = Token(kind: Kind, text: string, value: int)

  datatype Ast =
    | Null
    | Literal(ival: int)
    | String(text: string)
    | Identifier(text: string)
    | Index(array_: Ast, index: Ast)
    | Call(func: Ast, args: seq<Ast>)
    | Member(obj: Ast, member: string)
    | ArrowMember(obj: Ast, member: string)
    | Unary(op: Kind, operand: Ast)
    | Deref(operand: Ast)
    | Addr(operand: Ast)
    | SizeOf(operand: Ast)
    | Binary(op: Kind, left: Ast, right: Ast)
    | Ternary(cond: Ast, tbranch: Ast, fbranch: Ast)

  /** Precedence level of a binary operator, parse_mul (1) to parse_lor (10); 0 for other tokens. */
  function BinaryLevel(k: Kind): (level: nat)
    ensures level <= 10
  {
    match k
    case Mul | Div | Mod => 1
    case Plus | Minus => 2
    case Shl | Shr => 3
    case Lt | Gt | Le | Ge => 4
    case Eq | Ne => 5
    case BAnd => 6
    case BXor => 7
    case BOr => 8
    case And => 9
    case Or => 10
    case _ => 0
  }

  predicate IsAssignment(k: Kind) {
    k.Assign? || k.AddAssign? || k.SubAssign? || k.MulAssign? || k.DivAssign? || k.ModAssign? ||
    k.AndAssign? || k.OrAssign? || k.XorAssign? || k.ShlAssign? || k.ShrAssign?
  }

  predicate IsPrefix(k: Kind) {
    k.Inc? || k.Dec? || k.Plus? || k.Minus? || k.Not? || k.BNot? || k.Mul? || k.BAnd?
  }

  predicate IsAtom(k: Kind) { k.Id? || k.Num? || k.Str? || k.Chr? }

  predicate StartsPostfix(k: Kind) {
    k.LBracket? || k.LParen? || k.Dot? || k.Arrow? || k.Inc? || k.Dec?
  }

  // ----- concrete syntax -----

  /** Derivations of the expression grammar: what was written, parentheses included. */
  datatype Cst =
    | Atom(tok: Token)
    | Paren(e: Cst)
    | Subscript(e: Cst, index: Cst)
    | Apply(e: Cst, args: seq<Cst>)
    | Select(op: Kind, e: Cst, name: Token)
    | Post(op: Kind, e: Cst)
    | Pre(op: Kind, e: Cst)
    | SizeofUnary(e: Cst)
    | SizeofParen(e: Cst)
    | Infix(op: Kind, l: Cst, r: Cst)
    | Choice(c: Cst, t: Cst, f: Cst)
    | Assignment(op: Kind, l: Cst, r: Cst)

  const PRIMARY: nat := 0
  const POSTFIX: nat := 1
  const UNARY: nat := 2
  const CONDITIONAL: nat := 13
  const EXPR: nat := 14

  function Level(c: Cst): (level: nat)
    ensures level <= EXPR
  {
    match c
    case Atom(_) | Paren(_) => PRIMARY
    case Subscript(_, _) | Apply(_, _) | Select(_, _, _) | Post(_, _) => POSTFIX
    case Pre(_, _) | SizeofUnary(_) | SizeofParen(_) => UNARY
    case Infix(op, _, _) => UNARY + BinaryLevel(op)
    case Choice(_, _, _) => CONDITIONAL
    case Assignment(_, _, _) => EXPR
  }

  predicate StartsWithParen(c: Cst) {
    match c
    case Paren(_) => true
    case Subscript(e, _) => StartsWithParen(e)
    case Apply(e, _) => StartsWithParen(e)
    case Select(_, e, _) => StartsWithParen(e)
    case Post(_, e) => StartsWithParen(e)
    case Infix(_, l, _) => StartsWithParen(l)
    case Choice(d, _, _) => StartsWithParen(d)
    case Assignment(_, l, _) => StartsWithParen(l)
    case _ => false
  }

  /** The grammar: every operand at a level its position allows. */
  predicate Grammatical(c: Cst) {
    match c
    case Atom(tok) => IsAtom(tok.kind)
    case Paren(e) => Grammatical(e)
    case Subscript(e, i) => Level(e) <= POSTFIX && Grammatical(e) && Grammatical(i)
    case Apply(e, args) =>
      Level(e) <= POSTFIX && Grammatical(e) && |args| <= 64 && forall i :: 0 <= i < |args| ==> Grammatical(args[i])
    case Select(op, e, name) => (op.Dot? || op.Arrow?) && Level(e) <= POSTFIX && Grammatical(e) && name.kind.Id?
    case Post(op, e) => (op.Inc? || op.Dec?) && Level(e) <= POSTFIX && Grammatical(e)
    case Pre(op, e) => IsPrefix(op) && Level(e) <= UNARY && Grammatical(e)
    case SizeofUnary(e) => Level(e) <= UNARY && Grammatical(e) && !StartsWithParen(e)
    case SizeofParen(e) => Grammatical(e)
    case Infix(op, l, r) =>
      BinaryLevel(op) > 0 && Level(l) <= Level(c) && Level(r) < Level(c) && Grammatical(l) && Grammatical(r)
    case Choice(d, t, f) => Level(d) < CONDITIONAL && Level(f) <= CONDITIONAL && Grammatical(d) && Grammatical(t) &&
      Grammatical(f)
    case Assignment(op, l, r) => IsAssignment(op) && Level(l) < EXPR && Grammatical(l) && Grammatical(r)
  }

  function Mark(k: Kind): Token { Token(k, "", 0) }

  /** What the parser looks at: text and value matter in atoms only. */
  function Strip(t: Token): Token { if IsAtom(t.kind) then t else Mark(t.kind) }

  function Tokens(c: Cst): (r: seq<Token>)
    ensures |r| > 0
  {
    match c
    case Atom(tok) => [tok]
    case Paren(e) => [Mark(LParen)] + Tokens(e) + [Mark(RParen)]
    case Subscript(e, i) => Tokens(e) + [Mark(LBracket)] + Tokens(i) + [Mark(RBracket)]
    case Apply(e, args) => Tokens(e) + [Mark(LParen)] + ArgTokens(args) + [Mark(RParen)]
    case Select(op, e, name) => Tokens(e) + [Mark(op), name]
    case Post(op, e) => Tokens(e) + [Mark(op)]
    case Pre(op, e) => [Mark(op)] + Tokens(e)
    case SizeofUnary(e) => [Mark(Sizeof)] + Tokens(e)
    case SizeofParen(e) => [Mark(Sizeof), Mark(LParen)] + Tokens(e) + [Mark(RParen)]
    case Infix(op, l, r) => Tokens(l) + [Mark(op)] + Tokens(r)
    case Choice(d, t, f) => Tokens(d) + [Mark(Question)] + Tokens(t) + [Mark(Colon)] + Tokens(f)
    case Assignment(op, l, r) => Tokens(l) + [Mark(op)] + Tokens(r)
  }

  function ArgTokens(args: seq<Cst>): seq<Token> {
    if args == [] then []
    else if |args| == 1 then Tokens(args[0])
    else Tokens(args[0]) + [Mark(Comma)] + ArgTokens(args[1..])
  }

  /** The tree a derivation stands for. Unary plus leaves no trace, and x++ stands for the same tree as ++x. */
  function Tree(c: Cst): Ast {
    match c
    case Atom(tok) => AtomTree(tok)
    case Paren(e) => Tree(e)
    case Subscript(e, i) => Index(Tree(e), Tree(i))
    case Apply(e, args) => Call(Tree(e), Trees(args))
    case Select(op, e, name) => if op.Dot? then Member(Tree(e), name.text) else ArrowMember(Tree(e), name.text)
    case Post(op, e) => Unary(op, Tree(e))
    case Pre(op, e) => PrefixTree(op, Tree(e))
    case SizeofUnary(e) => SizeOf(Tree(e))
    case SizeofParen(e) => SizeOf(Tree(e))
    case Infix(op, l, r) => Binary(op, Tree(l), Tree(r))
    case Choice(d, t, f) => Ternary(Tree(d), Tree(t), Tree(f))
    case Assignment(op, l, r) => Binary(op, Tree(l), Tree(r))
  }

  function Trees(args: seq<Cst>): (trees: seq<Ast>)
    ensures |trees| == |args|
  {
    if args == [] then [] else [Tree(args[0])] + Trees(args[1..])
  }

  function AtomTree(tok: Token): Ast {
    match tok.kind
    case Num => Literal(tok.value)
    case Str => String(tok.text)
    case Chr => Literal(if |tok.text| > 1 then tok.text[1] as int else 0)
    case Id => Identifier(tok.text)
    case _ => Null
  }

  function PrefixTree(op: Kind, operand: Ast): Ast {
    match op
    case Plus => operand
    case Mul => Deref(operand)
    case BAnd => Addr(operand)
    case _ => Unary(op, operand)
  }
}
