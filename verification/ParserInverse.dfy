/** The parser inverts the grammar: every derivation is read back as the tree it stands for. */
module ParserInverse {
  import opened Syntax
  import opened Parser

  /** The parser for level `level` of the ladder. */
  function Parse(toks: seq<Token>, p: nat, level: nat): (r: (Ast, nat))
    requires Stream(toks) && p < |toks| && level <= EXPR
    ensures p <= r.1 < |toks|
  {
    if level == PRIMARY then Primary(toks, p)
    else if level == POSTFIX then Postfix(toks, p)
    else if level < CONDITIONAL then BinaryExpr(toks, p, level - UNARY)
    else if level == CONDITIONAL then Conditional(toks, p)
    else Expr(toks, p)
  }

  /** A token that an expression at `level` would go on with. */
  predicate Continues(k: Kind, level: nat) {
    || (level >= POSTFIX && StartsPostfix(k))
    || (BinaryLevel(k) > 0 && level >= UNARY + BinaryLevel(k))
    || (level >= CONDITIONAL && k.Question?)
    || (level >= EXPR && IsAssignment(k))
  }

  /** `part` occurs in `toks` at `p`, and is not the end of it. */
  ghost predicate At(toks: seq<Token>, p: nat, part: seq<Token>) {
    p + |part| < |toks| && forall i :: 0 <= i < |part| ==> Strip(toks[p + i]) == Strip(part[i])
  }

  lemma AtParts(toks: seq<Token>, p: nat, a: seq<Token>, b: seq<Token>)
    requires At(toks, p, a + b)
    ensures At(toks, p, a) && At(toks, p + |a|, b)
  {
    forall i | 0 <= i < |b|
      ensures Strip(toks[p + |a| + i]) == Strip(b[i])
    {
      assert (a + b)[|a| + i] == b[i];
    }
    assert forall i :: 0 <= i < |a| ==> (a + b)[i] == a[i];
  }

  lemma AtMark(toks: seq<Token>, p: nat, k: Kind)
    requires At(toks, p, [Mark(k)])
    ensures toks[p].kind == k
  {
    assert Strip(toks[p]) == Strip([Mark(k)][0]);
  }

  /** The tokens around a mark, and the mark itself. */
  lemma AtMid(toks: seq<Token>, p: nat, a: seq<Token>, k: Kind, b: seq<Token>)
    requires At(toks, p, a + [Mark(k)] + b)
    ensures p + |a| + 1 + |b| < |toks|
    ensures At(toks, p, a) && toks[p + |a|].kind == k && At(toks, p + |a| + 1, b)
  {
    AtParts(toks, p, a + [Mark(k)], b);
    AtParts(toks, p, a, [Mark(k)]);
    AtMark(toks, p + |a|, k);
  }

  lemma AtLast(toks: seq<Token>, p: nat, a: seq<Token>, k: Kind)
    requires At(toks, p, a + [Mark(k)])
    ensures p + |a| + 1 < |toks|
    ensures At(toks, p, a) && toks[p + |a|].kind == k
  {
    AtParts(toks, p, a, [Mark(k)]);
    AtMark(toks, p + |a|, k);
  }

  lemma AtFirst(toks: seq<Token>, p: nat, k: Kind, b: seq<Token>)
    requires At(toks, p, [Mark(k)] + b)
    ensures p + 1 + |b| < |toks|
    ensures toks[p].kind == k && At(toks, p + 1, b)
  {
    AtParts(toks, p, [Mark(k)], b);
    AtMark(toks, p, k);
  }

  /** The kind of the first token. */
  lemma {:induction false} FirstToken(c: Cst)
    requires Grammatical(c)
    ensures Level(c) <= POSTFIX ==> IsAtom(Tokens(c)[0].kind) || Tokens(c)[0].kind.LParen?
    ensures IsAtom(Tokens(c)[0].kind) || Tokens(c)[0].kind.LParen? || IsPrefix(Tokens(c)[0].kind) ||
      Tokens(c)[0].kind.Sizeof?
    ensures Tokens(c)[0].kind.LParen? <==> StartsWithParen(c)
  {
    match c
    case Atom(tok) =>
    case Paren(e) =>
    case Pre(op, e) =>
    case SizeofUnary(e) =>
    case SizeofParen(e) =>
    case Subscript(e, _) => FirstToken(e);
    case Apply(e, _) => FirstToken(e);
    case Select(_, e, _) => FirstToken(e);
    case Post(_, e) => FirstToken(e);
    case Infix(_, l, _) => FirstToken(l);
    case Choice(d, _, _) => FirstToken(d);
    case Assignment(_, l, _) => FirstToken(l);
  }

  lemma FirstAt(toks: seq<Token>, p: nat, c: Cst)
    requires Grammatical(c) && At(toks, p, Tokens(c))
    ensures p < |toks| && toks[p].kind == Tokens(c)[0].kind
    ensures IsAtom(toks[p].kind) || toks[p].kind.LParen? || IsPrefix(toks[p].kind) || toks[p].kind.Sizeof?
    ensures Level(c) <= POSTFIX ==> IsAtom(toks[p].kind) || toks[p].kind.LParen?
    ensures toks[p].kind.LParen? <==> StartsWithParen(c)
  {
    FirstToken(c);
    assert Strip(toks[p + 0]) == Strip(Tokens(c)[0]);
  }

  /**
   * Wherever the tokens of a derivation occur, followed by a token that does not go on with it, the parser of any
   * level that admits it returns its tree and stops right behind its last token.
   */
  lemma {:induction false} Parses(toks: seq<Token>, p: nat, c: Cst, level: nat)
    requires Stream(toks) && Grammatical(c) && Level(c) <= level <= EXPR
    requires At(toks, p, Tokens(c)) && p + |Tokens(c)| < |toks| && !Continues(toks[p + |Tokens(c)|].kind, level)
    ensures Parse(toks, p, level) == (Tree(c), p + |Tokens(c)|)
    decreases c, level, 2
  {
    if level == PRIMARY {
      PrimaryReads(toks, p, c);
    } else if level == POSTFIX {
      PostfixReads(toks, p, c);
    } else if level == UNARY {
      UnaryReads(toks, p, c);
    } else if level < CONDITIONAL {
      BinaryReads(toks, p, c, level - UNARY);
    } else if level == CONDITIONAL {
      ConditionalReads(toks, p, c);
    } else {
      AssignmentReads(toks, p, c);
    }
  }

  lemma ParenParts(c: Cst)
    requires c.Paren? && Grammatical(c)
    ensures Grammatical(c.e) && Tokens(c) == [Mark(LParen)] + Tokens(c.e) + [Mark(RParen)] && Tree(c) == Tree(c.e)
  {
  }

  lemma {:induction false} ParenReads(toks: seq<Token>, p: nat, c: Cst)
    requires Stream(toks) && Grammatical(c) && c.Paren? && At(toks, p, Tokens(c))
    ensures p < |toks| && Primary(toks, p) == (Tree(c), p + |Tokens(c)|)
    decreases c, 0, 0
  {
    hide At, Expr, Continues, Grammatical, Tokens, Tree, Level;
    ParenParts(c);
    AtLast(toks, p, [Mark(LParen)] + Tokens(c.e), RParen);
    AtFirst(toks, p, LParen, Tokens(c.e));
    Closes(RParen);
    Parses(toks, p + 1, c.e, EXPR);
  }

  lemma AtomReads(toks: seq<Token>, p: nat, c: Cst)
    requires Stream(toks) && Grammatical(c) && c.Atom? && At(toks, p, Tokens(c))
    ensures p < |toks| && Primary(toks, p) == (Tree(c), p + |Tokens(c)|)
  {
    hide Expr, Continues, Level;
    assert Strip(toks[p + 0]) == Strip(Tokens(c)[0]);
  }

  lemma {:induction false} PrimaryReads(toks: seq<Token>, p: nat, c: Cst)
    requires Stream(toks) && Grammatical(c) && Level(c) == PRIMARY && At(toks, p, Tokens(c))
    ensures p < |toks| && Primary(toks, p) == (Tree(c), p + |Tokens(c)|)
    decreases c, 0, 1
  {
    hide At, Primary, Grammatical, Tokens, Tree;
    if c.Atom? {
      AtomReads(toks, p, c);
    } else {
      ParenReads(toks, p, c);
    }
  }

  /** A postfix expression is read as far as it goes, whatever comes behind it. */
  lemma {:induction false} PostfixReads(toks: seq<Token>, p: nat, c: Cst)
    requires Stream(toks) && Grammatical(c) && Level(c) <= POSTFIX && At(toks, p, Tokens(c))
    ensures p + |Tokens(c)| < |toks| && Postfix(toks, p) == PostfixRest(toks, Tree(c), p + |Tokens(c)|)
    decreases c, 1, 0
  {
    hide At, Primary, Grammatical, Tree;
    match c
    case Atom(_) => PrimaryReads(toks, p, c);
    case Paren(_) => PrimaryReads(toks, p, c);
    case Subscript(_, _) => SubscriptReads(toks, p, c);
    case Apply(_, _) => ApplyReads(toks, p, c);
    case Select(_, _, _) => SelectReads(toks, p, c);
    case Post(_, _) => PostReads(toks, p, c);
  }

  lemma {:induction false} SelectReads(toks: seq<Token>, p: nat, c: Cst)
    requires Stream(toks) && Grammatical(c) && c.Select? && At(toks, p, Tokens(c))
    ensures p + |Tokens(c)| < |toks| && Postfix(toks, p) == PostfixRest(toks, Tree(c), p + |Tokens(c)|)
    decreases c, 0, 1
  {
    hide At, Primary, Postfix;
    AtSelect(toks, p, Tokens(c.e), c.op, c.name);
    PostfixReads(toks, p, c.e);
  }

  lemma {:induction false} PostReads(toks: seq<Token>, p: nat, c: Cst)
    requires Stream(toks) && Grammatical(c) && c.Post? && At(toks, p, Tokens(c))
    ensures p + |Tokens(c)| < |toks| && Postfix(toks, p) == PostfixRest(toks, Tree(c), p + |Tokens(c)|)
    decreases c, 0, 1
  {
    hide At, Primary, Postfix;
    AtLast(toks, p, Tokens(c.e), c.op);
    PostfixReads(toks, p, c.e);
  }

  lemma AtSelect(toks: seq<Token>, p: nat, a: seq<Token>, op: Kind, name: Token)
    requires At(toks, p, a + [Mark(op), name]) && name.kind.Id?
    ensures At(toks, p, a) && p + |a| + 2 < |toks| && toks[p + |a|].kind == op && toks[p + |a| + 1] == name
  {
    var rest := [Mark(op), name];
    AtParts(toks, p, a, rest);
    assert Strip(toks[p + |a| + 0]) == Strip(rest[0]) && Strip(toks[p + |a| + 1]) == Strip(rest[1]);
  }

  lemma SubscriptParts(c: Cst)
    requires c.Subscript? && Grammatical(c)
    ensures Grammatical(c.e) && Level(c.e) <= POSTFIX && Grammatical(c.index)
    ensures Tokens(c) == Tokens(c.e) + [Mark(LBracket)] + Tokens(c.index) + [Mark(RBracket)]
    ensures Tree(c) == Index(Tree(c.e), Tree(c.index))
  {
  }

  lemma {:induction false} SubscriptReads(toks: seq<Token>, p: nat, c: Cst)
    requires Stream(toks) && Grammatical(c) && c.Subscript? && At(toks, p, Tokens(c))
    ensures p + |Tokens(c)| < |toks| && Postfix(toks, p) == PostfixRest(toks, Tree(c), p + |Tokens(c)|)
    decreases c, 0, 1
  {
    hide At, Primary, Postfix, Expr, Continues, Grammatical, Tokens, Tree, Level, IsAtom;
    SubscriptParts(c);
    var e, i := c.e, c.index;
    AtLast(toks, p, Tokens(e) + [Mark(LBracket)] + Tokens(i), RBracket);
    AtMid(toks, p, Tokens(e), LBracket, Tokens(i));
    PostfixReads(toks, p, e);
    Closes(RBracket);
    Parses(toks, p + |Tokens(e)| + 1, i, EXPR);
  }

  lemma ApplyParts(c: Cst)
    requires c.Apply? && Grammatical(c)
    ensures Grammatical(c.e) && Level(c.e) <= POSTFIX && forall i :: 0 <= i < |c.args| ==> Grammatical(c.args[i])
    ensures Tokens(c) == Tokens(c.e) + [Mark(LParen)] + ArgTokens(c.args) + [Mark(RParen)]
    ensures Tree(c) == Call(Tree(c.e), Trees(c.args))
  {
  }

  lemma {:induction false} ApplyReads(toks: seq<Token>, p: nat, c: Cst)
    requires Stream(toks) && Grammatical(c) && c.Apply? && At(toks, p, Tokens(c))
    ensures p + |Tokens(c)| < |toks| && Postfix(toks, p) == PostfixRest(toks, Tree(c), p + |Tokens(c)|)
    decreases c, 0, |c.args| + 1
  {
    hide At, Primary, Postfix, Arguments, Continues, ArgTokens, Trees, IsAtom, Grammatical, Tokens, Tree, Level;
    ApplyParts(c);
    var e, args := c.e, c.args;
    AtLast(toks, p, Tokens(e) + [Mark(LParen)] + ArgTokens(args), RParen);
    AtMid(toks, p, Tokens(e), LParen, ArgTokens(args));
    PostfixReads(toks, p, e);
    ArgumentsRead(toks, p + |Tokens(e)| + 1, c, args);
  }

  /** No expression goes on with a closing token. */
  lemma Closes(k: Kind)
    requires k.RParen? || k.RBracket? || k.Comma? || k.Colon? || k.Eof?
    ensures forall level: nat :: level <= EXPR ==> !Continues(k, level)
  {
  }

  lemma {:induction false} ArgumentsRead(toks: seq<Token>, p: nat, call: Cst, args: seq<Cst>)
    requires Stream(toks) && forall i :: 0 <= i < |args| ==> Grammatical(args[i])
    requires At(toks, p, ArgTokens(args)) && p + |ArgTokens(args)| < |toks| && toks[p + |ArgTokens(args)|].kind.RParen?
    requires call.Apply? && forall i :: 0 <= i < |args| ==> args[i] in call.args
    ensures Arguments(toks, p) == (Trees(args), p + |ArgTokens(args)|)
    decreases call, 0, |args|
  {
    hide At, Expr, Continues, Grammatical, Tokens, Tree, Level;
    Closes(RParen);
    Closes(Comma);
    if |args| == 1 {
      assert Trees(args) == [Tree(args[0])] + Trees(args[1..]) == [Tree(args[0])];
      FirstAt(toks, p, args[0]);
      Parses(toks, p, args[0], EXPR);
    } else if |args| > 1 {
      AtMid(toks, p, Tokens(args[0]), Comma, ArgTokens(args[1..]));
      FirstAt(toks, p, args[0]);
      Parses(toks, p, args[0], EXPR);
      ArgumentsRead(toks, p + |Tokens(args[0])| + 1, call, args[1..]);
    }
  }

  lemma PreParts(c: Cst)
    requires Grammatical(c) && c.Pre?
    ensures IsPrefix(c.op) && Level(c.e) <= UNARY && Grammatical(c.e)
    ensures Tokens(c) == [Mark(c.op)] + Tokens(c.e) && Tree(c) == PrefixTree(c.op, Tree(c.e))
  {
  }

  lemma SizeofUnaryParts(c: Cst)
    requires Grammatical(c) && c.SizeofUnary?
    ensures Level(c.e) <= UNARY && Grammatical(c.e) && !StartsWithParen(c.e)
    ensures Tokens(c) == [Mark(Sizeof)] + Tokens(c.e) && Tree(c) == SizeOf(Tree(c.e))
  {
  }

  lemma SizeofParenParts(c: Cst)
    requires Grammatical(c) && c.SizeofParen?
    ensures Grammatical(c.e) && Tree(c) == SizeOf(Tree(c.e)) && c == SizeofParen(c.e)
  {
  }

  lemma {:induction false} PreReads(toks: seq<Token>, p: nat, c: Cst)
    requires Stream(toks) && Grammatical(c) && c.Pre?
    requires At(toks, p, Tokens(c)) && p + |Tokens(c)| < |toks| && !StartsPostfix(toks[p + |Tokens(c)|].kind)
    ensures UnaryExpr(toks, p) == (Tree(c), p + |Tokens(c)|)
    decreases c, 1, 0
  {
    hide At, Postfix, Grammatical, Tokens, Tree, Level, StartsPostfix;
    PreParts(c);
    AtFirst(toks, p, c.op, Tokens(c.e));
    UnaryReads(toks, p + 1, c.e);
  }

  lemma {:induction false} SizeofUnaryReads(toks: seq<Token>, p: nat, c: Cst)
    requires Stream(toks) && Grammatical(c) && c.SizeofUnary?
    requires At(toks, p, Tokens(c)) && p + |Tokens(c)| < |toks| && !StartsPostfix(toks[p + |Tokens(c)|].kind)
    ensures UnaryExpr(toks, p) == (Tree(c), p + |Tokens(c)|)
    decreases c, 1, 0
  {
    hide At, Postfix, Grammatical, Tokens, Tree, Level, StartsPostfix, StartsWithParen;
    SizeofUnaryParts(c);
    AtFirst(toks, p, Sizeof, Tokens(c.e));
    FirstAt(toks, p + 1, c.e);
    UnaryReads(toks, p + 1, c.e);
  }

  lemma {:induction false} UnaryReads(toks: seq<Token>, p: nat, c: Cst)
    requires Stream(toks) && Grammatical(c) && Level(c) <= UNARY
    requires At(toks, p, Tokens(c)) && p + |Tokens(c)| < |toks| && !StartsPostfix(toks[p + |Tokens(c)|].kind)
    ensures UnaryExpr(toks, p) == (Tree(c), p + |Tokens(c)|)
    decreases c, 2, 0
  {
    hide At, Postfix, UnaryExpr, Grammatical, Tokens, Tree, StartsPostfix, IsAtom;
    if Level(c) <= POSTFIX {
      FirstAt(toks, p, c);
      PostfixReads(toks, p, c);
      PostfixStops(toks, Tree(c), p + |Tokens(c)|);
      UnaryIsPostfix(toks, p);
    } else if c.Pre? {
      PreReads(toks, p, c);
    } else if c.SizeofUnary? {
      SizeofUnaryReads(toks, p, c);
    } else if c.SizeofParen? {
      SizeofParenParts(c);
      SizeofReads(toks, p, c.e);
    } else {
      InfixLevel(c);
    }
  }

  lemma InfixLevel(c: Cst)
    requires Grammatical(c) && c.Infix?
    ensures Level(c) > UNARY
  {
  }

  lemma PostfixStops(toks: seq<Token>, node: Ast, p: nat)
    requires Stream(toks) && p < |toks| && !StartsPostfix(toks[p].kind)
    ensures PostfixRest(toks, node, p) == (node, p)
  {
  }

  lemma UnaryIsPostfix(toks: seq<Token>, p: nat)
    requires Stream(toks) && p < |toks| && (IsAtom(toks[p].kind) || toks[p].kind.LParen?)
    ensures UnaryExpr(toks, p) == Postfix(toks, p)
  {
  }

  lemma SizeofParts(e: Cst)
    ensures Tokens(SizeofParen(e)) == [Mark(Sizeof), Mark(LParen)] + Tokens(e) + [Mark(RParen)]
  {
  }

  /** After "sizeof ( e )" the operand is complete, even if a postfix operator follows. */
  lemma {:induction false} SizeofReads(toks: seq<Token>, p: nat, e: Cst)
    requires Stream(toks) && Grammatical(e) && At(toks, p, Tokens(SizeofParen(e)))
    ensures p + |Tokens(SizeofParen(e))| < |toks|
    ensures UnaryExpr(toks, p) == (SizeOf(Tree(e)), p + |Tokens(SizeofParen(e))|)
    decreases e, EXPR, 3
  {
    hide At, Expr, Continues, Grammatical, Tokens, Tree, Level, IsAtom;
    SizeofParts(e);
    AtLast(toks, p, [Mark(Sizeof), Mark(LParen)] + Tokens(e), RParen);
    assert [Mark(Sizeof), Mark(LParen)] + Tokens(e) == [Mark(Sizeof)] + ([Mark(LParen)] + Tokens(e));
    AtFirst(toks, p, Sizeof, [Mark(LParen)] + Tokens(e));
    AtFirst(toks, p + 1, LParen, Tokens(e));
    Closes(RParen);
    Parses(toks, p + 2, e, EXPR);
  }

  lemma InfixParts(c: Cst)
    requires c.Infix? && Grammatical(c)
    ensures BinaryLevel(c.op) > 0 && Grammatical(c.l) && Grammatical(c.r) && Level(c.l) <= Level(c)
    ensures Level(c.r) < Level(c)
    ensures Tokens(c) == Tokens(c.l) + [Mark(c.op)] + Tokens(c.r) && Tree(c) == Binary(c.op, Tree(c.l), Tree(c.r))
  {
  }

  /**
   * A binary expression is read as far as operators of its level go, whatever operator of that level comes behind it.
   */
  lemma {:induction false} BinaryReads(toks: seq<Token>, p: nat, c: Cst, level: nat)
    requires Stream(toks) && Grammatical(c) && 1 <= level <= 10 && Level(c) <= UNARY + level
    requires At(toks, p, Tokens(c)) && p + |Tokens(c)| < |toks|
    requires !Continues(toks[p + |Tokens(c)|].kind, UNARY + level - 1)
    ensures BinaryExpr(toks, p, level) == BinaryRest(toks, Tree(c), p + |Tokens(c)|, level)
    decreases c, UNARY + level, 1
  {
    hide At, UnaryExpr, Grammatical, Tokens, Tree;
    if Level(c) < UNARY + level {
      Parses(toks, p, c, UNARY + level - 1);
    } else {
      InfixParts(c);
      AtMid(toks, p, Tokens(c.l), c.op, Tokens(c.r));
      BinaryReads(toks, p, c.l, level);
      Parses(toks, p + |Tokens(c.l)| + 1, c.r, UNARY + level - 1);
    }
  }

  lemma QuestionBreaks()
    ensures !Continues(Question, CONDITIONAL - 1)
  {
  }

  lemma ChoiceParts(c: Cst)
    requires c.Choice? && Grammatical(c)
    ensures Grammatical(c.c) && Grammatical(c.t) && Grammatical(c.f) && Level(c.c) < CONDITIONAL
    ensures Level(c.f) <= CONDITIONAL
    ensures Tokens(c) == Tokens(c.c) + [Mark(Question)] + Tokens(c.t) + [Mark(Colon)] + Tokens(c.f)
    ensures Tree(c) == Ternary(Tree(c.c), Tree(c.t), Tree(c.f))
  {
    hide BinaryLevel, IsPrefix, StartsWithParen, ArgTokens;
  }

  lemma {:induction false} NoTernary(toks: seq<Token>, p: nat, c: Cst)
    requires Stream(toks) && Grammatical(c) && Level(c) < CONDITIONAL
    requires At(toks, p, Tokens(c)) && p + |Tokens(c)| < |toks|
    requires !Continues(toks[p + |Tokens(c)|].kind, CONDITIONAL)
    ensures Conditional(toks, p) == (Tree(c), p + |Tokens(c)|)
    decreases c, CONDITIONAL, 0
  {
    hide At, BinaryExpr, Expr;
    Parses(toks, p, c, CONDITIONAL - 1);
  }

  lemma {:induction false} ChoiceReads(toks: seq<Token>, p: nat, c: Cst)
    requires Stream(toks) && Grammatical(c) && c.Choice?
    requires At(toks, p, Tokens(c)) && p + |Tokens(c)| < |toks|
    requires !Continues(toks[p + |Tokens(c)|].kind, CONDITIONAL)
    ensures Conditional(toks, p) == (Tree(c), p + |Tokens(c)|)
    decreases c, CONDITIONAL, 0
  {
    hide At, BinaryExpr, Expr, Grammatical, Tokens, Tree, BinaryLevel, Continues, Level;
    ChoiceParts(c);
    Closes(Colon);
    QuestionBreaks();
    var d, t, f := c.c, c.t, c.f;
    var q := p + |Tokens(d)|;
    AtMid(toks, p, Tokens(d) + [Mark(Question)] + Tokens(t), Colon, Tokens(f));
    AtMid(toks, p, Tokens(d), Question, Tokens(t));
    Parses(toks, p, d, CONDITIONAL - 1);
    Parses(toks, q + 1, t, EXPR);
    Parses(toks, q + 1 + |Tokens(t)| + 1, f, CONDITIONAL);
  }

  lemma {:induction false} ConditionalReads(toks: seq<Token>, p: nat, c: Cst)
    requires Stream(toks) && Grammatical(c) && Level(c) <= CONDITIONAL
    requires At(toks, p, Tokens(c)) && p + |Tokens(c)| < |toks|
    requires !Continues(toks[p + |Tokens(c)|].kind, CONDITIONAL)
    ensures Conditional(toks, p) == (Tree(c), p + |Tokens(c)|)
    decreases c, CONDITIONAL, 1
  {
    hide At, Conditional, Tokens, Tree, Continues;
    if Level(c) < CONDITIONAL {
      NoTernary(toks, p, c);
    } else {
      ChoiceReads(toks, p, c);
    }
  }

  lemma AssignmentParts(c: Cst)
    requires Grammatical(c) && Level(c) == EXPR
    ensures c.Assignment? && IsAssignment(c.op) && Level(c.l) < EXPR && Grammatical(c.l) && Grammatical(c.r)
    ensures Tokens(c) == Tokens(c.l) + [Mark(c.op)] + Tokens(c.r) && Tree(c) == Binary(c.op, Tree(c.l), Tree(c.r))
  {
    hide StartsWithParen, IsPrefix, IsAtom, BinaryLevel;
  }

  lemma AssignmentBreaks(k: Kind)
    requires IsAssignment(k)
    ensures !Continues(k, CONDITIONAL)
  {
  }

  lemma {:induction false} AssignmentReads(toks: seq<Token>, p: nat, c: Cst)
    requires Stream(toks) && Grammatical(c)
    requires At(toks, p, Tokens(c)) && p + |Tokens(c)| < |toks|
    requires !Continues(toks[p + |Tokens(c)|].kind, EXPR)
    ensures Expr(toks, p) == (Tree(c), p + |Tokens(c)|)
    decreases c, EXPR, 1
  {
    if Level(c) < EXPR {
      hide At, Conditional, Grammatical, Tokens, Tree, Level;
      Parses(toks, p, c, CONDITIONAL);
    } else {
      BindingReads(toks, p, c);
    }
  }

  lemma {:induction false} BindingReads(toks: seq<Token>, p: nat, c: Cst)
    requires Stream(toks) && Grammatical(c) && Level(c) == EXPR
    requires At(toks, p, Tokens(c)) && p + |Tokens(c)| < |toks|
    requires !Continues(toks[p + |Tokens(c)|].kind, EXPR)
    ensures Expr(toks, p) == (Tree(c), p + |Tokens(c)|)
    decreases c, EXPR, 0
  {
    hide At, Conditional, Grammatical, Tokens, Tree, Level, Continues, IsAtom, IsAssignment;
    AssignmentParts(c);
    AtMid(toks, p, Tokens(c.l), c.op, Tokens(c.r));
    AssignmentBreaks(c.op);
    Parses(toks, p, c.l, CONDITIONAL);
    Parses(toks, p + |Tokens(c.l)| + 1, c.r, EXPR);
  }

  // ----- consequences -----

  /** Two derivations with the same tokens stand for the same tree: the grammar the parser follows is unambiguous. */
  lemma Unambiguous(c: Cst, d: Cst)
    requires Grammatical(c) && Grammatical(d) && Tokens(c) == Tokens(d)
    ensures Tree(c) == Tree(d)
  {
    var toks := Tokens(c) + [Mark(Eof)];
    assert At(toks, 0, Tokens(c)) && toks[|Tokens(c)|] == Mark(Eof);
    Closes(Eof);
    Parses(toks, 0, c, EXPR);
    Parses(toks, 0, d, EXPR);
  }

  /**
   * A unary expression that starts with '(' but is more than a parenthesis, such as (x)[i], starts with a whole
   * parenthesis.
   */
  lemma {:induction false} Core(u: Cst) returns (e: Cst)
    requires Grammatical(u) && Level(u) <= POSTFIX && StartsWithParen(u)
    ensures Grammatical(e) && Tokens(Paren(e)) <= Tokens(u)
    ensures if u.Paren? then e == u.e else |Tokens(Paren(e))| < |Tokens(u)|
  {
    if u.Paren? {
      e := u.e;
    } else {
      e := Core(u.e);
    }
  }

  /**
   * "sizeof u" is read whole exactly when u does not start with a parenthesis it is not itself; (C reads it whole
   * always.)
   */
  lemma SizeofReadIff(toks: seq<Token>, p: nat, u: Cst)
    requires Stream(toks) && Grammatical(u) && Level(u) <= UNARY
    requires At(toks, p, Tokens(SizeofUnary(u))) && p + 1 + |Tokens(u)| < |toks|
    requires !StartsPostfix(toks[p + 1 + |Tokens(u)|].kind)
    ensures UnaryExpr(toks, p) == (SizeOf(Tree(u)), p + 1 + |Tokens(u)|) <==> !StartsWithParen(u) || u.Paren?
  {
    hide At, UnaryExpr;
    if !StartsWithParen(u) {
      UnaryReads(toks, p, SizeofUnary(u));
    } else {
      SizeofOfParen(toks, p, u);
    }
  }

  lemma SizeofOfParen(toks: seq<Token>, p: nat, u: Cst)
    requires Stream(toks) && Grammatical(u) && Level(u) <= POSTFIX && StartsWithParen(u)
    requires At(toks, p, [Mark(Sizeof)] + Tokens(u))
    ensures p < |toks|
    ensures UnaryExpr(toks, p) == (SizeOf(Tree(u)), p + 1 + |Tokens(u)|) <==> u.Paren?
  {
    var e := Core(u);
    hide At, UnaryExpr, Tokens, StartsWithParen;
    SameTokens(e);
    AtPrefix(toks, p, [Mark(Sizeof)] + Tokens(Paren(e)), [Mark(Sizeof)] + Tokens(u));
    SizeofReads(toks, p, e);
  }

  lemma AtPrefix(toks: seq<Token>, p: nat, part: seq<Token>, whole: seq<Token>)
    requires At(toks, p, whole) && part <= whole
    ensures At(toks, p, part)
  {
    assert whole == part + whole[|part|..];
    AtParts(toks, p, part, whole[|part|..]);
  }

  lemma SameTokens(e: Cst)
    ensures [Mark(Sizeof)] + Tokens(Paren(e)) == Tokens(SizeofParen(e))
  {
    assert [Mark(Sizeof)] + ([Mark(LParen)] + Tokens(e) + [Mark(RParen)]) ==
      [Mark(Sizeof), Mark(LParen)] + Tokens(e) + [Mark(RParen)];
  }

  /** Written behind or in front, an increment is one and the same tree. */
  lemma PostfixLooksLikePrefix(toks: seq<Token>, p: nat, toks': seq<Token>, p': nat, c: Cst, op: Kind)
    requires Stream(toks) && Stream(toks') && Grammatical(c) && Level(c) <= POSTFIX && (op.Inc? || op.Dec?)
    requires At(toks, p, Tokens(Post(op, c))) && !StartsPostfix(toks[p + |Tokens(c)| + 1].kind)
    requires At(toks', p', Tokens(Pre(op, c))) && !StartsPostfix(toks'[p' + |Tokens(c)| + 1].kind)
    ensures UnaryExpr(toks, p).0 == UnaryExpr(toks', p').0 == Unary(op, Tree(c))
  {
    hide UnaryExpr, StartsPostfix;
    UnaryReads(toks, p, Post(op, c));
    UnaryReads(toks', p', Pre(op, c));
  }

  // ----- printing -----

  /** Trees that some expression stands for. */
  predicate Printable(a: Ast) {
    match a
    case Null => false
    case Literal(_) | String(_) | Identifier(_) => true
    case Index(x, i) => Printable(x) && Printable(i)
    case Call(f, args) => Printable(f) && |args| <= 64 && forall i :: 0 <= i < |args| ==> Printable(args[i])
    case Member(x, _) => Printable(x)
    case ArrowMember(x, _) => Printable(x)
    case Unary(op, x) => (op.Inc? || op.Dec? || op.Minus? || op.Not? || op.BNot?) && Printable(x)
    case Deref(x) => Printable(x)
    case Addr(x) => Printable(x)
    case SizeOf(x) => Printable(x)
    case Binary(op, l, r) => (BinaryLevel(op) > 0 || IsAssignment(op)) && Printable(l) && Printable(r)
    case Ternary(c, t, f) => Printable(c) && Printable(t) && Printable(f)
  }

  /** The tree as an expression of `level`, in parentheses only if it is not one without them. */
  function Show(a: Ast, level: nat): Cst
    requires Printable(a)
    decreases a, 1
  {
    var c := Bare(a);
    if Level(c) <= level then c else Paren(c)
  }

  function Bare(a: Ast): Cst
    requires Printable(a)
    decreases a, 0
  {
    match a
    case Literal(v) => Atom(Token(Num, "", v))
    case String(t) => Atom(Token(Str, t, 0))
    case Identifier(t) => Atom(Token(Id, t, 0))
    case Index(x, i) => Subscript(Show(x, POSTFIX), Show(i, EXPR))
    case Call(f, args) => Apply(Show(f, POSTFIX), seq(|args|, i requires 0 <= i < |args| => Show(args[i], EXPR)))
    case Member(x, m) => Select(Dot, Show(x, POSTFIX), Token(Id, m, 0))
    case ArrowMember(x, m) => Select(Arrow, Show(x, POSTFIX), Token(Id, m, 0))
    case Unary(op, x) => Pre(op, Show(x, UNARY))
    case Deref(x) => Pre(Mul, Show(x, UNARY))
    case Addr(x) => Pre(BAnd, Show(x, UNARY))
    case SizeOf(x) => SizeofParen(Show(x, EXPR))
    case Binary(op, l, r) =>
      if IsAssignment(op) then Assignment(op, Show(l, CONDITIONAL), Show(r, EXPR))
      else Infix(op, Show(l, UNARY + BinaryLevel(op)), Show(r, UNARY + BinaryLevel(op) - 1))
    case Ternary(c, t, f) => Choice(Show(c, CONDITIONAL - 1), Show(t, EXPR), Show(f, CONDITIONAL))
  }

  lemma {:induction false} ShowIsDerivation(a: Ast, level: nat)
    requires Printable(a)
    ensures Grammatical(Show(a, level)) && Level(Show(a, level)) <= level && Tree(Show(a, level)) == a
    decreases a, 1, 1
  {
    BareIsDerivation(a);
  }

  lemma {:induction false} BareIsDerivation(a: Ast)
    requires Printable(a)
    ensures Grammatical(Bare(a)) && Tree(Bare(a)) == a
    decreases a, 1, 0
  {
    match a
    case Literal(_) =>
    case String(_) =>
    case Identifier(_) =>
    case Index(_, _) => IndexIsDerivation(a);
    case Call(_, _) => CallIsDerivation(a);
    case Member(x, _) => ShowIsDerivation(x, POSTFIX);
    case ArrowMember(x, _) => ShowIsDerivation(x, POSTFIX);
    case Unary(_, _) => PrefixIsDerivation(a);
    case Deref(_) => PrefixIsDerivation(a);
    case Addr(_) => PrefixIsDerivation(a);
    case SizeOf(x) => ShowIsDerivation(x, EXPR);
    case Binary(_, _, _) => BinaryIsDerivation(a);
    case Ternary(_, _, _) => TernaryIsDerivation(a);
  }

  lemma {:induction false} IndexIsDerivation(a: Ast)
    requires a.Index? && Printable(a)
    ensures Grammatical(Bare(a)) && Tree(Bare(a)) == a
    decreases a, 0, 0
  {
    ShowIsDerivation(a.array_, POSTFIX);
    ShowIsDerivation(a.index, EXPR);
  }

  lemma {:induction false} PrefixIsDerivation(a: Ast)
    requires (a.Unary? || a.Deref? || a.Addr?) && Printable(a)
    ensures Grammatical(Bare(a)) && Tree(Bare(a)) == a
    decreases a, 0, 0
  {
    ShowIsDerivation(a.operand, UNARY);
  }

  lemma {:induction false} TernaryIsDerivation(a: Ast)
    requires a.Ternary? && Printable(a)
    ensures Grammatical(Bare(a)) && Tree(Bare(a)) == a
    decreases a, 0, 0
  {
    ShowIsDerivation(a.cond, CONDITIONAL - 1);
    ShowIsDerivation(a.tbranch, EXPR);
    ShowIsDerivation(a.fbranch, CONDITIONAL);
  }

  lemma {:induction false} BinaryIsDerivation(a: Ast)
    requires Printable(a) && a.Binary?
    ensures Grammatical(Bare(a)) && Tree(Bare(a)) == a
    decreases a, 0, 0
  {
    if IsAssignment(a.op) {
      ShowIsDerivation(a.left, CONDITIONAL);
      ShowIsDerivation(a.right, EXPR);
    } else {
      ShowIsDerivation(a.left, UNARY + BinaryLevel(a.op));
      ShowIsDerivation(a.right, UNARY + BinaryLevel(a.op) - 1);
    }
  }

  lemma {:induction false} CallIsDerivation(a: Ast)
    requires Printable(a) && a.Call?
    ensures Grammatical(Bare(a)) && Tree(Bare(a)) == a
    decreases a, 0, 0
  {
    ShowIsDerivation(a.func, POSTFIX);
    forall i | 0 <= i < |a.args|
      ensures Grammatical(Show(a.args[i], EXPR)) && Tree(Show(a.args[i], EXPR)) == a.args[i]
    {
      ShowIsDerivation(a.args[i], EXPR);
    }
    TreesAre(Bare(a).args, a.args);
  }

  lemma {:induction false} TreesAre(cs: seq<Cst>, trees: seq<Ast>)
    requires |cs| == |trees| && forall i :: 0 <= i < |cs| ==> Tree(cs[i]) == trees[i]
    ensures Trees(cs) == trees
  {
    if cs != [] {
      TreesAre(cs[1..], trees[1..]);
      assert trees == [trees[0]] + trees[1..];
    }
  }

  /** Parsing undoes printing, and stops at the end of what was printed. */
  lemma RoundTrip(a: Ast, rest: seq<Token>)
    requires Printable(a) && Stream(rest) && !Continues(rest[0].kind, EXPR)
    ensures Stream(Tokens(Show(a, EXPR)) + rest)
    ensures Expr(Tokens(Show(a, EXPR)) + rest, 0) == (a, |Tokens(Show(a, EXPR))|)
  {
    var c := Show(a, EXPR);
    var toks := Tokens(c) + rest;
    hide Expr, Show, Tokens, Tree, Continues, Printable;
    assert toks[|toks| - 1] == rest[|rest| - 1] && toks[|Tokens(c)|] == rest[0];
    ShowIsDerivation(a, EXPR);
    Parses(toks, 0, c, EXPR);
  }

  /** The same for the parser as it runs. */
  method Reparse(a: Ast, rest: seq<Token>) returns (node: Ast, pos: nat)
    requires Printable(a) && Stream(rest) && !Continues(rest[0].kind, EXPR)
    ensures node == a && pos == |Tokens(Show(a, EXPR))|
  {
    RoundTrip(a, rest);
    var parser := new Parser(Tokens(Show(a, EXPR)) + rest);
    node := parser.ParseExpr();
    pos := parser.pos;
  }
}
