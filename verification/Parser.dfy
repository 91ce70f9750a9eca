/** The recursive-descent expression parser of the native compiler. */
module Parser {
  import opened Syntax

  /** What lex leaves: the last token, and perhaps others, is TOK_EOF. */
  predicate Stream(toks: seq<Token>) {
    |toks| > 0 && toks[|toks| - 1].kind.Eof?
  }

  // ----- the parser as functions from a position to a tree and a position -----

  function Skip(toks: seq<Token>, p: nat, k: Kind): (q: nat)
    requires Stream(toks) && p < |toks| && !k.Eof?
    ensures p <= q <= p + 1 && q < |toks|
  {
    if toks[p].kind == k then p + 1 else p
  }

  function Primary(toks: seq<Token>, p: nat): (r: (Ast, nat))
    requires Stream(toks) && p < |toks|
    ensures p <= r.1 < |toks|
    decreases |toks| - p, 1
  {
    var k := toks[p].kind;
    if IsAtom(k) then (AtomTree(toks[p]), p + 1)
    else if k.LParen? then
      var (e, q) := Expr(toks, p + 1);
      (e, Skip(toks, q, RParen))
    else (Null, p)
  }

  function Postfix(toks: seq<Token>, p: nat): (r: (Ast, nat))
    requires Stream(toks) && p < |toks|
    ensures p <= r.1 < |toks|
    decreases |toks| - p, 2
  {
    var (node, q) := Primary(toks, p);
    PostfixRest(toks, node, q)
  }

  function PostfixRest(toks: seq<Token>, node: Ast, p: nat): (r: (Ast, nat))
    requires Stream(toks) && p < |toks|
    ensures p <= r.1 < |toks|
    decreases |toks| - p, 0
  {
    var k := toks[p].kind;
    if k.LBracket? then
      var (index, q) := Expr(toks, p + 1);
      PostfixRest(toks, Index(node, index), Skip(toks, q, RBracket))
    else if k.LParen? then
      var (args, q) := Arguments(toks, p + 1);
      PostfixRest(toks, Call(node, args), Skip(toks, q, RParen))
    else if k.Dot? then
      PostfixRest(toks, Member(node, toks[p + 1].text), Skip(toks, p + 1, Id))
    else if k.Arrow? then
      PostfixRest(toks, ArrowMember(node, toks[p + 1].text), Skip(toks, p + 1, Id))
    else if k.Inc? || k.Dec? then
      PostfixRest(toks, Unary(k, node), p + 1)
    else (node, p)
  }

  function Arguments(toks: seq<Token>, p: nat): (r: (seq<Ast>, nat))
    requires Stream(toks) && p < |toks|
    ensures p <= r.1 < |toks|
    decreases |toks| - p, 17
  {
    if toks[p].kind.RParen? then ([], p)
    else
      var (arg, q) := Expr(toks, p);
      if toks[q].kind.Comma? then
        var (rest, s) := Arguments(toks, q + 1);
        ([arg] + rest, s)
      else ([arg], q)
  }

  function UnaryExpr(toks: seq<Token>, p: nat): (r: (Ast, nat))
    requires Stream(toks) && p < |toks|
    ensures p <= r.1 < |toks|
    decreases |toks| - p, 3
  {
    var k := toks[p].kind;
    if IsPrefix(k) then
      var (e, q) := UnaryExpr(toks, p + 1);
      (PrefixTree(k, e), q)
    else if k.Sizeof? then
      if toks[p + 1].kind.LParen? then
        var (e, q) := Expr(toks, p + 2);
        (SizeOf(e), Skip(toks, q, RParen))
      else
        var (e, q) := UnaryExpr(toks, p + 1);
        (SizeOf(e), q)
    else Postfix(toks, p)
  }

  /** parse_mul (level 1) to parse_lor (level 10). */
  function BinaryExpr(toks: seq<Token>, p: nat, level: nat): (r: (Ast, nat))
    requires Stream(toks) && p < |toks| && level <= 10
    ensures p <= r.1 < |toks|
    decreases |toks| - p, 4 + level
  {
    if level == 0 then UnaryExpr(toks, p)
    else
      var (node, q) := BinaryExpr(toks, p, level - 1);
      BinaryRest(toks, node, q, level)
  }

  function BinaryRest(toks: seq<Token>, node: Ast, p: nat, level: nat): (r: (Ast, nat))
    requires Stream(toks) && p < |toks| && 1 <= level <= 10
    ensures p <= r.1 < |toks|
    decreases |toks| - p, 0
  {
    var op := toks[p].kind;
    if BinaryLevel(op) == level then
      var (right, q) := BinaryExpr(toks, p + 1, level - 1);
      BinaryRest(toks, Binary(op, node, right), q, level)
    else (node, p)
  }

  function Conditional(toks: seq<Token>, p: nat): (r: (Ast, nat))
    requires Stream(toks) && p < |toks|
    ensures p <= r.1 < |toks|
    decreases |toks| - p, 15
  {
    var (node, q) := BinaryExpr(toks, p, 10);
    if toks[q].kind.Question? then
      var (t, s) := Expr(toks, q + 1);
      var (f, e) := Conditional(toks, Skip(toks, s, Colon));
      (Ternary(node, t, f), e)
    else (node, q)
  }

  function Expr(toks: seq<Token>, p: nat): (r: (Ast, nat))
    requires Stream(toks) && p < |toks|
    ensures p <= r.1 < |toks|
    decreases |toks| - p, 16
  {
    var (node, q) := Conditional(toks, p);
    var op := toks[q].kind;
    if IsAssignment(op) then
      var (right, s) := Expr(toks, q + 1);
      (Binary(op, node, right), s)
    else (node, q)
  }

  // ----- the parser as it runs -----

  class Parser {
    const tokens: seq<Token>
    var pos: nat

    ghost predicate Valid()
      reads this
    {
      Stream(tokens) && pos < |tokens|
    }

    constructor (tokens: seq<Token>)
      requires Stream(tokens)
      ensures Valid() && this.tokens == tokens && pos == 0
    {
      this.tokens, pos := tokens, 0;
    }

    predicate Match(k: Kind)
      requires Valid()
      reads this
    {
      tokens[pos].kind == k
    }

    method Consume(k: Kind) returns (ok: bool)
      requires Valid() && !k.Eof?
      modifies this
      ensures Valid() && ok == old(Match(k)) && pos == Skip(tokens, old(pos), k)
    {
      ok := Match(k);
      if ok {
        pos := pos + 1;
      }
    }

    method ParsePrimary() returns (node: Ast)
      requires Valid()
      modifies this
      ensures Valid() && (node, pos) == Primary(tokens, old(pos))
      decreases |tokens| - pos, 1
    {
      var tok := tokens[pos];
      if IsAtom(tok.kind) {
        pos := pos + 1;
        return AtomTree(tok);
      }
      var open := Consume(LParen);
      if open {
        node := ParseExpr();
        var _ := Consume(RParen);
        return;
      }
      return Null;
    }

    method ParsePostfix() returns (node: Ast)
      requires Valid()
      modifies this
      ensures Valid() && (node, pos) == Postfix(tokens, old(pos))
      decreases |tokens| - pos, 2
    {
      node := ParsePrimary();
      while true
        invariant Valid() && old(pos) <= pos && Postfix(tokens, old(pos)) == PostfixRest(tokens, node, pos)
        decreases |tokens| - pos
      {
        var k := tokens[pos].kind;
        if k.LBracket? {
          pos := pos + 1;
          var index := ParseExpr();
          var _ := Consume(RBracket);
          node := Index(node, index);
        } else if k.LParen? {
          pos := pos + 1;
          var args := ParseArguments();
          var _ := Consume(RParen);
          node := Call(node, args);
        } else if k.Dot? || k.Arrow? {
          pos := pos + 1;
          var name := tokens[pos].text;
          var _ := Consume(Id);
          node := if k.Dot? then Member(node, name) else ArrowMember(node, name);
        } else if k.Inc? || k.Dec? {
          pos := pos + 1;
          node := Unary(k, node);
        } else {
          break;
        }
      }
    }

    /** The loop over call arguments; stops at ')' or after an argument that no comma follows. */
    method ParseArguments() returns (args: seq<Ast>)
      requires Valid()
      modifies this
      ensures Valid() && (args, pos) == Arguments(tokens, old(pos))
      decreases |tokens| - pos, 17
    {
      args := [];
      while !Match(RParen)
        invariant Valid() && old(pos) <= pos
        invariant Arguments(tokens, old(pos)).1 == Arguments(tokens, pos).1
        invariant Arguments(tokens, old(pos)).0 == args + Arguments(tokens, pos).0
        decreases |tokens| - pos
      {
        ghost var start, before := pos, args;
        var arg := ParseExpr();
        args := args + [arg];
        var more := Consume(Comma);
        if !more {
          assert Arguments(tokens, start) == ([arg], pos);
          return;
        }
        assert before + ([arg] + Arguments(tokens, pos).0) == args + Arguments(tokens, pos).0;
      }
      assert args + [] == args;
    }

    method ParseUnary() returns (node: Ast)
      requires Valid()
      modifies this
      ensures Valid() && (node, pos) == UnaryExpr(tokens, old(pos))
      decreases |tokens| - pos, 3
    {
      var k := tokens[pos].kind;
      if IsPrefix(k) {
        pos := pos + 1;
        var operand := ParseUnary();
        return PrefixTree(k, operand);
      }
      var sizeof := Consume(Sizeof);
      if sizeof {
        var open := Consume(LParen);
        if open {
          var operand := ParseExpr();
          var _ := Consume(RParen);
          return SizeOf(operand);
        }
        var operand := ParseUnary();
        return SizeOf(operand);
      }
      node := ParsePostfix();
    }

    method ParseBinary(level: nat) returns (node: Ast)
      requires Valid() && level <= 10
      modifies this
      ensures Valid() && (node, pos) == BinaryExpr(tokens, old(pos), level)
      decreases |tokens| - pos, 4 + level
    {
      if level == 0 {
        node := ParseUnary();
        return;
      }
      node := ParseBinary(level - 1);
      while BinaryLevel(tokens[pos].kind) == level
        invariant Valid() && old(pos) <= pos
        invariant BinaryExpr(tokens, old(pos), level) == BinaryRest(tokens, node, pos, level)
        decreases |tokens| - pos
      {
        var op := tokens[pos].kind;
        pos := pos + 1;
        var right := ParseBinary(level - 1);
        node := Binary(op, node, right);
      }
    }

    method ParseConditional() returns (node: Ast)
      requires Valid()
      modifies this
      ensures Valid() && (node, pos) == Conditional(tokens, old(pos))
      decreases |tokens| - pos, 15
    {
      node := ParseBinary(10);
      var ternary := Consume(Question);
      if ternary {
        var t := ParseExpr();
        var _ := Consume(Colon);
        var f := ParseConditional();
        node := Ternary(node, t, f);
      }
    }

    method ParseExpr() returns (node: Ast)
      requires Valid()
      modifies this
      ensures Valid() && (node, pos) == Expr(tokens, old(pos))
      decreases |tokens| - pos, 16
    {
      node := ParseConditional();
      var op := tokens[pos].kind;
      if IsAssignment(op) {
        pos := pos + 1;
        var right := ParseExpr();
        node := Binary(op, node, right);
      }
    }
  }
}
