/** IR generation for expressions, and what the generated code computes. */
module CodeGen {
  import opened Syntax
  import P = Parser
  import Inverse = ParserInverse

  datatype Option<T> = None | Some(value: T)

  // ----- IR -----

  datatype Op =
    | MoveOp | AddOp | SubOp | MulOp | DivOp | ModOp
    | AndOp | OrOp | XorOp | ShlOp | ShrOp | CmpOp
    | NegOp | NotOp | BNotOp | NopOp

  datatype Instr = Instr(op: Op, dest: int, src1: int, src2: int, imm: int)

  function BinaryOp(op: Kind): Op {
    match op
    case Plus => AddOp
    case Minus => SubOp
    case Mul => MulOp
    case Div => DivOp
    case Mod => ModOp
    case And => AndOp
    case Or => OrOp
    case Shl => ShlOp
    case Shr => ShrOp
    case Eq | Ne | Lt | Gt | Le | Ge => CmpOp
    case _ => NopOp
  }

  function UnaryOp(op: Kind): Op {
    match op
    case Minus => NegOp
    case Not => NotOp
    case BNot => BNotOp
    case _ => NopOp
  }

  /** No missing operand where the generator goes. */
  predicate Complete(a: Ast) {
    match a
    case Null => false
    case Binary(_, l, r) => Complete(l) && Complete(r)
    case Unary(_, e) => Complete(e)
    case _ => true
  }

  /** The code for `a` with its value to go to register `dest`. */
  function Gen(a: Ast, dest: int): seq<Instr> {
    match a
    case Literal(v) => [Instr(MoveOp, dest, -1, -1, v)]
    case Binary(op, l, r) => Gen(l, dest) + Gen(r, dest + 1) + [Instr(BinaryOp(op), dest, dest, dest + 1, 0)]
    case Unary(op, e) => Gen(e, dest) + [Instr(UnaryOp(op), dest, dest, -1, 0)]
    case _ => []
  }

  class Generator {
    var ir: seq<Instr>

    constructor ()
      ensures ir == []
    {
      ir := [];
    }

    /** Appends code behind what is there. */
    method GenExpr(a: Ast, dest: int)
      requires Complete(a)
      modifies this
      ensures ir == old(ir) + Gen(a, dest)
      decreases a
    {
      match a
      case Literal(v) =>
        ir := ir + [Instr(MoveOp, dest, -1, -1, v)];
      case Binary(op, l, r) =>
        GenExpr(l, dest);
        GenExpr(r, dest + 1);
        ir := ir + [Instr(BinaryOp(op), dest, dest, dest + 1, 0)];
      case Unary(op, e) =>
        GenExpr(e, dest);
        ir := ir + [Instr(UnaryOp(op), dest, dest, -1, 0)];
      case _ =>
    }
  }

  // ----- arithmetic on 64-bit words -----

  const MIN64: int := -0x8000_0000_0000_0000

  predicate IsWord(x: int) { MIN64 <= x < -MIN64 }

  function Wrap(x: int): (w: int)
    ensures IsWord(w)
    ensures IsWord(x) ==> w == x
  {
    (x - MIN64) % 0x1_0000_0000_0000_0000 + MIN64
  }

  function Pow2(n: nat): (p: nat)
    ensures p > 0
  {
    if n == 0 then 1 else 2 * Pow2(n - 1)
  }

  /** Division truncating towards zero. */
  function Quotient(a: int, b: int): int
    requires b != 0
  {
    if a >= 0 then a / b else -(-a / b)
  }

  function Divide(a: int, b: int): Option<int> {
    if b == 0 || !IsWord(Quotient(a, b)) then None else Some(Quotient(a, b))
  }

  /** The remainder that goes with it, with the sign of the dividend. */
  function Remainder(a: int, b: int): Option<int> {
    if b == 0 || !IsWord(Quotient(a, b)) then None else Some(if a >= 0 then a % b else -(-a % b))
  }

  /** Shifts take the low six bits of the count; the right shift brings in zeros. */
  function ShiftLeft(a: int, count: int): int { Wrap(a * Pow2(count % 64)) }

  function ShiftRight(a: int, count: int): int {
    Wrap(a % 0x1_0000_0000_0000_0000 / Pow2(count % 64))
  }

  // ----- meaning of trees -----

  /** What operators compute; none where they trap. */
  datatype Meaning = Meaning(binary: (Kind, int, int) -> Option<int>, unary: (Kind, int) -> Option<int>)

  /** The binary and the unary operators that trees may have. */
  datatype Operators = Operators(binary: iset<Kind>, unary: iset<Kind>)

  /** Trees of literals and these operators. */
  ghost predicate Over(a: Ast, ops: Operators) {
    match a
    case Literal(_) => true
    case Binary(op, l, r) => op in ops.binary && Over(l, ops) && Over(r, ops)
    case Unary(op, e) => op in ops.unary && Over(e, ops)
    case _ => false
  }

  /** Operands first; none if anything traps. */
  function Eval(f: Meaning, a: Ast): Option<int> {
    match a
    case Literal(v) => Some(Wrap(v))
    case Binary(op, l, r) =>
      if Eval(f, l).None? || Eval(f, r).None? then None else f.binary(op, Eval(f, l).value, Eval(f, r).value)
    case Unary(op, e) => if Eval(f, e).None? then None else f.unary(op, Eval(f, e).value)
    case _ => None
  }

  // ----- meaning of code -----

  /** What the instructions with operands compute; none where they fault. */
  datatype Machine = Machine(binary: (Op, int, int) -> Option<int>, unary: (Op, int) -> Option<int>)

  /** Register contents; a register never written holds 0. */
  type Regs = map<int, int>

  function Reg(regs: Regs, r: int): int { if r in regs then regs[r] else 0 }

  /** Whatever the machine, moving a number moves it and doing nothing does nothing. */
  function Exec(m: Machine, i: Instr, regs: Regs): Option<Regs> {
    if i.op.MoveOp? then Some(regs[i.dest := Wrap(i.imm)])
    else if i.op.NopOp? then Some(regs)
    else
      var value :=
        if i.op.NegOp? || i.op.NotOp? || i.op.BNotOp? then m.unary(i.op, Reg(regs, i.src1))
        else m.binary(i.op, Reg(regs, i.src1), Reg(regs, i.src2));
      if value.None? then None else Some(regs[i.dest := value.value])
  }

  function Run(m: Machine, code: seq<Instr>, regs: Regs): Option<Regs> {
    if code == [] then Some(regs)
    else
      var next := Exec(m, code[0], regs);
      if next.None? then None else Run(m, code[1..], next.value)
  }

  lemma {:induction false} RunAppend(m: Machine, a: seq<Instr>, b: seq<Instr>, regs: Regs)
    ensures Run(m, a + b, regs) == if Run(m, a, regs).None? then None else Run(m, b, Run(m, a, regs).value)
  {
    if a == [] {
      assert a + b == b;
    } else {
      assert (a + b)[1..] == a[1..] + b;
      if Exec(m, a[0], regs).Some? {
        RunAppend(m, a[1..], b, Exec(m, a[0], regs).value);
      }
    }
  }

  lemma RunOne(m: Machine, i: Instr, regs: Regs)
    ensures Run(m, [i], regs) == Exec(m, i, regs)
  {
    assert [i][1..] == [];
  }

  /** `result` has `value` in register `d` and what `regs` has in all registers below; or both are missing. */
  ghost predicate Leaves(regs: Regs, result: Option<Regs>, d: int, value: Option<int>) {
    && (result.None? <==> value.None?)
    && (value.Some? ==> Reg(result.value, d) == value.value && forall r :: r < d ==>
      Reg(result.value, r) == Reg(regs, r))
  }

  /** The machine computes every tree over the operators, into any register, and keeps all registers below. */
  ghost predicate Computes(m: Machine, f: Meaning, ops: Operators) {
    forall a, d, regs :: Over(a, ops) ==> Leaves(regs, Run(m, Gen(a, d), regs), d, Eval(f, a))
  }

  /** Operators make words of words. */
  ghost predicate WordValued(f: Meaning, ops: Operators) {
    && (forall op, a, b :: op in ops.binary && IsWord(a) && IsWord(b) && f.binary(op, a, b).Some? ==>
      IsWord(f.binary(op, a, b).value))
    && (forall op, a :: op in ops.unary && IsWord(a) && f.unary(op, a).Some? ==> IsWord(f.unary(op, a).value))
  }

  /** The instruction of each operator computes it on words; doing nothing leaves the first operand. */
  ghost predicate Implements(m: Machine, f: Meaning, ops: Operators) {
    && (forall op, a, b :: op in ops.binary && IsWord(a) && IsWord(b) ==>
          f.binary(op, a, b) == if BinaryOp(op).NopOp? then Some(a) else m.binary(BinaryOp(op), a, b))
    && (forall op, a :: op in ops.unary && IsWord(a) ==>
          f.unary(op, a) == if UnaryOp(op).NopOp? then Some(a) else m.unary(UnaryOp(op), a))
  }

  lemma {:induction false} EvalIsWord(f: Meaning, ops: Operators, a: Ast)
    requires WordValued(f, ops) && Over(a, ops)
    ensures Eval(f, a).Some? ==> IsWord(Eval(f, a).value)
  {
    hide IsWord;
    match a
    case Literal(_) =>
    case Binary(op, l, r) =>
      EvalIsWord(f, ops, l);
      EvalIsWord(f, ops, r);
      if Eval(f, a).Some? {
        assert Eval(f, a) == f.binary(op, Eval(f, l).value, Eval(f, r).value);
      }
    case Unary(op, e) =>
      EvalIsWord(f, ops, e);
      if Eval(f, a).Some? {
        assert Eval(f, a) == f.unary(op, Eval(f, e).value);
      }
  }

  lemma BinaryOpIsBinary(op: Kind)
    ensures var o := BinaryOp(op); !o.MoveOp? && !o.NegOp? && !o.NotOp? && !o.BNotOp?
  {
  }

  /** One operation on top of code that is right. */
  lemma BinaryLeaves(m: Machine, f: Meaning, ops: Operators, op: Kind, d: int, regs: Regs, regs1: Regs, regs2: Regs,
                     x: int, y: int)
    requires Implements(m, f, ops) && op in ops.binary && IsWord(x) && IsWord(y)
    requires Leaves(regs, Some(regs1), d, Some(x)) && Leaves(regs1, Some(regs2), d + 1, Some(y))
    ensures Leaves(regs, Run(m, [Instr(BinaryOp(op), d, d, d + 1, 0)], regs2), d, f.binary(op, x, y))
  {
    BinaryOpIsBinary(op);
    RunOne(m, Instr(BinaryOp(op), d, d, d + 1, 0), regs2);
    assert Reg(regs2, d) == Reg(regs1, d) == x;
  }

  lemma UnaryLeaves(m: Machine, f: Meaning, ops: Operators, op: Kind, d: int, regs: Regs, regs1: Regs, x: int)
    requires Implements(m, f, ops) && op in ops.unary && IsWord(x)
    requires Leaves(regs, Some(regs1), d, Some(x))
    ensures Leaves(regs, Run(m, [Instr(UnaryOp(op), d, d, -1, 0)], regs1), d, f.unary(op, x))
  {
    RunOne(m, Instr(UnaryOp(op), d, d, -1, 0), regs1);
  }

  /**
   * Compiler correctness: on a machine whose instructions compute the operators, the code faults exactly when the
   * evaluation of the tree does, and otherwise leaves its value in the destination register and every lower register
   * alone.
   */
  lemma {:induction false} GenComputes(m: Machine, f: Meaning, ops: Operators, a: Ast, d: int, regs: Regs)
    requires WordValued(f, ops) && Implements(m, f, ops) && Over(a, ops)
    ensures Leaves(regs, Run(m, Gen(a, d), regs), d, Eval(f, a))
  {
    match a
    case Literal(v) =>
      RunOne(m, Instr(MoveOp, d, -1, -1, v), regs);
    case Binary(op, l, r) =>
      hide Wrap, Exec, Implements, WordValued, BinaryOp;
      var last := [Instr(BinaryOp(op), d, d, d + 1, 0)];
      RunAppend(m, Gen(l, d) + Gen(r, d + 1), last, regs);
      RunAppend(m, Gen(l, d), Gen(r, d + 1), regs);
      GenComputes(m, f, ops, l, d, regs);
      EvalIsWord(f, ops, l);
      EvalIsWord(f, ops, r);
      if Eval(f, l).Some? {
        var regs1 := Run(m, Gen(l, d), regs).value;
        GenComputes(m, f, ops, r, d + 1, regs1);
        if Eval(f, r).Some? {
          BinaryLeaves(m, f, ops, op, d, regs, regs1, Run(m, Gen(r, d + 1), regs1).value, Eval(f, l).value,
            Eval(f, r).value);
        }
      }
    case Unary(op, e) =>
      hide Wrap, Exec, Implements, WordValued, UnaryOp;
      GenComputes(m, f, ops, e, d, regs);
      EvalIsWord(f, ops, e);
      RunAppend(m, Gen(e, d), [Instr(UnaryOp(op), d, d, -1, 0)], regs);
      if Eval(f, e).Some? {
        UnaryLeaves(m, f, ops, op, d, regs, Run(m, Gen(e, d), regs).value, Eval(f, e).value);
      }
  }

  // ----- which operators can be compiled at all -----

  /** Operators that share an instruction mean the same, and those without one leave their first operand. */
  ghost predicate Distinguished(f: Meaning, ops: Operators) {
    && (forall o, q :: o in ops.binary && q in ops.binary && BinaryOp(o) == BinaryOp(q) ==> SameBinary(f, o, q))
    && (forall o :: o in ops.binary && BinaryOp(o).NopOp? ==> KeepsLeft(f, o))
    && (forall o, q :: o in ops.unary && q in ops.unary && UnaryOp(o) == UnaryOp(q) ==> SameUnary(f, o, q))
    && (forall o :: o in ops.unary && UnaryOp(o).NopOp? ==> KeepsOperand(f, o))
  }

  ghost predicate SameBinary(f: Meaning, o: Kind, q: Kind) {
    forall a, b :: IsWord(a) && IsWord(b) ==> f.binary(o, a, b) == f.binary(q, a, b)
  }

  ghost predicate KeepsLeft(f: Meaning, o: Kind) {
    forall a, b :: IsWord(a) && IsWord(b) ==> f.binary(o, a, b) == Some(a)
  }

  ghost predicate SameUnary(f: Meaning, o: Kind, q: Kind) {
    forall a :: IsWord(a) ==> f.unary(o, a) == f.unary(q, a)
  }

  ghost predicate KeepsOperand(f: Meaning, o: Kind) {
    forall a :: IsWord(a) ==> f.unary(o, a) == Some(a)
  }

  /** What some operator compiled to the instruction means. */
  ghost function BinaryMeaning(f: Meaning, ops: Operators, i: Op, a: int, b: int): (value: Option<int>)
    ensures (exists o :: o in ops.binary && BinaryOp(o) == i) ==>
              exists o :: o in ops.binary && BinaryOp(o) == i && value == f.binary(o, a, b)
  {
    if o :| o in ops.binary && BinaryOp(o) == i then f.binary(o, a, b) else None
  }

  ghost function UnaryMeaning(f: Meaning, ops: Operators, i: Op, a: int): (value: Option<int>)
    ensures (exists o :: o in ops.unary && UnaryOp(o) == i) ==>
              exists o :: o in ops.unary && UnaryOp(o) == i && value == f.unary(o, a)
  {
    if o :| o in ops.unary && UnaryOp(o) == i then f.unary(o, a) else None
  }

  /** The machine whose instructions mean what some operator compiled to them means. */
  ghost function MachineFor(f: Meaning, ops: Operators): Machine {
    Machine((i, a, b) => BinaryMeaning(f, ops, i, a, b), (i, a) => UnaryMeaning(f, ops, i, a))
  }

  lemma MachineImplements(f: Meaning, ops: Operators)
    requires Distinguished(f, ops)
    ensures Implements(MachineFor(f, ops), f, ops)
  {
    hide BinaryOp, UnaryOp, IsWord;
    var m := MachineFor(f, ops);
    forall op, a, b | op in ops.binary && IsWord(a) && IsWord(b)
      ensures f.binary(op, a, b) == if BinaryOp(op).NopOp? then Some(a) else m.binary(BinaryOp(op), a, b)
    {
      var i := BinaryOp(op);
      var o :| o in ops.binary && BinaryOp(o) == i && BinaryMeaning(f, ops, i, a, b) == f.binary(o, a, b);
      assert SameBinary(f, o, op);
    }
    forall op, a | op in ops.unary && IsWord(a)
      ensures f.unary(op, a) == if UnaryOp(op).NopOp? then Some(a) else m.unary(UnaryOp(op), a)
    {
      var i := UnaryOp(op);
      var o :| o in ops.unary && UnaryOp(o) == i && UnaryMeaning(f, ops, i, a) == f.unary(o, a);
      assert SameUnary(f, o, op);
    }
  }

  /** What the code of one operation on two literals does. */
  lemma RunBinary(m: Machine, op: Kind, a: int, b: int)
    requires IsWord(a) && IsWord(b)
    ensures var result := Run(m, Gen(Binary(op, Literal(a), Literal(b)), 0), map[]);
      if BinaryOp(op).NopOp? then result.Some? && Reg(result.value, 0) == a
      else if m.binary(BinaryOp(op), a, b).None? then result.None?
      else result.Some? && Reg(result.value, 0) == m.binary(BinaryOp(op), a, b).value
  {
    var x, y, last := Instr(MoveOp, 0, -1, -1, a), Instr(MoveOp, 1, -1, -1, b), Instr(BinaryOp(op), 0, 0, 1, 0);
    BinaryOpIsBinary(op);
    RunAppend(m, [x] + [y], [last], map[]);
    RunAppend(m, [x], [y], map[]);
    RunOne(m, x, map[]);
    RunOne(m, y, map[0 := a]);
    RunOne(m, last, map[0 := a, 1 := b]);
    assert map[0 := a][1 := b] == map[0 := a, 1 := b];
  }

  lemma RunUnary(m: Machine, op: Kind, a: int)
    requires IsWord(a)
    ensures var result := Run(m, Gen(Unary(op, Literal(a)), 0), map[]);
      if UnaryOp(op).NopOp? then result.Some? && Reg(result.value, 0) == a
      else if m.unary(UnaryOp(op), a).None? then result.None?
      else result.Some? && Reg(result.value, 0) == m.unary(UnaryOp(op), a).value
  {
    var x, last := Instr(MoveOp, 0, -1, -1, a), Instr(UnaryOp(op), 0, 0, -1, 0);
    RunAppend(m, [x], [last], map[]);
    RunOne(m, x, map[]);
    RunOne(m, last, map[0 := a]);
  }

  lemma ComputesTree(m: Machine, f: Meaning, ops: Operators, a: Ast, d: int, regs: Regs)
    requires Computes(m, f, ops) && Over(a, ops)
    ensures Leaves(regs, Run(m, Gen(a, d), regs), d, Eval(f, a))
  {
  }

  lemma ComputingImplements(m: Machine, f: Meaning, ops: Operators)
    requires Computes(m, f, ops)
    ensures Implements(m, f, ops)
  {
    forall op, a, b | op in ops.binary && IsWord(a) && IsWord(b)
      ensures f.binary(op, a, b) == if BinaryOp(op).NopOp? then Some(a) else m.binary(BinaryOp(op), a, b)
    {
      hide BinaryOp, Run, Gen, IsWord;
      var tree := Binary(op, Literal(a), Literal(b));
      RunBinary(m, op, a, b);
      ComputesTree(m, f, ops, tree, 0, map[]);
      assert Eval(f, Literal(a)) == Some(a) && Eval(f, Literal(b)) == Some(b);
    }
    forall op, a | op in ops.unary && IsWord(a)
      ensures f.unary(op, a) == if UnaryOp(op).NopOp? then Some(a) else m.unary(UnaryOp(op), a)
    {
      hide UnaryOp, Run, Gen, IsWord;
      var tree := Unary(op, Literal(a));
      RunUnary(m, op, a);
      ComputesTree(m, f, ops, tree, 0, map[]);
      assert Eval(f, Literal(a)) == Some(a);
    }
  }

  /**
   * Some machine computes all trees over some operators, whatever these mean, exactly when the generator tells apart
   * those of different meaning and has an instruction for each that does anything.
   */
  lemma CompilableIff(f: Meaning, ops: Operators)
    requires WordValued(f, ops)
    ensures (exists m :: Computes(m, f, ops)) <==> Distinguished(f, ops)
  {
    hide BinaryOp, UnaryOp, Run, Gen, IsWord, WordValued;
    if Distinguished(f, ops) {
      var m := MachineFor(f, ops);
      MachineImplements(f, ops);
      forall a, d, regs | Over(a, ops)
        ensures Leaves(regs, Run(m, Gen(a, d), regs), d, Eval(f, a))
      {
        GenComputes(m, f, ops, a, d, regs);
      }
      assert Computes(m, f, ops);
    }
    if m :| Computes(m, f, ops) {
      ComputingImplements(m, f, ops);
    }
  }

  // ----- the operators of C -----

  predicate IsArithmetic(op: Kind) {
    op.Plus? || op.Minus? || op.Mul? || op.Div? || op.Mod? || op.Shl? || op.Shr?
  }

  predicate IsComparison(op: Kind) {
    op.Eq? || op.Ne? || op.Lt? || op.Gt? || op.Le? || op.Ge?
  }

  predicate IsBitwise(op: Kind) {
    op.BAnd? || op.BOr? || op.BXor?
  }

  predicate Holds(op: Kind, a: int, b: int) {
    match op
    case Eq => a == b
    case Ne => a != b
    case Lt => a < b
    case Gt => a > b
    case Le => a <= b
    case _ => a >= b
  }

  function Bits(a: int): bv64 { (a % 0x1_0000_0000_0000_0000) as bv64 }

  function Bitwise(op: Kind, a: int, b: int): int {
    Wrap((if op.BAnd? then Bits(a) & Bits(b) else if op.BOr? then Bits(a) | Bits(b) else Bits(a) ^ Bits(b)) as int)
  }

  /** The binary operators that always evaluate both operands, on 64-bit words. */
  function CBinary(op: Kind, a: int, b: int): Option<int> {
    match op
    case Plus => Some(Wrap(a + b))
    case Minus => Some(Wrap(a - b))
    case Mul => Some(Wrap(a * b))
    case Div => Divide(a, b)
    case Mod => Remainder(a, b)
    case Shl => Some(ShiftLeft(a, b))
    case Shr => Some(ShiftRight(a, b))
    case BAnd | BOr | BXor => Some(Bitwise(op, a, b))
    case _ => if IsComparison(op) then Some(if Holds(op, a, b) then 1 else 0) else None
  }

  function CUnary(op: Kind, a: int): Option<int> {
    match op
    case Minus => Some(Wrap(-a))
    case Not => Some(if a == 0 then 1 else 0)
    case BNot => Some(Wrap(-a - 1))
    case Inc => Some(Wrap(a + 1))
    case Dec => Some(Wrap(a - 1))
    case _ => None
  }

  function C(): Meaning { Meaning(CBinary, CUnary) }

  /** Operators of the levels from "*" to "|", and the prefix operators that stay in the tree. */
  ghost predicate OfC(ops: Operators) {
    && (forall op :: op in ops.binary ==> IsArithmetic(op) || IsComparison(op) || IsBitwise(op))
    && (forall op :: op in ops.unary ==> op.Minus? || op.Not? || op.BNot? || op.Inc? || op.Dec?)
  }

  predicate IsCounting(op: Kind) {
    op.Inc? || op.Dec?
  }

  ghost predicate OneComparison(ops: Operators) {
    forall o, q :: o in ops.binary && q in ops.binary && IsComparison(o) && IsComparison(q) ==> o == q
  }

  /** At most one comparison, nothing bitwise, no increment or decrement. */
  ghost predicate Compilable(ops: Operators) {
    && OneComparison(ops)
    && (forall op :: op in ops.binary ==> !IsBitwise(op))
    && (forall op :: op in ops.unary ==> !IsCounting(op))
  }

  /** Which operators become the same instruction. */
  lemma SameInstruction(o: Kind, q: Kind)
    ensures BinaryOp(o) == BinaryOp(q) <==>
      o == q || (IsComparison(o) && IsComparison(q)) || (BinaryOp(o).NopOp? && BinaryOp(q).NopOp?)
  {
  }

  /** Which operators become no instruction: of C's binary ones those that are bitwise or assign. */
  lemma NoInstruction(op: Kind)
    ensures IsArithmetic(op) || IsComparison(op) || op.And? || op.Or? ==> !BinaryOp(op).NopOp?
    ensures IsBitwise(op) || IsAssignment(op) ==> BinaryOp(op).NopOp?
  {
  }

  lemma CIsWordValued(ops: Operators)
    ensures WordValued(C(), ops)
  {
    forall op, a, b | IsWord(a) && IsWord(b) && CBinary(op, a, b).Some?
      ensures IsWord(CBinary(op, a, b).value)
    {
      CBinaryIsWord(op, a, b);
    }
    hide Wrap;
  }

  lemma CBinaryIsWord(op: Kind, a: int, b: int)
    requires IsWord(a) && IsWord(b) && CBinary(op, a, b).Some?
    ensures IsWord(CBinary(op, a, b).value)
  {
    hide Wrap, Pow2, Bits, Holds, Quotient;
  }

  lemma HoldsDiffer(o: Kind, q: Kind) returns (a: int, b: int)
    requires IsComparison(o) && IsComparison(q) && o != q
    ensures IsWord(a) && IsWord(b) && Holds(o, a, b) != Holds(q, a, b)
  {
    a, b := 1, 1;
    if Holds(o, 1, 2) != Holds(q, 1, 2) {
      b := 2;
    } else if Holds(o, 2, 1) != Holds(q, 2, 1) {
      a := 2;
    }
  }

  lemma ComparisonsDiffer(o: Kind, q: Kind)
    requires IsComparison(o) && IsComparison(q) && o != q
    ensures !SameBinary(C(), o, q)
  {
    hide Holds, IsWord;
    var a, b := HoldsDiffer(o, q);
    assert C().binary(o, a, b) != C().binary(q, a, b);
  }

  lemma BitsOf01()
    ensures Bits(0) == 0 && Bits(1) == 1
  {
    assert 0 % 0x1_0000_0000_0000_0000 == 0 && 1 % 0x1_0000_0000_0000_0000 == 1;
  }

  lemma BitwiseOf01(op: Kind)
    requires IsBitwise(op)
    ensures if op.BAnd? then Bitwise(op, 1, 0) != 1 else Bitwise(op, 0, 1) != 0
  {
    BitsOf01();
    hide Bits;
  }

  lemma BitwiseChanges(op: Kind)
    requires IsBitwise(op)
    ensures !KeepsLeft(C(), op)
  {
    hide Bitwise, Wrap, Divide, Remainder, ShiftLeft, ShiftRight, Holds;
    BitwiseOf01(op);
    assert C().binary(op, 1, 0) != Some(1) || C().binary(op, 0, 1) != Some(0);
  }

  lemma CountingChanges(op: Kind)
    requires op.Inc? || op.Dec?
    ensures !KeepsOperand(C(), op)
  {
    assert C().unary(op, 0) != Some(0);
  }

  /** Two operators that share an instruction: the same one, or two comparisons, or two bitwise ones. */
  lemma BinaryDistinguished(o: Kind, q: Kind)
    requires IsArithmetic(o) || IsComparison(o) || IsBitwise(o)
    requires IsArithmetic(q) || IsComparison(q) || IsBitwise(q)
    ensures BinaryOp(o).NopOp? <==> IsBitwise(o)
    ensures BinaryOp(o) == BinaryOp(q) ==> o == q || (IsComparison(o) && IsComparison(q)) || IsBitwise(o)
    ensures IsComparison(o) && IsComparison(q) ==> BinaryOp(o) == BinaryOp(q) && (o == q || !SameBinary(C(), o, q))
    ensures IsBitwise(o) ==> !KeepsLeft(C(), o)
  {
    SameInstruction(o, q);
    NoInstruction(o);
    hide C, BinaryOp;
    if IsComparison(o) && IsComparison(q) && o != q {
      ComparisonsDiffer(o, q);
    }
    if IsBitwise(o) {
      BitwiseChanges(o);
    }
  }

  lemma UnaryDistinguished(o: Kind, q: Kind)
    requires o.Minus? || o.Not? || o.BNot? || o.Inc? || o.Dec?
    requires q.Minus? || q.Not? || q.BNot? || q.Inc? || q.Dec?
    ensures UnaryOp(o).NopOp? <==> o.Inc? || o.Dec?
    ensures UnaryOp(o) == UnaryOp(q) ==> o == q || UnaryOp(o).NopOp?
    ensures o.Inc? || o.Dec? ==> !KeepsOperand(C(), o)
  {
    if o.Inc? || o.Dec? {
      CountingChanges(o);
    }
  }

  lemma CompilableIsDistinguished(ops: Operators)
    requires OfC(ops) && Compilable(ops)
    ensures Distinguished(C(), ops)
  {
    hide BinaryOp, UnaryOp, C, IsComparison, IsBitwise, IsArithmetic, IsWord;
    forall o, q | o in ops.binary && q in ops.binary
      ensures !BinaryOp(o).NopOp? && (BinaryOp(o) == BinaryOp(q) ==> o == q)
    {
      BinaryDistinguished(o, q);
    }
    forall o, q | o in ops.unary && q in ops.unary
      ensures !UnaryOp(o).NopOp? && (UnaryOp(o) == UnaryOp(q) ==> o == q)
    {
      UnaryDistinguished(o, q);
    }
  }

  lemma TwoComparisons(ops: Operators, o: Kind, q: Kind)
    requires OfC(ops) && Distinguished(C(), ops) && o in ops.binary && q in ops.binary && IsComparison(o)
    requires IsComparison(q)
    ensures o == q
  {
    hide BinaryOp, UnaryOp, C, IsComparison, IsBitwise, IsArithmetic, SameBinary, SameUnary, KeepsLeft, KeepsOperand;
    BinaryDistinguished(o, q);
  }

  lemma NotBitwise(ops: Operators, o: Kind)
    requires OfC(ops) && Distinguished(C(), ops) && o in ops.binary
    ensures !IsBitwise(o)
  {
    hide BinaryOp, UnaryOp, C, IsComparison, IsBitwise, IsArithmetic, SameBinary, SameUnary, KeepsLeft, KeepsOperand;
    BinaryDistinguished(o, o);
  }

  lemma NotCounting(ops: Operators, o: Kind)
    requires OfC(ops) && Distinguished(C(), ops) && o in ops.unary
    ensures !IsCounting(o)
  {
    hide BinaryOp, UnaryOp, C, IsComparison, IsBitwise, IsArithmetic, SameBinary, SameUnary, KeepsLeft, KeepsOperand;
    UnaryDistinguished(o, o);
  }

  lemma DistinguishedHasOne(ops: Operators)
    requires OfC(ops) && Distinguished(C(), ops)
    ensures OneComparison(ops)
  {
    hide Distinguished, OfC, C, IsComparison;
    forall o, q | o in ops.binary && q in ops.binary && IsComparison(o) && IsComparison(q)
      ensures o == q
    {
      TwoComparisons(ops, o, q);
    }
  }

  lemma DistinguishedIsCompilable(ops: Operators)
    requires OfC(ops) && Distinguished(C(), ops)
    ensures Compilable(ops)
  {
    hide Distinguished, OfC, C, IsComparison, IsBitwise, IsCounting, OneComparison;
    DistinguishedHasOne(ops);
    forall o | o in ops.binary
      ensures !IsBitwise(o)
    {
      NotBitwise(ops, o);
    }
    forall o | o in ops.unary
      ensures !IsCounting(o)
    {
      NotCounting(ops, o);
    }
  }

  /** Which sets of C operators the generator can serve, on any machine whatever. */
  lemma CompilableInC(ops: Operators)
    requires OfC(ops)
    ensures (exists m :: Computes(m, C(), ops)) <==> Compilable(ops)
  {
    hide *;
    CIsWordValued(ops);
    CompilableIff(C(), ops);
    if Compilable(ops) {
      CompilableIsDistinguished(ops);
    }
    if Distinguished(C(), ops) {
      DistinguishedIsCompilable(ops);
    }
  }

  // ----- the machine there is -----

  /** What the processor's instructions compute; none where they fault, and for those that compute no number. */
  function Apply(op: Op, a: int, b: int): Option<int> {
    match op
    case AddOp => Some(Wrap(a + b))
    case SubOp => Some(Wrap(a - b))
    case MulOp => Some(Wrap(a * b))
    case DivOp => Divide(a, b)
    case ModOp => Remainder(a, b)
    case ShlOp => Some(ShiftLeft(a, b))
    case ShrOp => Some(ShiftRight(a, b))
    case _ => None
  }

  function ApplyUnary(op: Op, a: int): Option<int> {
    match op
    case NegOp => Some(Wrap(-a))
    case BNotOp => Some(Wrap(-a - 1))
    case _ => None
  }

  function Processor(): Machine { Machine(Apply, ApplyUnary) }

  /** The operators with an instruction of the processor. */
  ghost function Arithmetic(): Operators {
    Operators(iset op: Kind | IsArithmetic(op), iset op: Kind | op.Minus? || op.BNot?)
  }

  lemma ProcessorBinary(op: Kind, a: int, b: int)
    requires IsArithmetic(op)
    ensures !BinaryOp(op).NopOp? && Apply(BinaryOp(op), a, b) == CBinary(op, a, b)
  {
    hide Wrap, Divide, Remainder, ShiftLeft, ShiftRight;
  }

  lemma ProcessorImplements()
    ensures Implements(Processor(), C(), Arithmetic())
  {
    hide Apply, CBinary, BinaryOp, Wrap, IsArithmetic;
    forall op, a, b | IsArithmetic(op)
      ensures !BinaryOp(op).NopOp? && C().binary(op, a, b) == Processor().binary(BinaryOp(op), a, b)
    {
      ProcessorBinary(op, a, b);
    }
  }

  /**
   * On the processor the code of an arithmetic expression faults exactly when its evaluation traps, or leaves its
   * value.
   */
  lemma GenCorrect(a: Ast, d: int, regs: Regs)
    requires Over(a, Arithmetic())
    ensures Leaves(regs, Run(Processor(), Gen(a, d), regs), d, Eval(C(), a))
  {
    hide Run, Gen, Eval, Over, Implements, WordValued;
    CIsWordValued(Arithmetic());
    ProcessorImplements();
    GenComputes(Processor(), C(), Arithmetic(), a, d, regs);
  }

  /** Where the generator has no instruction the left operand is left: "a & b" computes a. */
  lemma NothingDone(op: Kind, l: Ast, r: Ast, d: int, regs: Regs)
    requires Over(l, Arithmetic()) && Over(r, Arithmetic()) && BinaryOp(op).NopOp?
    ensures Leaves(regs, Run(Processor(), Gen(Binary(op, l, r), d), regs), d,
                   if Eval(C(), r).None? then None else Eval(C(), l))
  {
    hide Eval, Over, C, Arithmetic, BinaryOp, Processor;
    var nop := Instr(BinaryOp(op), d, d, d + 1, 0);
    RunAppend(Processor(), Gen(l, d) + Gen(r, d + 1), [nop], regs);
    RunAppend(Processor(), Gen(l, d), Gen(r, d + 1), regs);
    GenCorrect(l, d, regs);
    if Eval(C(), l).Some? {
      var regs1 := Run(Processor(), Gen(l, d), regs).value;
      GenCorrect(r, d + 1, regs1);
      if Eval(C(), r).Some? {
        RunOne(Processor(), nop, Run(Processor(), Gen(r, d + 1), regs1).value);
      }
    }
  }

  /** From tokens to a value: whatever arithmetic expression is written, parsed, compiled and run, its value results. */
  lemma CompiledExpression(toks: seq<Token>, c: Cst, d: int, regs: Regs)
    requires P.Stream(toks) && Grammatical(c) && Over(Tree(c), Arithmetic())
    requires Inverse.At(toks, 0, Tokens(c)) && !Inverse.Continues(toks[|Tokens(c)|].kind, EXPR)
    ensures Leaves(regs, Run(Processor(), Gen(P.Expr(toks, 0).0, d), regs), d, Eval(C(), Tree(c)))
  {
    hide Run, Gen, Eval, Over, Leaves;
    Inverse.Parses(toks, 0, c, EXPR);
    GenCorrect(Tree(c), d, regs);
  }
}
