/** The control-flow graph that the IR builder produces, and the machine that runs it.
    A block is the list of instructions appended to it; a block may hold more than one
    terminator, and then only the first can be reached. */
module Graph {
  import opened Ast

  // ---------- Instructions ----------

  datatype Operand = Const(v: Value) | Reg(r: nat)

  datatype MachineOp =
    | Add | Sub | Mul | SDiv | SRem | AndBits | OrBits
    | ICmpEQ | ICmpNE | ICmpSLT | ICmpSLE | ICmpSGT | ICmpSGE

  datatype Instr =
    | BinOp(dst: nat, mop: MachineOp, a: Operand, b: Operand)
    | Load(dst: nat, slot: string)
    | Store(v: Operand, slot: string)
    | Phi(dst: nat, thenValue: Operand, thenFrom: nat, elseValue: Operand, elseFrom: nat)
    | Br(target: nat)
    | CondBr(test: Operand, thenTarget: nat, elseTarget: nat)

  type Blocks = seq<seq<Instr>>

  predicate IsTerminator(i: Instr) {
    i.Br? || i.CondBr?
  }

  predicate HasTerminator(block: seq<Instr>) {
    exists k :: 0 <= k < |block| && IsTerminator(block[k])
  }

  // ---------- The machine ----------

  datatype Position = Position(block: nat, pc: nat)

  /** prev is the block control came from, which the phi nodes consult. */
  datatype Config = Config(at: Position, prev: nat, regs: map<nat, Value>, mem: Memory)

  function Read(regs: map<nat, Value>, o: Operand): Option<Value> {
    match o
    case Const(v) => Some(v)
    case Reg(r) => if r in regs then Some(regs[r]) else None
  }

  /** What an instruction computes; None where its result is undefined. */
  function Compute(mop: MachineOp, x: Value, y: Value): Option<Value> {
    match mop
    case Add => if x.IntValue? && y.IntValue? then Some(IntValue(Wrap(x.n + y.n))) else None
    case Sub => if x.IntValue? && y.IntValue? then Some(IntValue(Wrap(x.n - y.n))) else None
    case Mul => if x.IntValue? && y.IntValue? then Some(IntValue(Wrap(x.n * y.n))) else None
    case SDiv =>
      if x.IntValue? && y.IntValue? && !DivisionFaults(x.n, y.n)
      then Some(IntValue(Wrap(TruncDiv(x.n, y.n)))) else None
    case SRem =>
      if x.IntValue? && y.IntValue? && !DivisionFaults(x.n, y.n)
      then Some(IntValue(Wrap(TruncMod(x.n, y.n)))) else None
    case AndBits => if x.BoolValue? && y.BoolValue? then Some(BoolValue(x.b && y.b)) else None
    case OrBits => if x.BoolValue? && y.BoolValue? then Some(BoolValue(x.b || y.b)) else None
    case ICmpEQ => if TypeOfValue(x) == TypeOfValue(y) then Some(BoolValue(x == y)) else None
    case ICmpNE => if TypeOfValue(x) == TypeOfValue(y) then Some(BoolValue(x != y)) else None
    case ICmpSLT => if x.IntValue? && y.IntValue? then Some(BoolValue(x.n < y.n)) else None
    case ICmpSLE => if x.IntValue? && y.IntValue? then Some(BoolValue(x.n <= y.n)) else None
    case ICmpSGT => if x.IntValue? && y.IntValue? then Some(BoolValue(x.n > y.n)) else None
    case ICmpSGE => if x.IntValue? && y.IntValue? then Some(BoolValue(x.n >= y.n)) else None
  }

  function Advance(c: Config): Config {
    c.(at := Position(c.at.block, c.at.pc + 1))
  }

  function Define(c: Config, dst: nat, v: Value): Config {
    Advance(c).(regs := c.regs[dst := v])
  }

  function Jump(c: Config, target: nat): Config {
    c.(at := Position(target, 0), prev := c.at.block)
  }

  /** One step; None when the machine is stuck: past the end of a block, or on an undefined result. */
  function StepOf(g: Blocks, c: Config): Option<Config> {
    if c.at.block < |g| && c.at.pc < |g[c.at.block]| then
      Execute(g[c.at.block][c.at.pc], c)
    else None
  }

  function Execute(i: Instr, c: Config): Option<Config> {
    match i
    case BinOp(dst, mop, a, b) => (
      match (Read(c.regs, a), Read(c.regs, b))
      case (Some(x), Some(y)) => (
        match Compute(mop, x, y)
        case None => None
        case Some(v) => Some(Define(c, dst, v)))
      case _ => None)
    case Load(dst, slot) => if slot in c.mem then Some(Define(c, dst, c.mem[slot])) else None
    case Store(o, slot) => (
      match Read(c.regs, o)
      case None => None
      case Some(v) =>
        if slot in c.mem then Some(Advance(c).(mem := c.mem[slot := v])) else None)
    case Phi(dst, tv, tb, ev, eb) =>
      if c.prev == tb then
        match Read(c.regs, tv) case None => None case Some(v) => Some(Define(c, dst, v))
      else if c.prev == eb then
        match Read(c.regs, ev) case None => None case Some(v) => Some(Define(c, dst, v))
      else None
    case Br(target) => Some(Jump(c, target))
    case CondBr(o, t, e) => (
      match Read(c.regs, o)
      case Some(BoolValue(b)) => Some(Jump(c, if b then t else e))
      case _ => None)
  }

  // ---------- Runs that stop at a set of exits ----------

  /** The configuration after n steps, none of which starts on an exit; None if there is none. */
  function Run(g: Blocks, exits: set<Position>, c: Config, n: nat): Option<Config>
    decreases n
  {
    if n == 0 then Some(c)
    else if c.at in exits then None
    else
      match StepOf(g, c)
      case None => None
      case Some(c1) => Run(g, exits, c1, n - 1)
  }

  /** The machine has stopped with an undefined result. */
  predicate Stuck(g: Blocks, exits: set<Position>, c: Config) {
    c.at !in exits && StepOf(g, c) == None
  }

  lemma {:induction false} RunsCompose(g: Blocks, exits: set<Position>, c: Config, n: nat, m: nat)
    requires Run(g, exits, c, n).Some?
    ensures Run(g, exits, c, n + m) == Run(g, exits, Run(g, exits, c, n).value, m)
    decreases n
  {
    if n > 0 {
      RunsCompose(g, exits, StepOf(g, c).value, n - 1, m);
    }
  }

  lemma {:induction false} RunsArePrefixClosed(g: Blocks, exits: set<Position>, c: Config, n: nat, m: nat)
    requires n <= m
    requires Run(g, exits, c, m).Some?
    ensures Run(g, exits, c, n).Some?
    decreases n
  {
    if n > 0 {
      RunsArePrefixClosed(g, exits, StepOf(g, c).value, n - 1, m - 1);
    }
  }

  /** The machine is deterministic: it can stop in one way only. */
  lemma {:induction false} RunsStopOnce(g: Blocks, exits: set<Position>, c: Config, n: nat, m: nat)
    requires Run(g, exits, c, n).Some? && Run(g, exits, c, m).Some?
    requires Run(g, exits, c, n).value.at in exits || Stuck(g, exits, Run(g, exits, c, n).value)
    ensures m <= n
    decreases n
  {
    if m > n {
      RunsCompose(g, exits, c, n, m - n);
    }
  }

  // ---------- Terminators ----------

  /** A terminator is what leads to the head of a block; behind any other instruction the machine goes
      on in the same block, one further. */
  lemma TerminatorsLeave(i: Instr, c: Config, d: Config)
    requires Execute(i, c) == Some(d)
    ensures IsTerminator(i) ==> d.at.pc == 0 && d.prev == c.at.block && d.regs == c.regs && d.mem == c.mem
    ensures !IsTerminator(i) ==> d.at == Position(c.at.block, c.at.pc + 1) && d.prev == c.prev
  {
  }
}
