/** The syntax tree that the parser builds and the LLVM emitters lower, and the
    meaning of its expressions and statements over 32-bit integers and booleans. */
module Ast {

  datatype Option<+T> = None | Some(value: T)

  // ---------- Syntax ----------

  /** The range of the literals and registers of type int. */
  type i32 = n: int | -0x8000_0000 <= n < 0x8000_0000

  datatype Literal = Integer(n: i32) | Boolean(b: bool) | Identifier(name: string)

  datatype UnaryOp = Negate | Invert

  datatype Opcode =
    | Addition | Subtraction | Multiplication | Division | Modulo
    | CompareEqual | CompareNotEqual | CompareLess | CompareLessEqual
    | CompareGreater | CompareGreaterEqual
    | And | Or
    | VarAssign | VarAdditionAssign | VarSubtractionAssign
    | VarMultiplicationAssign | VarDivisionAssign | VarModuloAssign

  datatype Step = Increment | Decrement

  /** Expression nodes. Missing is the null pointer that an erroneous parse leaves behind. */
  datatype Expr =
    | Missing
    | Atomic(literal: Literal)
    | Unary(unaryOp: UnaryOp, child: Expr)
    | Binary(opcode: Opcode, left: Expr, right: Expr)
    | Ternary(condition: Expr, thenPath: Expr, elsePath: Expr)
    | Grouping(inner: Expr)
    | Prefix(step: Step, name: string)
    | Postfix(step: Step, name: string)

  datatype Stmt =
    | Expression(expr: Expr)
    | If(cond: Expr, thenBranch: Stmt, elseBranch: Option<Stmt>)
    | While(cond: Expr, body: Stmt)
    | For(pre: Option<Expr>, test: Option<Expr>, post: Option<Expr>, body: Stmt)
    | Break
    | Continue
    | Block(nodes: seq<Stmt>)

  predicate IsAssignment(op: Opcode) {
    op in {VarAssign, VarAdditionAssign, VarSubtractionAssign,
           VarMultiplicationAssign, VarDivisionAssign, VarModuloAssign}
  }

  /** The operation a compound assignment performs before it stores. */
  function CompoundOp(op: Opcode): Option<Opcode> {
    match op
    case VarAdditionAssign => Some(Addition)
    case VarSubtractionAssign => Some(Subtraction)
    case VarMultiplicationAssign => Some(Multiplication)
    case VarDivisionAssign => Some(Division)
    case VarModuloAssign => Some(Modulo)
    case _ => None
  }

  // ---------- Values and arithmetic ----------

  datatype Type = Int | Bool
  datatype Value = IntValue(n: i32) | BoolValue(b: bool)
  type Memory = map<string, Value>
  type Env = map<string, Type>

  function TypeOfValue(v: Value): Type {
    if v.IntValue? then Int else Bool
  }

  /** Two's complement wrap-around to 32 bits. */
  function Wrap(n: int): i32 {
    (n + 0x8000_0000) % 0x1_0000_0000 - 0x8000_0000
  }

  /** Division that truncates toward zero, and the remainder that goes with it. */
  function TruncDiv(a: int, b: int): int
    requires b != 0
  {
    if a >= 0 then a / b else -((-a) / b)
  }

  function TruncMod(a: int, b: int): int
    requires b != 0
  {
    a - b * TruncDiv(a, b)
  }

  /** The divisions whose result is undefined: by zero, and the one quotient that overflows. */
  predicate DivisionFaults(a: int, b: int) {
    b == 0 || (a == -0x8000_0000 && b == -1)
  }

  /** The meaning of an infix operator; None where it has none. */
  function Apply(op: Opcode, x: Value, y: Value): Option<Value> {
    match (x, y)
    case (IntValue(a), IntValue(b)) => (
      match op
      case Addition => Some(IntValue(Wrap(a + b)))
      case Subtraction => Some(IntValue(Wrap(a - b)))
      case Multiplication => Some(IntValue(Wrap(a * b)))
      case Division => if DivisionFaults(a, b) then None else Some(IntValue(Wrap(TruncDiv(a, b))))
      case Modulo => if DivisionFaults(a, b) then None else Some(IntValue(Wrap(TruncMod(a, b))))
      case CompareEqual => Some(BoolValue(a == b))
      case CompareNotEqual => Some(BoolValue(a != b))
      case CompareLess => Some(BoolValue(a < b))
      case CompareLessEqual => Some(BoolValue(a <= b))
      case CompareGreater => Some(BoolValue(a > b))
      case CompareGreaterEqual => Some(BoolValue(a >= b))
      case _ => None)
    case (BoolValue(a), BoolValue(b)) => (
      match op
      case CompareEqual => Some(BoolValue(a == b))
      case CompareNotEqual => Some(BoolValue(a != b))
      case And => Some(BoolValue(a && b))
      case Or => Some(BoolValue(a || b))
      case _ => None)
    case _ => None
  }

  function StepValue(step: Step, v: Value): Option<Value> {
    match v
    case IntValue(n) => Some(IntValue(Wrap(if step == Increment then n + 1 else n - 1)))
    case BoolValue(_) => None
  }

  // ---------- Meaning of expressions ----------

  /** Intended is what the node kinds are documented to mean: a ternary evaluates one arm and
      `!` negates. AsEmitted is the order of effects in the generated code: both arms of a
      ternary run before the choice, and `!` compares its operand with false for inequality. */
  datatype Mode = Intended | AsEmitted

  type Evaluated = Option<(Value, Memory)>

  function Assigned(m: Memory, x: string, v: Value): Evaluated {
    if x in m then Some((v, m[x := v])) else None
  }

  function Eval(mode: Mode, e: Expr, m: Memory): Evaluated {
    match e
    case Missing => None
    case Atomic(Integer(n)) => Some((IntValue(n), m))
    case Atomic(Boolean(b)) => Some((BoolValue(b), m))
    case Atomic(Identifier(x)) => if x in m then Some((m[x], m)) else None
    case Unary(op, c) => (
      match Eval(mode, c, m)
      case None => None
      case Some((v, m1)) =>
        match (op, v)
        case (Negate, IntValue(n)) => Some((IntValue(Wrap(0 - n)), m1))
        case (Invert, BoolValue(b)) =>
          Some((BoolValue(if mode == Intended then !b else b), m1))
        case _ => None)
    case Binary(op, l, r) =>
      if IsAssignment(op) then
        if l.Atomic? && l.literal.Identifier? then
          match Eval(mode, r, m)
          case None => None
          case Some((v, m1)) =>
            match CompoundOp(op)
            case None => Assigned(m1, l.literal.name, v)
            case Some(arith) =>
              // the target is read after the right side has been evaluated
              if l.literal.name in m1 then
                match Apply(arith, m1[l.literal.name], v)
                case None => None
                case Some(w) => Assigned(m1, l.literal.name, w)
              else None
        else None
      else (
        match Eval(mode, l, m)
        case None => None
        case Some((x, m1)) =>
          match Eval(mode, r, m1)
          case None => None
          case Some((y, m2)) =>
            match Apply(op, x, y)
            case None => None
            case Some(v) => Some((v, m2)))
    case Ternary(c, t, f) => (
      match Eval(mode, c, m)
      case Some((BoolValue(b), m1)) =>
        if mode == Intended then
          Eval(mode, if b then t else f, m1)
        else (
          match Eval(mode, t, m1)
          case None => None
          case Some((x, m2)) =>
            match Eval(mode, f, m2)
            case None => None
            case Some((y, m3)) => Some((if b then x else y, m3)))
      case _ => None)
    case Grouping(c) => Eval(mode, c, m)
    case Prefix(step, x) =>
      if x in m then
        match StepValue(step, m[x])
        case None => None
        case Some(v) => Some((v, m[x := v]))
      else None
    case Postfix(step, x) =>
      if x in m then
        match StepValue(step, m[x])
        case None => None
        case Some(v) => Some((m[x], m[x := v]))
      else None
  }

  // ---------- Static types ----------

  /** The type of an expression whose variables are declared in env; None if ill-typed. */
  function TypeOf(env: Env, e: Expr): Option<Type> {
    match e
    case Missing => None
    case Atomic(Integer(_)) => Some(Int)
    case Atomic(Boolean(_)) => Some(Bool)
    case Atomic(Identifier(x)) => if x in env then Some(env[x]) else None
    case Unary(op, c) =>
      var want := if op == Negate then Int else Bool;
      if TypeOf(env, c) == Some(want) then Some(want) else None
    case Binary(op, l, r) =>
      if IsAssignment(op) then
        if l.Atomic? && l.literal.Identifier? && l.literal.name in env
           && TypeOf(env, r) == Some(env[l.literal.name])
           && (op == VarAssign || env[l.literal.name] == Int)
        then Some(env[l.literal.name]) else None
      else
        BinaryType(op, TypeOf(env, l), TypeOf(env, r))
    case Ternary(c, t, f) =>
      if TypeOf(env, c) == Some(Bool) && TypeOf(env, t) == TypeOf(env, f)
      then TypeOf(env, t) else None
    case Grouping(c) => TypeOf(env, c)
    case Prefix(_, x) => if x in env && env[x] == Int then Some(Int) else None
    case Postfix(_, x) => if x in env && env[x] == Int then Some(Int) else None
  }

  function BinaryType(op: Opcode, l: Option<Type>, r: Option<Type>): Option<Type> {
    match op
    case Addition | Subtraction | Multiplication | Division | Modulo =>
      if l == r == Some(Int) then Some(Int) else None
    case CompareLess | CompareLessEqual | CompareGreater | CompareGreaterEqual =>
      if l == r == Some(Int) then Some(Bool) else None
    case CompareEqual | CompareNotEqual =>
      if l.Some? && l == r then Some(Bool) else None
    case And | Or =>
      if l == r == Some(Bool) then Some(Bool) else None
    case _ => None
  }

  /** Every declared variable holds a value of its declared type. */
  ghost predicate MemoryTyped(env: Env, m: Memory) {
    forall x :: x in env ==> x in m && TypeOfValue(m[x]) == env[x]
  }

  lemma ApplyIsTyped(op: Opcode, x: Value, y: Value)
    requires Apply(op, x, y).Some?
    ensures BinaryType(op, Some(TypeOfValue(x)), Some(TypeOfValue(y))) == Some(TypeOfValue(Apply(op, x, y).value))
  {
    hide Wrap, TruncDiv, TruncMod;
  }

  lemma AssignedIsTyped(env: Env, m: Memory, x: string, v: Value)
    requires MemoryTyped(env, m) && x in env && TypeOfValue(v) == env[x]
    ensures MemoryTyped(env, m[x := v])
  {
  }

  /** Evaluation keeps memory well typed and yields a value of the static type. */
  lemma {:induction false} EvaluationIsTyped(mode: Mode, env: Env, e: Expr, m: Memory)
    requires TypeOf(env, e).Some?
    requires MemoryTyped(env, m)
    ensures Eval(mode, e, m).Some? ==>
              TypeOfValue(Eval(mode, e, m).value.0) == TypeOf(env, e).value &&
              MemoryTyped(env, Eval(mode, e, m).value.1)
    decreases e, 1
  {
    hide Apply, Wrap;
    match e
    case Missing =>
    case Atomic(_) =>
    case Unary(_, c) => EvaluationIsTyped(mode, env, c, m);
    case Binary(op, l, r) =>
      if IsAssignment(op) {
        EvaluationIsTyped(mode, env, r, m);
        var out := Eval(mode, e, m);
        if out.Some? {
          AssignmentIsTyped(mode, env, e, m);
        }
      } else {
        InfixIsTyped(mode, env, op, l, r, m);
      }
    case Ternary(c, t, f) => TernaryIsTyped(mode, env, c, t, f, m);
    case Grouping(c) => EvaluationIsTyped(mode, env, c, m);
    case Prefix(_, _) =>
    case Postfix(_, _) =>
  }

  /** What the lemma above says of one expression. */
  ghost predicate IsTyped(env: Env, e: Expr, out: Evaluated)
    requires TypeOf(env, e).Some?
  {
    out.Some? ==> TypeOfValue(out.value.0) == TypeOf(env, e).value && MemoryTyped(env, out.value.1)
  }

  lemma {:induction false} InfixIsTyped(mode: Mode, env: Env, op: Opcode, l: Expr, r: Expr, m: Memory)
    requires !IsAssignment(op) && TypeOf(env, Binary(op, l, r)).Some? && MemoryTyped(env, m)
    ensures IsTyped(env, Binary(op, l, r), Eval(mode, Binary(op, l, r), m))
    decreases Binary(op, l, r), 0
  {
    hide Apply, MemoryTyped, IsAssignment;
    EvaluationIsTyped(mode, env, l, m);
    if Eval(mode, l, m).Some? {
      var (x, m1) := Eval(mode, l, m).value;
      EvaluationIsTyped(mode, env, r, m1);
      if Eval(mode, Binary(op, l, r), m).Some? {
        ApplyIsTyped(op, x, Eval(mode, r, m1).value.0);
      }
    }
  }

  lemma {:induction false} TernaryIsTyped(mode: Mode, env: Env, c: Expr, t: Expr, f: Expr, m: Memory)
    requires TypeOf(env, Ternary(c, t, f)).Some? && MemoryTyped(env, m)
    ensures IsTyped(env, Ternary(c, t, f), Eval(mode, Ternary(c, t, f), m))
    decreases Ternary(c, t, f), 0
  {
    hide MemoryTyped;
    EvaluationIsTyped(mode, env, c, m);
    if Eval(mode, c, m).Some? {
      var m1 := Eval(mode, c, m).value.1;
      EvaluationIsTyped(mode, env, t, m1);
      EvaluationIsTyped(mode, env, f, m1);
      if Eval(mode, t, m1).Some? {
        EvaluationIsTyped(mode, env, f, Eval(mode, t, m1).value.1);
      }
    }
  }

  lemma AssignmentIsTyped(mode: Mode, env: Env, e: Expr, m: Memory)
    requires e.Binary? && IsAssignment(e.opcode) && TypeOf(env, e).Some? && Eval(mode, e, m).Some?
    requires Eval(mode, e.right, m).Some?
    requires TypeOfValue(Eval(mode, e.right, m).value.0) == TypeOf(env, e.right).value
    requires MemoryTyped(env, Eval(mode, e.right, m).value.1)
    ensures TypeOfValue(Eval(mode, e, m).value.0) == TypeOf(env, e).value && MemoryTyped(env, Eval(mode, e, m).value.1)
  {
    hide Apply, MemoryTyped;
    var x := e.left.literal.name;
    var (v, m1) := Eval(mode, e.right, m).value;
    if CompoundOp(e.opcode).Some? {
      ApplyIsTyped(CompoundOp(e.opcode).value, m1[x], v);
      AssignedIsTyped(env, m1, x, Eval(mode, e, m).value.0);
    } else {
      AssignedIsTyped(env, m1, x, v);
    }
  }

  // ---------- Meaning of statements ----------

  datatype Exit = Normal | Broke | Continued

  /** Timeout only says that the given fuel ran out; Faulted that an operation was undefined. */
  datatype Outcome = Done(exit: Exit, mem: Memory) | Faulted | Timeout

  function EvalIf(mode: Mode, e: Option<Expr>, m: Memory, absent: Value): Evaluated {
    match e
    case None => Some((absent, m))
    case Some(x) => Eval(mode, x, m)
  }

  function Exec(mode: Mode, fuel: nat, s: Stmt, m: Memory): Outcome
    decreases fuel, s, 0
  {
    match s
    case Expression(e) => (
      match Eval(mode, e, m)
      case None => Faulted
      case Some((_, m1)) => Done(Normal, m1))
    case If(c, t, f) => (
      match Eval(mode, c, m)
      case Some((BoolValue(true), m1)) => Exec(mode, fuel, t, m1)
      case Some((BoolValue(false), m1)) => (
        match f
        case None => Done(Normal, m1)
        case Some(s1) => Exec(mode, fuel, s1, m1))
      case _ => Faulted)
    case While(c, body) => ExecLoop(mode, fuel, Some(c), None, body, m)
    case For(pre, test, post, body) => (
      match EvalIf(mode, pre, m, BoolValue(true))
      case None => Faulted
      case Some((_, m1)) => ExecLoop(mode, fuel, test, post, body, m1))
    case Break => Done(Broke, m)
    case Continue => Done(Continued, m)
    case Block(ss) => ExecSeq(mode, fuel, ss, m)
  }

  function ExecSeq(mode: Mode, fuel: nat, ss: seq<Stmt>, m: Memory): Outcome
    decreases fuel, ss, 0
  {
    if ss == [] then Done(Normal, m)
    else
      var first := Exec(mode, fuel, ss[0], m);
      if first.Done? && first.exit == Normal then ExecSeq(mode, fuel, ss[1..], first.mem) else first
  }

  /** A loop whose test comes first; a body that ends Normal or Continued is followed by post. */
  function ExecLoop(mode: Mode, fuel: nat, test: Option<Expr>, post: Option<Expr>, body: Stmt, m: Memory): Outcome
    decreases fuel, body, 1
  {
    if fuel == 0 then Timeout
    else
      match EvalIf(mode, test, m, BoolValue(true))
      case Some((BoolValue(false), m1)) => Done(Normal, m1)
      case Some((BoolValue(true), m1)) => (
        var once := Exec(mode, fuel, body, m1);
        if !once.Done? then once
        else if once.exit == Broke then Done(Normal, once.mem)
        else
          match EvalIf(mode, post, once.mem, BoolValue(true))
          case None => Faulted
          case Some((_, m2)) => ExecLoop(mode, fuel - 1, test, post, body, m2))
      case _ => Faulted
  }
}
