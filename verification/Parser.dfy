/** The parser as the program has it: an object whose methods advance over the tokens and fold
    nodes in place, one infix step at a time. Each method is tied to the function on token
    sequences that it computes. */
module Parser {
  import opened Ast
  import opened Folding
  import opened Parsing

  function StatusOf(f: Fault): Status {
    match f
    case NoFault => Clean
    case DivideByZero => Failed
    case Overflow => Foreign
  }

  /** The tokens that have a prefix rule. */
  predicate StartsExpression(t: Token) {
    t.IntToken? || t.BoolToken? || t.NameToken? || t.ParenLeft? || t.NotToken? || t == OpToken(Subtraction)
  }

  /** What the prefix rule of a token makes of the tokens after it. */
  function Prefixed(t: Token, ts: seq<Token>, status: Status): Parsed
    requires StartsExpression(t)
  {
    match t
    case IntToken(n) => Parsed(Atomic(Integer(n)), ts, status)
    case BoolToken(b) => Parsed(Atomic(Boolean(b)), ts, status)
    case NameToken(x) => Parsed(Atomic(Identifier(CutName(x))), ts, NameStatus(x, status))
    case ParenLeft =>
      var inner := Consume(Parse(true, ts, PREC_TERNARY, status), ParenRight);
      if inner.status == Foreign then inner else inner.(tree := Grouping(inner.tree))
    case NotToken =>
      var inner := Parse(true, ts, PREC_CALL, status);
      if inner.status == Foreign then inner else inner.(tree := Negated(inner.tree))
    case _ => Parsed(Missing, ts, Foreign)
  }

  lemma ParseStarts(ts: seq<Token>, rule: nat, status: Status)
    requires status != Foreign
    ensures Parse(true, ts, rule, status) ==
              if ts == [] || !StartsExpression(ts[0]) then
                Parsed(Missing, if ts == [] then [] else ts[1..], Join(status, Failed))
              else
                var p := Prefixed(ts[0], ts[1..], status);
                if p.status == Foreign then p else Climb(true, p.tree, p.rest, rule, p.status)
  {
    hide Climb;
  }

  lemma FoldUnfolds(e: Expr)
    requires e.Binary?
    ensures Fold(e) == if Foldable(e.opcode) then Combine(e.opcode, FoldOperand(e.left), FoldOperand(e.right))
                       else Folded(e, NoFault, true)
  {
  }

  lemma CalculateStops(op: Opcode, a: i32, b: i32)
    requires Foldable(op)
    ensures Calculate(op, a, b).ok <==> Calculate(op, a, b).fault == NoFault
  {
    hide TruncDiv, TruncMod, DivisionFaults;
  }

  /** What the loop over infix operators does next. */
  function Infix(left: Expr, ts: seq<Token>, rule: nat, status: Status): Parsed
    requires ts != [] && ts[0].OpToken?
  {
    var r := Parse(true, ts[1..], PrecOf(ts[0].op), status);
    if r.status == Foreign then r else AfterNode(Binary(ts[0].op, left, r.tree), r.rest, rule, r.status)
  }

  /** What it does with a node just built. */
  function AfterNode(node: Expr, ts: seq<Token>, rule: nat, status: Status): Parsed
    requires node.Binary?
  {
    if status != Clean then Climb(true, node, ts, rule, status)
    else
      var f := Fold(node);
      if f.fault == Overflow then Parsed(f.tree, ts, Foreign)
      else if !f.ok then Parsed(f.tree, ts, Failed)
      else Climb(true, f.tree, ts, rule, if f.fault == NoFault then Clean else Failed)
  }

  lemma ClimbUnfolds(left: Expr, ts: seq<Token>, rule: nat, status: Status)
    ensures ts == [] || PrecOfToken(ts[0]) < rule ==> Climb(true, left, ts, rule, status) == Parsed(left, ts, status)
    ensures ts != [] && PrecOfToken(ts[0]) >= rule ==>
              match ts[0]
              case OpToken(_) => Climb(true, left, ts, rule, status) == Infix(left, ts, rule, status)
              case Question => Climb(true, left, ts, rule, status) == Conditional(left, ts, rule, status)
              case IntToken(_) | BoolToken(_) | NameToken(_) | ParenLeft =>
                Climb(true, left, ts, rule, status) == Parsed(left, ts, Foreign)
              case _ => Climb(true, left, ts, rule, status) == Parsed(Missing, ts, Join(status, Failed))
  {
    hide Parse, Fold, Consume;
  }

  function Conditional(left: Expr, ts: seq<Token>, rule: nat, status: Status): Parsed
    requires ts != []
  {
    var t := Consume(Parse(true, ts[1..], PREC_TERNARY, status), Colon);
    if t.status == Foreign then t
    else
      var e := Parse(true, t.rest, PREC_TERNARY, t.status);
      if e.status == Foreign then e else Climb(true, Ternary(left, t.tree, e.tree), e.rest, rule, e.status)
  }

  class Parser {
    var lexer: seq<Token>  // what the lexer has still to deliver
    var current: Option<Token>  // None is the end of the input
    var previous: Option<Token>
    var status: Status

    ghost predicate Valid()
      reads this
    {
      current.None? ==> lexer == []
    }

    /** The tokens that no rule has taken yet. */
    ghost function Remaining(): (ts: seq<Token>)
      reads this
    {
      if current.None? then [] else [current.value] + lexer
    }

    constructor (tokens: seq<Token>)
      ensures Valid() && Remaining() == tokens && status == Clean
    {
      lexer, current, previous, status := tokens, None, None, Clean;
      new;
      Advance();
    }

    method Advance()
      modifies `lexer, `current, `previous
      ensures Valid() && previous == old(current)
      ensures Remaining() == old(lexer)
    {
      previous := current;
      if lexer == [] {
        current := None;
      } else {
        current, lexer := Some(lexer[0]), lexer[1..];
      }
    }

    method Error()
      modifies `status
      ensures status == Join(old(status), Failed)
    {
      if status == Clean { status := Failed; }
    }

    method ConsumeToken(t: Token)
      requires Valid()
      modifies this
      ensures Valid() && forall e ::
                            Parsed(e, Remaining(), status) == Consume(Parsed(e, old(Remaining()), old(status)), t)
    {
      if current != Some(t) {
        Error();
      } else {
        Advance();
      }
    }

    /** Folds the infix nodes at and below a node, in place; reports what it meets. */
    method CalcStaticBinaryArithmetic(e: Expr) returns (folded: Expr, ok: bool)
      requires e.Binary?
      modifies `status
      ensures folded == Fold(e).tree && ok == Fold(e).ok
      ensures status == Join(old(status), StatusOf(Fold(e).fault))
      ensures !ok ==> Fold(e).fault != NoFault
      decreases e, 0
    {
      hide Calculate, Fold, FoldOperand;
      FoldUnfolds(e);
      if !Foldable(e.opcode) { return e, true; }
      var left := CalcOperand(e.left);
      var right := CalcOperand(e.right);
      if !(IsInt(left) && IsInt(right)) { return Binary(e.opcode, left, right), true; }
      CalculateStops(e.opcode, left.literal.n, right.literal.n);
      var result := Calculate(e.opcode, left.literal.n, right.literal.n);
      if result.fault != NoFault { status := Join(status, StatusOf(result.fault)); }
      return result.tree, result.ok;
    }

    /** An operand that is an infix node is folded first; whether that stopped is not asked. */
    method CalcOperand(e: Expr) returns (folded: Expr)
      modifies `status
      ensures folded == FoldOperand(e).tree && status == Join(old(status), StatusOf(FoldOperand(e).fault))
      decreases e, 1
    {
      folded := e;
      if e.Binary? {
        var ignored;
        folded, ignored := CalcStaticBinaryArithmetic(e);
      }
    }

    /** grouping, the part of unary for `!`, and atomic: the rule of the token just taken. */
    method PrefixRule() returns (node: Expr)
      requires Valid() && previous.Some? && StartsExpression(previous.value) && status != Foreign
      modifies this
      ensures Valid() && |Remaining()| <= |old(Remaining())|
      ensures Parsed(node, Remaining(), status) == Prefixed(old(previous.value), old(Remaining()), old(status))
      decreases |Remaining()|, 2
    {
      hide Parse;
      if previous.value.OpToken? { status := Foreign; }
      match previous.value
      case IntToken(n) => node := Atomic(Integer(n));
      case BoolToken(b) => node := Atomic(Boolean(b));
      case NameToken(x) =>
        if |x| > MAX_NAME { Error(); }
        node := Atomic(Identifier(CutName(x)));
      case ParenLeft =>
        node := ParsePrecedence(PREC_TERNARY);
        ConsumeToken(ParenRight);
        if status != Foreign { node := Grouping(node); }
      case NotToken =>
        node := ParsePrecedence(PREC_CALL);
        if status != Foreign { node := Negated(node); }
      case OpToken(_) => node := Missing;
    }

    /** The right operand of an infix operator binds at least as tightly as the operator. */
    method BinaryRule(op: Opcode) returns (rhs: Expr)
      requires Valid() && current == Some(OpToken(op)) && status != Foreign
      modifies this
      ensures Valid() && |Remaining()| < |old(Remaining())|
      ensures Parsed(rhs, Remaining(), status) == Parse(true, old(Remaining())[1..], PrecOf(op), old(status))
      decreases |Remaining()|, 2
    {
      hide Parse;
      Advance();
      rhs := ParsePrecedence(PrecOf(op));
    }

    method QuestionRule() returns (thenPath: Expr, elsePath: Expr)
      requires Valid() && current == Some(Question) && status != Foreign
      modifies this
      ensures Valid() && |Remaining()| < |old(Remaining())|
      ensures
        var t := Consume(Parse(true, old(Remaining())[1..], PREC_TERNARY, old(status)), Colon);
        if t.status == Foreign then Parsed(elsePath, Remaining(), status) == t
        else
          && thenPath == t.tree
          && Parsed(elsePath, Remaining(), status) == Parse(true, t.rest, PREC_TERNARY, t.status)
      decreases |Remaining()|, 2
    {
      hide Parse;
      Advance();
      thenPath := ParsePrecedence(PREC_TERNARY);
      ConsumeToken(Colon);
      elsePath := thenPath;
      if status != Foreign {
        elsePath := ParsePrecedence(PREC_TERNARY);
      }
    }

    /** A prefix rule, then infix rules while the next token binds at least as tightly as asked.
        The method leaves the tree, the tokens and the error state that Parse computes. */
    method ParsePrecedence(rule: nat) returns (node: Expr)
      requires Valid() && rule >= PREC_ASSIGNMENT && status != Foreign
      modifies this
      ensures Valid() && |Remaining()| <= |old(Remaining())|
      ensures Parsed(node, Remaining(), status) == Parse(true, old(Remaining()), rule, old(status))
      decreases |Remaining()|, 1
    {
      hide Parse, Climb, Fold, Prefixed, Consume, PrecOf;
      ghost var all := Parse(true, Remaining(), rule, status);
      ParseStarts(Remaining(), rule, status);
      Advance();
      if previous.None? || !StartsExpression(previous.value) {
        Error();
        return Missing;
      }
      node := PrefixRule();
      if status == Foreign { return; }
      var more := true;
      while more && current.Some? && rule <= PrecOfToken(current.value)
        invariant Valid() && |Remaining()| < |old(Remaining())| && (more ==> status != Foreign)
        invariant all ==
                    if more then Climb(true, node, Remaining(), rule, status) else Parsed(node, Remaining(), status)
        decreases more, |Remaining()|
      {
        node, more := InfixRule(node, rule);
      }
      if more { ClimbUnfolds(node, Remaining(), rule, status); }
    }

    /** One infix rule and the folding behind it; more says whether the loop goes on. */
    method InfixRule(left: Expr, rule: nat) returns (node: Expr, more: bool)
      requires Valid() && status != Foreign
      requires current.Some? && PREC_ASSIGNMENT <= rule <= PrecOfToken(current.value)
      modifies this
      ensures Valid() && |Remaining()| <= |old(Remaining())|
      ensures more ==> status != Foreign && |Remaining()| < |old(Remaining())|
      ensures Climb(true, left, old(Remaining()), rule, old(status)) ==
                if more then Climb(true, node, Remaining(), rule, status) else Parsed(node, Remaining(), status)
      decreases |Remaining()|, 3
    {
      hide Parse, Climb, Fold, Consume, PrecOf;
      ClimbUnfolds(left, Remaining(), rule, status);
      if current.value.OpToken? {
        var op := current.value.op;
        node := BinaryRule(op);
        if status == Foreign { return node, false; }
        node, more := Binary(op, left, node), true;
        if status == Clean {
          node, more := CalcStaticBinaryArithmetic(node);
          more := more && status != Foreign;
        }
      } else if current.value.Question? {
        var thenPath, elsePath := QuestionRule();
        if status == Foreign { return elsePath, false; }
        return Ternary(left, thenPath, elsePath), true;
      } else if current.value.NotToken? {
        Error();
        return Missing, false;
      } else {
        status := Foreign;
        return left, false;
      }
    }
  }
}
