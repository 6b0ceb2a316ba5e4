/** The check for unused declarations: the stack of frames it keeps, and the lexical rule that
    stack is meant to decide. */
module Unused {
  import Ast

  // ---------- Syntax, as far as the checker tells it apart ----------

  /** Reference is an identifier literal or the target of ++ or --. Plain is every node that only
      visits its children, in order, null ones left out. A function's parts are its return type
      and its block. */
  datatype Node =
    | Reference(name: string)
    | Plain(children: seq<Node>)
    | Block(nodes: seq<Node>)
    | For(clauses: seq<Node>)
    | VarDecl(name: string, init: Ast.Option<Node>)
    | FnDecl(name: string, params: seq<string>, parts: seq<Node>)

  datatype Event = Enter | Exit | Declare(name: string) | Refer(name: string)

  function Events(n: Node): seq<Event> {
    match n
    case Reference(x) => [Refer(x)]
    case Plain(ns) => EventsOf(ns)
    case Block(ns) => [Enter] + EventsOf(ns) + [Exit]
    case For(ns) => [Enter] + EventsOf(ns) + [Exit]
    case VarDecl(x, None) => [Declare(x)]
    case VarDecl(x, Some(e)) => Events(e) + [Declare(x)]
    case FnDecl(x, params, ns) => [Declare(x), Enter] + Declarations(params) + EventsOf(ns) + [Exit]
  }

  function EventsOf(ns: seq<Node>): seq<Event> {
    if ns == [] then [] else EventsOf(ns[..|ns| - 1]) + Events(ns[|ns| - 1])
  }

  function Declarations(names: seq<string>): seq<Event> {
    if names == [] then [] else Declarations(names[..|names| - 1]) + [Declare(names[|names| - 1])]
  }

  // ---------- The stack of frames ----------

  datatype Decl = Decl(name: string, used: bool)

  type Frame = seq<Decl>

  datatype State = State(frames: seq<Frame>, hasError: bool)

  predicate Names(f: Frame, x: string) {
    exists i :: 0 <= i < |f| && f[i].name == x
  }

  /** The first declaration of the name in the innermost frame that has one. */
  predicate IsTarget(frames: seq<Frame>, x: string, s: nat, i: nat) {
    && s < |frames| && i < |frames[s]| && frames[s][i].name == x
    && (forall j :: 0 <= j < i ==> frames[s][j].name != x)
    && (forall t :: s < t < |frames| ==> !Names(frames[t], x))
  }

  function Mark(frames: seq<Frame>, x: string): seq<Frame> {
    if frames == [] then []
    else
      var s := |frames| - 1;
      if Names(frames[s], x) then frames[s := MarkFirst(frames[s], x)] else Mark(frames[..s], x) + [frames[s]]
  }

  function MarkFirst(f: Frame, x: string): Frame {
    if f == [] then [] else if f[0].name == x then [Decl(x, true)] + f[1..] else [f[0]] + MarkFirst(f[1..], x)
  }

  predicate AllUsed(f: Frame) {
    forall i :: 0 <= i < |f| ==> f[i].used
  }

  function Step(st: State, e: Event): State {
    var top := |st.frames| - 1;
    match e
    case Enter => st.(frames := st.frames + [[]])
    case Exit =>
      if st.frames == [] then st
      else State(st.frames[..top], st.hasError || !AllUsed(st.frames[top]))
    case Declare(x) =>
      if st.frames == [] then st else st.(frames := st.frames[top := st.frames[top] + [Decl(x, false)]])
    case Refer(x) => st.(frames := Mark(st.frames, x))
  }

  function Run(st: State, es: seq<Event>): State {
    if es == [] then st else Step(Run(st, es[..|es| - 1]), es[|es| - 1])
  }

  lemma {:induction false} RunInSequence(st: State, a: seq<Event>, b: seq<Event>)
    ensures Run(st, a + b) == Run(Run(st, a), b)
    decreases b
  {
    if b == [] {
      assert a + b == a;
    } else {
      var n := |b| - 1;
      assert (a + b)[..|a + b| - 1] == a + b[..n];
      RunInSequence(st, a, b[..n]);
    }
  }

  lemma {:induction false} MarkFirstMarks(f: Frame, x: string, i: nat)
    requires i < |f| && f[i].name == x && forall j :: 0 <= j < i ==> f[j].name != x
    ensures MarkFirst(f, x) == f[i := Decl(x, true)]
  {
    if i > 0 {
      MarkFirstMarks(f[1..], x, i - 1);
    }
  }

  lemma {:induction false} MarkMarks(frames: seq<Frame>, x: string, s: nat, i: nat)
    requires IsTarget(frames, x, s, i)
    ensures Mark(frames, x) == frames[s := frames[s][i := Decl(x, true)]]
    decreases |frames|
  {
    var top := |frames| - 1;
    if s == top {
      assert Names(frames[top], x);
      MarkFirstMarks(frames[s], x, i);
    } else {
      MarkMarks(frames[..top], x, s, i);
    }
  }

  lemma {:induction false} MarkNothing(frames: seq<Frame>, x: string)
    requires forall t :: 0 <= t < |frames| ==> !Names(frames[t], x)
    ensures Mark(frames, x) == frames
    decreases |frames|
  {
    if frames != [] {
      MarkNothing(frames[..|frames| - 1], x);
    }
  }
}
