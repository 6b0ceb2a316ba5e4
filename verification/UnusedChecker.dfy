/** The checker object. */
module UnusedChecker {
  import Ast
  import opened Unused
  import opened LexicalUse
  import opened Resolver

  class UnusedChecker {
    var scopes: seq<Frame>
    var hasError: bool

    ghost function State(): State
      reads this
    {
      Unused.State(scopes, hasError)
    }

    constructor ()
      ensures State() == Unused.State([], false)
    {
      scopes, hasError := [], false;
    }

    method PushScope()
      modifies this
      ensures State() == Step(old(State()), Enter)
    {
      scopes := scopes + [[]];
    }

    method PopScope()
      modifies this
      ensures State() == Step(old(State()), Exit)
    {
      if |scopes| <= 0 { return; }
      var scope := scopes[|scopes| - 1];
      for i := 0 to |scope|
        invariant scopes == old(scopes)
        invariant hasError == (old(hasError) || !AllUsed(scope[..i]))
      {
        assert scope[..i + 1] == scope[..i] + [scope[i]];
        if !scope[i].used { hasError := true; }
      }
      assert scope[..|scope|] == scope;
      scopes := scopes[..|scopes| - 1];
    }

    method AddDeclaration(name: string)
      modifies this
      ensures State() == Step(old(State()), Declare(name))
    {
      if |scopes| <= 0 { return; }
      var top := |scopes| - 1;
      scopes := scopes[top := scopes[top] + [Decl(name, false)]];
    }

    method MarkUsed(name: string)
      modifies this
      ensures State() == Step(old(State()), Refer(name))
    {
      var s := |scopes| - 1;
      while s >= 0
        invariant -1 <= s < |scopes| && State() == old(State())
        invariant forall t :: s < t < |scopes| ==> !Names(scopes[t], name)
      {
        var scope := scopes[s];
        var i := 0;
        while i < |scope|
          invariant 0 <= i <= |scope| && State() == old(State())
          invariant forall j :: 0 <= j < i ==> scope[j].name != name
        {
          if scope[i].name == name {
            MarkMarks(scopes, name, s, i);
            scopes := scopes[s := scope[i := Decl(name, true)]];
            return;
          }
          i := i + 1;
        }
        s := s - 1;
      }
      MarkNothing(scopes, name);
    }

    method CheckNodes(ns: seq<Node>)
      modifies this
      ensures State() == Run(old(State()), EventsOf(ns))
      decreases ns, 1
    {
      for i := 0 to |ns|
        invariant State() == Run(old(State()), EventsOf(ns[..i]))
      {
        assert ns[..i + 1][..i] == ns[..i];
        CheckNode(ns[i]);
        RunInSequence(old(State()), EventsOf(ns[..i]), Events(ns[i]));
      }
      assert ns[..|ns|] == ns;
    }

    method CheckBlock(ns: seq<Node>)
      modifies this
      ensures State() == Run(old(State()), [Enter] + EventsOf(ns) + [Exit])
      decreases ns, 2
    {
      ghost var st := State();
      PushScope();
      RunOne(st, Enter);
      CheckNodes(ns);
      RunInSequence(st, [Enter], EventsOf(ns));
      PopScope();
      RunInSequence(st, [Enter] + EventsOf(ns), [Exit]);
      RunOne(Run(st, [Enter] + EventsOf(ns)), Exit);
    }

    /** Visits a node; what it does to the frames is what the node's events do, in order. */
    method CheckNode(n: Node)
      modifies this
      ensures State() == Run(old(State()), Events(n))
      decreases n, 0
    {
      ghost var st := State();
      match n
      case Reference(x) =>
        MarkUsed(x);
        RunOne(st, Refer(x));
      case Plain(ns) => CheckNodes(ns);
      case Block(ns) => CheckBlock(ns);
      case For(ns) => CheckBlock(ns);
      case VarDecl(x, None) =>
        AddDeclaration(x);
        RunOne(st, Declare(x));
      case VarDecl(x, Some(e)) =>
        CheckNode(e);
        AddDeclaration(x);
        RunInSequence(st, Events(e), [Declare(x)]);
        RunOne(Run(st, Events(e)), Declare(x));
      case FnDecl(x, params, ns) => CheckFunction(x, params, ns);
    }

    /** The name belongs to the frame around the function, the parameters to the function's own. */
    method CheckFunction(name: string, params: seq<string>, parts: seq<Node>)
      modifies this
      ensures State() == Run(old(State()), [Declare(name), Enter] + Declarations(params) + EventsOf(parts) + [Exit])
      decreases parts, 2
    {
      ghost var st := State();
      ghost var head := [Declare(name), Enter];
      AddDeclaration(name);
      RunOne(st, Declare(name));
      PushScope();
      assert head[..1] == [Declare(name)];
      AddDeclarations(params);
      RunInSequence(st, head, Declarations(params));
      CheckNodes(parts);
      RunInSequence(st, head + Declarations(params), EventsOf(parts));
      PopScope();
      RunInSequence(st, head + Declarations(params) + EventsOf(parts), [Exit]);
      RunOne(Run(st, head + Declarations(params) + EventsOf(parts)), Exit);
    }

    method AddDeclarations(names: seq<string>)
      modifies this
      ensures State() == Run(old(State()), Declarations(names))
    {
      for i := 0 to |names|
        invariant State() == Run(old(State()), Declarations(names[..i]))
      {
        assert names[..i + 1][..i] == names[..i];
        AddDeclaration(names[i]);
        RunInSequence(old(State()), Declarations(names[..i]), [Declare(names[i])]);
        RunOne(Run(old(State()), Declarations(names[..i])), Declare(names[i]));
      }
      assert names[..|names|] == names;
    }

    method Begin()
      modifies this
      ensures State() == Step(old(State()), Enter)
    {
      PushScope();
    }

    /** Closes the outermost frame and answers whether no error was seen. */
    method End() returns (ok: bool)
      modifies this
      ensures State() == Step(old(State()), Exit) && ok == !hasError
    {
      PopScope();
      return !hasError;
    }
  }

  /** The check of a whole program, as the compiler calls it: it passes exactly if every variable,
      parameter and procedure is what some reference means, by the rule on the tree as by the one on
      the order of events. */
  method Check(ns: seq<Node>) returns (ok: bool)
    ensures ok <==> EveryDeclarationIsMeant(ns)
    ensures ok <==> EveryDeclarationIsUsed(Program(ns))
  {
    hide EveryDeclarationIsUsed, EveryDeclarationIsMeant, Run, Step, EventsOf;
    var checker := new UnusedChecker();
    checker.Begin();
    checker.CheckNodes(ns);
    ok := checker.End();
    RunFramed(Unused.State([], false), EventsOf(ns));
    VerdictIsLexical(ns);
    VerdictIsResolution(ns);
  }
}
