/** The lexical rule on the tree: which declaration each reference means, by recursion over nodes with
    the frames around them; and the proof that the stack of frames decides this rule. */
module Resolver {
  import Ast
  import opened Unused
  import opened LexicalUse

  // ---------- The rule ----------

  /** A declaration is known by its number. Nodes and parameters are numbered in the order of the text,
      a node before its parts. */
  datatype Binding = Binding(name: string, id: nat)

  /** The frames around a node, innermost last, with what has been declared in them so far. */
  type Frames = seq<seq<Binding>>

  function Size(n: Node): nat {
    match n
    case Reference(_) => 1
    case Plain(ns) => 1 + SizeOf(ns)
    case Block(ns) => 1 + SizeOf(ns)
    case For(ns) => 1 + SizeOf(ns)
    case VarDecl(_, None) => 1
    case VarDecl(_, Some(e)) => 1 + Size(e)
    case FnDecl(_, params, ns) => 1 + |params| + SizeOf(ns)
  }

  function SizeOf(ns: seq<Node>): nat {
    if ns == [] then 0 else SizeOf(ns[..|ns| - 1]) + Size(ns[|ns| - 1])
  }

  function Parameters(names: seq<string>, at: nat): (bs: seq<Binding>)
    ensures |bs| == |names|
  {
    if names == [] then []
    else
      var n := |names| - 1;
      Parameters(names[..n], at) + [Binding(names[n], at + n)]
  }

  /** What the node numbered at leaves declared in the frame it stands in. Blocks, `for`s and function
      bodies have frames of their own; a function's name belongs outside. */
  function Left(n: Node, at: nat): seq<Binding> {
    match n
    case Reference(_) => []
    case Plain(ns) => LeftIn(ns, at + 1)
    case Block(_) => []
    case For(_) => []
    case VarDecl(x, None) => [Binding(x, at)]
    case VarDecl(x, Some(e)) => Left(e, at + 1) + [Binding(x, at)]
    case FnDecl(x, _, _) => [Binding(x, at)]
  }

  function LeftIn(ns: seq<Node>, at: nat): seq<Binding> {
    if ns == [] then []
    else
      var n := |ns| - 1;
      LeftIn(ns[..n], at) + Left(ns[n], at + SizeOf(ns[..n]))
  }

  /** All declarations in a node. */
  function Declared(n: Node, at: nat): set<nat> {
    match n
    case Reference(_) => {}
    case Plain(ns) => DeclaredIn(ns, at + 1)
    case Block(ns) => DeclaredIn(ns, at + 1)
    case For(ns) => DeclaredIn(ns, at + 1)
    case VarDecl(_, None) => {at}
    case VarDecl(_, Some(e)) => {at} + Declared(e, at + 1)
    case FnDecl(_, params, ns) => {at} + Ids(Parameters(params, at + 1)) + DeclaredIn(ns, at + 1 + |params|)
  }

  function DeclaredIn(ns: seq<Node>, at: nat): set<nat> {
    if ns == [] then {}
    else
      var n := |ns| - 1;
      DeclaredIn(ns[..n], at) + Declared(ns[n], at + SizeOf(ns[..n]))
  }

  function Ids(bs: seq<Binding>): set<nat> {
    set i | 0 <= i < |bs| :: bs[i].id
  }

  function Extend(env: Frames, bs: seq<Binding>): Frames
    requires env != []
  {
    env[|env| - 1 := env[|env| - 1] + bs]
  }

  function FirstOf(bs: seq<Binding>, x: string): Ast.Option<nat> {
    if bs == [] then Ast.None else if bs[0].name == x then Ast.Some(bs[0].id) else FirstOf(bs[1..], x)
  }

  /** The first declaration of the name in the innermost frame that has one. */
  function Lookup(env: Frames, x: string): Ast.Option<nat> {
    if env == [] then Ast.None
    else
      var top := |env| - 1;
      if FirstOf(env[top], x).Some? then FirstOf(env[top], x) else Lookup(env[..top], x)
  }

  /** The declarations that the references in a node mean, with env around it. An initialiser sees what
      was declared before its variable; a function's body sees the function and its parameters. */
  function Meant(n: Node, at: nat, env: Frames): set<nat>
    requires env != []
  {
    match n
    case Reference(x) => (match Lookup(env, x) case None => {} case Some(p) => {p})
    case Plain(ns) => MeantIn(ns, at + 1, env)
    case Block(ns) => MeantIn(ns, at + 1, env + [[]])
    case For(ns) => MeantIn(ns, at + 1, env + [[]])
    case VarDecl(_, None) => {}
    case VarDecl(_, Some(e)) => Meant(e, at + 1, env)
    case FnDecl(x, params, ns) =>
      MeantIn(ns, at + 1 + |params|, Extend(env, [Binding(x, at)]) + [Parameters(params, at + 1)])
  }

  function MeantIn(ns: seq<Node>, at: nat, env: Frames): set<nat>
    requires env != []
  {
    if ns == [] then {}
    else
      var n := |ns| - 1;
      MeantIn(ns[..n], at, env) + Meant(ns[n], at + SizeOf(ns[..n]), Extend(env, LeftIn(ns[..n], at)))
  }

  /** Every declaration of the program is what some reference means. */
  predicate EveryDeclarationIsMeant(ns: seq<Node>) {
    DeclaredIn(ns, 0) <= MeantIn(ns, 0, [[]])
  }

  // ---------- Numbers ----------

  predicate Between(ids: set<nat>, from: nat, to: nat) {
    forall p :: p in ids ==> from <= p < to
  }

  lemma {:induction false} ParametersBetween(names: seq<string>, at: nat)
    ensures Between(Ids(Parameters(names, at)), at, at + |names|)
  {
    hide Ids;
    if names == [] {
      IdsOfNone();
    } else {
      var n := |names| - 1;
      ParametersBetween(names[..n], at);
      IdsOfBoth(Parameters(names[..n], at), [Binding(names[n], at + n)]);
      IdsOfOne(names[n], at + n);
    }
  }

  lemma {:induction false} DeclaredBetween(n: Node, at: nat)
    ensures Between(Declared(n, at), at, at + Size(n))
    decreases n, 0
  {
    match n
    case Reference(_) =>
    case Plain(ns) => DeclaredInBetween(ns, at + 1);
    case Block(ns) => DeclaredInBetween(ns, at + 1);
    case For(ns) => DeclaredInBetween(ns, at + 1);
    case VarDecl(_, None) =>
    case VarDecl(_, Some(e)) => DeclaredBetween(e, at + 1);
    case FnDecl(_, params, ns) =>
      ParametersBetween(params, at + 1);
      DeclaredInBetween(ns, at + 1 + |params|);
  }

  lemma {:induction false} DeclaredInBetween(ns: seq<Node>, at: nat)
    ensures Between(DeclaredIn(ns, at), at, at + SizeOf(ns))
    decreases ns, 1
  {
    if ns != [] {
      var n := |ns| - 1;
      DeclaredInBetween(ns[..n], at);
      DeclaredBetween(ns[n], at + SizeOf(ns[..n]));
    }
  }

  lemma IdsOfBoth(a: seq<Binding>, b: seq<Binding>)
    ensures Ids(a + b) == Ids(a) + Ids(b)
  {
    forall i | 0 <= i < |b|
      ensures b[i].id in Ids(a + b)
    {
      assert (a + b)[|a| + i] == b[i];
    }
    forall i | 0 <= i < |a|
      ensures a[i].id in Ids(a + b)
    {
      assert (a + b)[i] == a[i];
    }
  }

  lemma {:induction false} LeftIsDeclared(n: Node, at: nat)
    ensures Ids(Left(n, at)) <= Declared(n, at)
    decreases n, 0
  {
    hide Ids;
    match n
    case Plain(ns) => LeftInIsDeclared(ns, at + 1);
    case VarDecl(x, Some(e)) =>
      LeftIsDeclared(e, at + 1);
      IdsOfBoth(Left(e, at + 1), [Binding(x, at)]);
      IdsOfOne(x, at);
    case VarDecl(x, None) => IdsOfOne(x, at);
    case FnDecl(x, _, _) => IdsOfOne(x, at);
    case _ => IdsOfNone();
  }

  lemma IdsOfOne(x: string, at: nat)
    ensures Ids([Binding(x, at)]) == {at}
  {
    assert [Binding(x, at)][0].id == at;
  }

  lemma IdsOfNone()
    ensures Ids([]) == {}
  {
  }

  lemma {:induction false} LeftInIsDeclared(ns: seq<Node>, at: nat)
    ensures Ids(LeftIn(ns, at)) <= DeclaredIn(ns, at)
    decreases ns, 1
  {
    hide Ids;
    if ns == [] {
      IdsOfNone();
    } else {
      var n := |ns| - 1;
      LeftInIsDeclared(ns[..n], at);
      LeftIsDeclared(ns[n], at + SizeOf(ns[..n]));
      IdsOfBoth(LeftIn(ns[..n], at), Left(ns[n], at + SizeOf(ns[..n])));
    }
  }

  predicate IsDistinct(bs: seq<Binding>) {
    forall i, j :: 0 <= i < j < |bs| ==> bs[i].id != bs[j].id
  }

  lemma DistinctTogether(a: seq<Binding>, b: seq<Binding>)
    requires IsDistinct(a) && IsDistinct(b) && Ids(a) !! Ids(b)
    ensures IsDistinct(a + b)
  {
    var c := a + b;
    forall i, j | 0 <= i < j < |c|
      ensures c[i].id != c[j].id
    {
      if i < |a| <= j {
        assert a[i].id in Ids(a) && b[j - |a|].id in Ids(b);
      }
    }
  }

  lemma OneIsDistinct(x: string, at: nat)
    ensures IsDistinct([Binding(x, at)])
  {
  }

  lemma NoneIsDistinct()
    ensures IsDistinct([])
  {
  }

  // ---------- Frames with numbers ----------

  ghost function AllIds(env: Frames): set<nat> {
    if env == [] then {} else AllIds(env[..|env| - 1]) + Ids(env[|env| - 1])
  }

  /** All numbers are different, and below at. */
  ghost predicate Numbered(env: Frames, at: nat) {
    env == [] ||
    var top := |env| - 1;
    && Numbered(env[..top], at) && IsDistinct(env[top]) && Between(Ids(env[top]), 0, at)
    && AllIds(env[..top]) !! Ids(env[top])
  }

  lemma {:induction false} NumberedBelow(env: Frames, at: nat)
    requires Numbered(env, at)
    ensures Between(AllIds(env), 0, at)
  {
    if env != [] { NumberedBelow(env[..|env| - 1], at); }
  }

  lemma {:induction false} NumberedOn(env: Frames, at: nat, to: nat)
    requires Numbered(env, at) && at <= to
    ensures Numbered(env, to)
  {
    hide IsDistinct, Ids;
    if env != [] { NumberedOn(env[..|env| - 1], at, to); }
  }

  lemma OpenNumbered(env: Frames, bs: seq<Binding>, at: nat, to: nat)
    requires Numbered(env, at) && at <= to && IsDistinct(bs) && Between(Ids(bs), at, to)
    ensures Numbered(env + [bs], to) && AllIds(env + [bs]) == AllIds(env) + Ids(bs)
  {
    hide IsDistinct, Ids;
    NumberedBelow(env, at);
    NumberedOn(env, at, to);
    assert (env + [bs])[..|env|] == env;
  }

  lemma ExtendTwice(env: Frames, a: seq<Binding>, b: seq<Binding>)
    requires env != []
    ensures Extend(Extend(env, a), b) == Extend(env, a + b)
  {
    assert env[|env| - 1] + a + b == env[|env| - 1] + (a + b);
  }

  lemma {:induction false} LookupFinds(env: Frames, x: string)
    ensures Lookup(env, x).Some? ==> Lookup(env, x).value in AllIds(env)
  {
    hide Ids;
    if env != [] {
      FirstIsThere(env[|env| - 1], x);
      LookupFinds(env[..|env| - 1], x);
    }
  }

  lemma {:induction false} FirstIsThere(bs: seq<Binding>, x: string)
    ensures FirstOf(bs, x).Some? ==> FirstOf(bs, x).value in Ids(bs)
  {
    if bs != [] {
      FirstIsThere(bs[1..], x);
      IdsOfBoth([bs[0]], bs[1..]);
      assert bs == [bs[0]] + bs[1..];
      IdsOfOne(bs[0].name, bs[0].id);
    }
  }

  /** References mean what is declared around the node or in it. */
  lemma {:induction false} MeantIsDeclared(n: Node, at: nat, env: Frames)
    requires env != []
    ensures Meant(n, at, env) <= AllIds(env) + Declared(n, at)
    decreases n, 0
  {
    hide Ids, AllIds;
    match n
    case Reference(x) => LookupFinds(env, x);
    case Plain(ns) => MeantInIsDeclared(ns, at + 1, env);
    case Block(ns) =>
      AllIdsOfMore(env, []);
      MeantInIsDeclared(ns, at + 1, env + [[]]);
    case For(ns) =>
      AllIdsOfMore(env, []);
      MeantInIsDeclared(ns, at + 1, env + [[]]);
    case VarDecl(_, None) =>
    case VarDecl(_, Some(e)) => MeantIsDeclared(e, at + 1, env);
    case FnDecl(x, params, ns) =>
      var outer := Extend(env, [Binding(x, at)]);
      AllIdsExtended(env, [Binding(x, at)]);
      IdsOfOne(x, at);
      AllIdsOfMore(outer, Parameters(params, at + 1));
      MeantInIsDeclared(ns, at + 1 + |params|, outer + [Parameters(params, at + 1)]);
  }

  lemma AllIdsOfMore(env: Frames, bs: seq<Binding>)
    ensures AllIds(env + [bs]) == AllIds(env) + Ids(bs)
    ensures bs == [] ==> AllIds(env + [bs]) == AllIds(env)
  {
    assert (env + [bs])[..|env|] == env;
  }

  lemma AllIdsExtended(env: Frames, bs: seq<Binding>)
    requires env != []
    ensures AllIds(Extend(env, bs)) == AllIds(env) + Ids(bs)
  {
    IdsOfBoth(env[|env| - 1], bs);
    assert Extend(env, bs)[..|env| - 1] == env[..|env| - 1];
  }

  lemma {:induction false} MeantInIsDeclared(ns: seq<Node>, at: nat, env: Frames)
    requires env != []
    ensures MeantIn(ns, at, env) <= AllIds(env) + DeclaredIn(ns, at)
    decreases ns, 1
  {
    hide Ids, AllIds;
    if ns != [] {
      var n := |ns| - 1;
      MeantInIsDeclared(ns[..n], at, env);
      LeftInIsDeclared(ns[..n], at);
      AllIdsExtended(env, LeftIn(ns[..n], at));
      MeantIsDeclared(ns[n], at + SizeOf(ns[..n]), Extend(env, LeftIn(ns[..n], at)));
    }
  }

  // ---------- The stack of frames shows the rule ----------

  /** The names are the same, and what is marked is what is in used. */
  ghost predicate FrameShows(f: Frame, bs: seq<Binding>, used: set<nat>) {
    |f| == |bs| && forall i :: 0 <= i < |f| ==> f[i].name == bs[i].name && (f[i].used <==> bs[i].id in used)
  }

  ghost predicate Shows(frames: seq<Frame>, env: Frames, used: set<nat>) {
    |frames| == |env| && forall k :: 0 <= k < |env| ==> FrameShows(frames[k], env[k], used)
  }

  lemma FrameShowsMore(f: Frame, bs: seq<Binding>, used: set<nat>, p: nat)
    requires FrameShows(f, bs, used) && p !in Ids(bs)
    ensures FrameShows(f, bs, used + {p})
  {
    forall i | 0 <= i < |f|
      ensures bs[i].id in Ids(bs)
    {
    }
  }

  lemma {:induction false} ShowsMore(frames: seq<Frame>, env: Frames, used: set<nat>, p: nat)
    requires Shows(frames, env, used) && p !in AllIds(env)
    ensures Shows(frames, env, used + {p})
    decreases |env|
  {
    hide FrameShows, Ids;
    if env != [] {
      var top := |env| - 1;
      ShowsMore(frames[..top], env[..top], used, p);
      FrameShowsMore(frames[top], env[top], used, p);
      ShowsApart(frames, env, used + {p});
    }
  }

  lemma ShowsApart(frames: seq<Frame>, env: Frames, used: set<nat>)
    requires env != [] && |frames| == |env|
    ensures var top := |env| - 1;
            Shows(frames, env, used) <==>
              Shows(frames[..top], env[..top], used) && FrameShows(frames[top], env[top], used)
  {
    hide FrameShows;
  }

  lemma NamesTail(f: Frame, x: string)
    requires f != []
    ensures Names(f, x) <==> f[0].name == x || Names(f[1..], x)
  {
    if i :| 0 < i < |f| && f[i].name == x { assert f[1..][i - 1].name == x; }
    if i :| 0 <= i < |f[1..]| && f[1..][i].name == x { assert f[i + 1].name == x; }
  }

  lemma FrameShowsTail(f: Frame, bs: seq<Binding>, used: set<nat>)
    requires f != [] && bs != []
    ensures FrameShows(f, bs, used) <==>
              f[0].name == bs[0].name && (f[0].used <==> bs[0].id in used) && FrameShows(f[1..], bs[1..], used)
  {
  }

  lemma DistinctTail(bs: seq<Binding>)
    requires bs != [] && IsDistinct(bs)
    ensures IsDistinct(bs[1..]) && bs[0].id !in Ids(bs[1..]) && Ids(bs) == {bs[0].id} + Ids(bs[1..])
  {
    IdsOfBoth([bs[0]], bs[1..]);
    assert bs == [bs[0]] + bs[1..];
    IdsOfOne(bs[0].name, bs[0].id);
  }

  lemma {:induction false} MarkFirstShows(f: Frame, bs: seq<Binding>, used: set<nat>, x: string)
    requires FrameShows(f, bs, used) && IsDistinct(bs)
    ensures Names(f, x) <==> FirstOf(bs, x).Some?
    ensures FirstOf(bs, x).Some? ==> FrameShows(MarkFirst(f, x), bs, used + {FirstOf(bs, x).value})
    decreases |f|
  {
    FrameSizes(f, bs, used);
    if f != [] {
      hide FrameShows, Names, Ids, IsDistinct;
      NamesTail(f, x);
      FrameShowsTail(f, bs, used);
      DistinctTail(bs);
      MarkFirstMore(f, bs, used, x);
    }
  }

  lemma FrameSizes(f: Frame, bs: seq<Binding>, used: set<nat>)
    requires FrameShows(f, bs, used)
    ensures |f| == |bs|
  {
  }

  lemma {:induction false} MarkFirstMore(f: Frame, bs: seq<Binding>, used: set<nat>, x: string)
    requires f != [] && bs != [] && IsDistinct(bs[1..]) && bs[0].id !in Ids(bs[1..])
    requires f[0].name == bs[0].name && (f[0].used <==> bs[0].id in used) && FrameShows(f[1..], bs[1..], used)
    ensures f[0].name != x ==> (Names(f[1..], x) <==> FirstOf(bs, x).Some?)
    ensures FirstOf(bs, x).Some? ==> FrameShows(MarkFirst(f, x), bs, used + {FirstOf(bs, x).value})
    decreases |f|, 0
  {
    hide FrameShows, Names, Ids, IsDistinct;
    if f[0].name == x {
      FrameShowsMore(f[1..], bs[1..], used, bs[0].id);
    } else {
      MarkFirstShows(f[1..], bs[1..], used, x);
      FirstIsThere(bs[1..], x);
    }
    if FirstOf(bs, x).Some? {
      assert MarkFirst(f, x)[1..] == if f[0].name == x then f[1..] else MarkFirst(f[1..], x);
      FrameShowsTail(MarkFirst(f, x), bs, used + {FirstOf(bs, x).value});
    }
  }

  function MeantBy(env: Frames, x: string): set<nat> {
    match Lookup(env, x) case None => {} case Some(p) => {p}
  }

  lemma {:induction false} MarkShows(frames: seq<Frame>, env: Frames, used: set<nat>, x: string, at: nat)
    requires Shows(frames, env, used) && Numbered(env, at)
    ensures Shows(Mark(frames, x), env, used + MeantBy(env, x))
    decreases |env|
  {
    hide FrameShows, Ids, IsDistinct, Shows;
    if env == [] {
      NothingShows(frames, env, used);
    } else {
      SizesAgree(frames, env, used);
      var top := |env| - 1;
      var rest, outer := frames[..top], env[..top];
      ShowsApart(frames, env, used);
      MarkFirstShows(frames[top], env[top], used, x);
      FirstIsThere(env[top], x);
      if FirstOf(env[top], x).Some? {
        var p := FirstOf(env[top], x).value;
        ShowsMore(rest, outer, used, p);
        assert Mark(frames, x)[..top] == rest;
        ShowsApart(Mark(frames, x), env, used + {p});
      } else {
        MarkShows(rest, outer, used, x, at);
        LookupFinds(outer, x);
        if Lookup(outer, x).Some? { FrameShowsMore(frames[top], env[top], used, Lookup(outer, x).value); }
        assert used + {} == used;
        SizesAgree(Mark(rest, x), outer, used + MeantBy(outer, x));
        assert Mark(frames, x)[..top] == Mark(rest, x);
        ShowsApart(Mark(frames, x), env, used + MeantBy(env, x));
      }
    }
  }

  lemma SizesAgree(frames: seq<Frame>, env: Frames, used: set<nat>)
    requires Shows(frames, env, used)
    ensures |frames| == |env|
  {
  }

  lemma NothingShows(frames: seq<Frame>, env: Frames, used: set<nat>)
    requires Shows(frames, env, used) && env == []
    ensures frames == [] && Mark(frames, "") == [] && forall u :: Shows([], [], u)
  {
  }

  // ---------- Visiting keeps the two together ----------

  ghost predicate Tracks(st: State, env: Frames, used: set<nat>, at: nat) {
    Shows(st.frames, env, used) && Numbered(env, at) && Between(used, 0, at)
  }

  /** The declarations in a node whose frame is left within it. */
  function Closed(n: Node, at: nat): set<nat> {
    Declared(n, at) - Ids(Left(n, at))
  }

  function ClosedIn(ns: seq<Node>, at: nat): set<nat> {
    DeclaredIn(ns, at) - Ids(LeftIn(ns, at))
  }

  lemma ExtendByNothing(env: Frames)
    requires env != []
    ensures Extend(env, []) == env
  {
    assert env[|env| - 1] + [] == env[|env| - 1];
  }

  lemma ReferTracks(st: State, env: Frames, used: set<nat>, x: string, at: nat)
    requires Tracks(st, env, used, at)
    ensures Tracks(Run(st, [Refer(x)]), env, used + MeantBy(env, x), at + 1)
    ensures Run(st, [Refer(x)]).hasError == st.hasError
  {
    hide Shows, Numbered, Run, Mark;
    RunOne(st, Refer(x));
    MarkShows(st.frames, env, used, x, at);
    NumberedBelow(env, at);
    NumberedOn(env, at, at + 1);
    LookupFinds(env, x);
  }

  lemma DeclareTracks(st: State, env: Frames, used: set<nat>, x: string, id: nat, at: nat)
    requires Tracks(st, env, used, at) && env != [] && id < at && id !in AllIds(env) && id !in used
    ensures Tracks(Run(st, [Declare(x)]), Extend(env, [Binding(x, id)]), used, at)
    ensures Run(st, [Declare(x)]).hasError == st.hasError
  {
    hide Numbered, Run, AllIds, FrameShows;
    RunOne(st, Declare(x));
    var top := |env| - 1;
    DeclareNumbered(env, x, id, at);
    DeclareFrameShows(st.frames[top], env[top], used, x, id);
  }

  lemma DeclareNumbered(env: Frames, x: string, id: nat, at: nat)
    requires env != [] && Numbered(env, at) && id < at && id !in AllIds(env)
    ensures Numbered(Extend(env, [Binding(x, id)]), at)
  {
    hide IsDistinct, Ids;
    var top := |env| - 1;
    IdsOfOne(x, id);
    OneIsDistinct(x, id);
    IdsOfBoth(env[top], [Binding(x, id)]);
    DistinctTogether(env[top], [Binding(x, id)]);
    assert Extend(env, [Binding(x, id)])[..top] == env[..top];
  }

  lemma DeclareFrameShows(f: Frame, bs: seq<Binding>, used: set<nat>, x: string, id: nat)
    requires FrameShows(f, bs, used) && id !in used
    ensures FrameShows(f + [Decl(x, false)], bs + [Binding(x, id)], used)
  {
  }

  lemma TracksOn(st: State, env: Frames, used: set<nat>, at: nat, to: nat)
    requires Tracks(st, env, used, at) && at <= to
    ensures Tracks(st, env, used, to)
  {
    NumberedOn(env, at, to);
  }

  lemma {:induction false} ParametersTrack(st: State, env: Frames, used: set<nat>, names: seq<string>, at: nat)
    requires Tracks(st, env, used, at) && env != []
    ensures Tracks(Run(st, Declarations(names)), Extend(env, Parameters(names, at)), used, at + |names|)
    ensures Run(st, Declarations(names)).hasError == st.hasError
    decreases names, 1
  {
    hide Tracks, Numbered, AllIds;
    if names == [] {
      ExtendByNothing(env);
      assert Parameters(names, at) == [];
    } else {
      OneMoreParameter(st, env, used, names, at);
    }
  }

  lemma {:induction false} OneMoreParameter(st: State, env: Frames, used: set<nat>, names: seq<string>, at: nat)
    requires Tracks(st, env, used, at) && env != [] && names != []
    ensures Tracks(Run(st, Declarations(names)), Extend(env, Parameters(names, at)), used, at + |names|)
    ensures Run(st, Declarations(names)).hasError == st.hasError
    decreases names, 0
  {
    hide Tracks, Numbered, AllIds, Run, Declarations, Extend, Parameters, Ids;
    var n := |names| - 1;
    var first, x := names[..n], names[n];
    var before := Parameters(first, at);
    var env1, st1 := Extend(env, before), Run(st, Declarations(first));
    ParametersTrack(st, env, used, first, at);
    TracksOn(st1, env1, used, at + n, at + n + 1);
    ParametersBetween(first, at);
    ExtendSize(env, before);
    Fresh(st, env, used, at, before, at + n);
    DeclareTracks(st1, env1, used, x, at + n, at + n + 1);
    RunInSequence(st, Declarations(first), [Declare(x)]);
    ExtendTwice(env, before, [Binding(x, at + n)]);
    LastParameter(names, at);
  }

  lemma LastParameter(names: seq<string>, at: nat)
    requires names != []
    ensures var n := |names| - 1;
            && Parameters(names, at) == Parameters(names[..n], at) + [Binding(names[n], at + n)]
            && Declarations(names) == Declarations(names[..n]) + [Declare(names[n])]
  {
  }

  /** A number that is none of those in use. */
  lemma Fresh(st: State, env: Frames, used: set<nat>, at: nat, bs: seq<Binding>, id: nat)
    requires Tracks(st, env, used, at) && env != [] && at <= id && id !in Ids(bs)
    ensures id !in AllIds(Extend(env, bs)) && id !in used
  {
    NumberedBelow(env, at);
    AllIdsExtended(env, bs);
  }

  lemma EnterTracks(st: State, env: Frames, used: set<nat>, at: nat)
    requires Tracks(st, env, used, at)
    ensures Tracks(Step(st, Enter), env + [[]], used, at) && Step(st, Enter).hasError == st.hasError
  {
    hide Numbered;
    IdsOfNone();
    NoneIsDistinct();
    OpenNumbered(env, [], at, at);
  }

  lemma ExitTracks(st: State, env: Frames, bs: seq<Binding>, used: set<nat>, at: nat)
    requires Tracks(st, env + [bs], used, at)
    ensures Tracks(Step(st, Exit), env, used, at)
    ensures Step(st, Exit).hasError <==> st.hasError || !(Ids(bs) <= used)
  {
    assert (env + [bs])[..|env|] == env;
    assert FrameShows(st.frames[|env|], (env + [bs])[|env|], used);
    FrameIsUsed(st.frames[|env|], bs, used);
  }

  lemma FrameIsUsed(f: Frame, bs: seq<Binding>, used: set<nat>)
    requires FrameShows(f, bs, used)
    ensures AllUsed(f) <==> Ids(bs) <= used
  {
    forall i | 0 <= i < |bs|
      ensures bs[i].id in Ids(bs)
    {
    }
  }

  lemma {:induction false} NodeTracks(st: State, n: Node, at: nat, env: Frames, used: set<nat>)
    requires env != [] && Tracks(st, env, used, at)
    ensures Tracks(Run(st, Events(n)), Extend(env, Left(n, at)), used + Meant(n, at, env), at + Size(n))
    ensures Run(st, Events(n)).hasError <==> st.hasError || !(Closed(n, at) <= Meant(n, at, env))
    decreases n, 0
  {
    hide Tracks, Run, Ids, AllIds;
    match n
    case Reference(x) =>
      ReferTracks(st, env, used, x, at);
      ExtendByNothing(env);
    case Plain(ns) =>
      TracksOn(st, env, used, at, at + 1);
      ListTracks(st, ns, at + 1, env, used);
    case Block(ns) => BlockTracks(st, n, ns, at, env, used);
    case For(ns) => BlockTracks(st, n, ns, at, env, used);
    case VarDecl(x, None) =>
      TracksOn(st, env, used, at, at + 1);
      IdsOfOne(x, at);
      IsFresh(st, env, used, at);
      DeclareTracks(st, env, used, x, at, at + 1);
      assert used + {} == used;
    case VarDecl(x, Some(e)) => InitialisedTracks(st, n, at, env, used);
    case FnDecl(_, _, _) => FunctionTracks(st, n, at, env, used);
  }

  lemma IsFresh(st: State, env: Frames, used: set<nat>, at: nat)
    requires Tracks(st, env, used, at)
    ensures at !in AllIds(env) && at !in used
  {
    NumberedBelow(env, at);
  }

  lemma {:induction false} BlockTracks(st: State, n: Node, ns: seq<Node>, at: nat, env: Frames, used: set<nat>)
    requires env != [] && Tracks(st, env, used, at) && (n == Block(ns) || n == For(ns))
    ensures Tracks(Run(st, Events(n)), Extend(env, Left(n, at)), used + Meant(n, at, env), at + Size(n))
    ensures Run(st, Events(n)).hasError <==> st.hasError || !(Closed(n, at) <= Meant(n, at, env))
    decreases ns, 3
  {
    hide Tracks, Run, Ids, AllIds, EventsOf, Events, Left, Meant, MeantIn, Declared, DeclaredIn, Size, SizeOf;
    BlockUnfolds(n, ns, at, env);
    TracksOn(st, env, used, at, at + 1);
    FrameTracks(st, [], ns, at + 1, env, used);
    ExtendByNothing(env);
    IdsOfNone();
  }

  lemma BlockUnfolds(n: Node, ns: seq<Node>, at: nat, env: Frames)
    requires env != [] && (n == Block(ns) || n == For(ns))
    ensures Events(n) == [Enter] + (Declarations([]) + EventsOf(ns)) + [Exit] && Parameters([], at + 1) == []
    ensures Left(n, at) == [] && Declared(n, at) == DeclaredIn(ns, at + 1) && Size(n) == 1 + SizeOf(ns)
    ensures Meant(n, at, env) == MeantIn(ns, at + 1, env + [[]])
  {
    assert Declarations([]) + EventsOf(ns) == EventsOf(ns);
  }

  lemma {:induction false} InitialisedTracks(st: State, n: Node, at: nat, env: Frames, used: set<nat>)
    requires env != [] && Tracks(st, env, used, at) && n.VarDecl? && n.init.Some?
    ensures Tracks(Run(st, Events(n)), Extend(env, Left(n, at)), used + Meant(n, at, env), at + Size(n))
    ensures Run(st, Events(n)).hasError <==> st.hasError || !(Closed(n, at) <= Meant(n, at, env))
    decreases n.init, 0
  {
    hide Tracks, Run, Ids, AllIds;
    var e, x := n.init.value, n.name;
    IsFresh(st, env, used, at);
    TracksOn(st, env, used, at, at + 1);
    NodeTracks(st, e, at + 1, env, used);
    DeclaredBetween(e, at + 1);
    LeftIsDeclared(e, at + 1);
    MeantIsDeclared(e, at + 1, env);
    AllIdsExtended(env, Left(e, at + 1));
    var st1 := Run(st, Events(e));
    var env1 := Extend(env, Left(e, at + 1));
    DeclareTracks(st1, env1, used + Meant(e, at + 1, env), x, at, at + 1 + Size(e));
    RunInSequence(st, Events(e), [Declare(x)]);
    ExtendTwice(env, Left(e, at + 1), [Binding(x, at)]);
    IdsOfBoth(Left(e, at + 1), [Binding(x, at)]);
    IdsOfOne(x, at);
    assert Closed(n, at) == Closed(e, at + 1);
  }

  lemma {:induction false} FunctionTracks(st: State, n: Node, at: nat, env: Frames, used: set<nat>)
    requires env != [] && Tracks(st, env, used, at) && n.FnDecl?
    ensures Tracks(Run(st, Events(n)), Extend(env, Left(n, at)), used + Meant(n, at, env), at + Size(n))
    ensures Run(st, Events(n)).hasError <==> st.hasError || !(Closed(n, at) <= Meant(n, at, env))
    decreases n.parts, 3
  {
    hide Tracks, Run, Ids, AllIds, EventsOf, Events, Left, Meant, MeantIn, Declared, DeclaredIn, Size, SizeOf, Extend;
    var x, params, ns := n.name, n.params, n.parts;
    var inner := Declarations(params) + EventsOf(ns);
    FunctionUnfolds(n, at, env);
    IsFresh(st, env, used, at);
    TracksOn(st, env, used, at, at + 1);
    DeclareTracks(st, env, used, x, at, at + 1);
    var outer := Extend(env, [Binding(x, at)]);
    FrameTracks(Run(st, [Declare(x)]), params, ns, at + 1, outer, used);
    RunInSequence(st, [Declare(x)], [Enter] + inner + [Exit]);
    FunctionCloses(n, at);
  }

  lemma FunctionUnfolds(n: Node, at: nat, env: Frames)
    requires env != [] && n.FnDecl?
    ensures Events(n) == [Declare(n.name)] + ([Enter] + (Declarations(n.params) + EventsOf(n.parts)) + [Exit])
    ensures Left(n, at) == [Binding(n.name, at)] && Size(n) == 1 + |n.params| + SizeOf(n.parts)
    ensures Meant(n, at, env) ==
              MeantIn(n.parts, at + 1 + |n.params|,
                      Extend(env, [Binding(n.name, at)]) + [Parameters(n.params, at + 1)])
  {
  }

  lemma FunctionCloses(n: Node, at: nat)
    requires n.FnDecl?
    ensures Closed(n, at) == Ids(Parameters(n.params, at + 1)) + DeclaredIn(n.parts, at + 1 + |n.params|)
  {
    hide Ids, DeclaredIn;
    IdsOfOne(n.name, at);
    ParametersBetween(n.params, at + 1);
    DeclaredInBetween(n.parts, at + 1 + |n.params|);
  }

  /** A frame of its own, with parameters declared in it first. */
  lemma {:induction false} FrameTracks(st: State, params: seq<string>, ns: seq<Node>, at: nat, env: Frames,
                                       used: set<nat>)
    requires Tracks(st, env, used, at)
    ensures
      var to := at + |params|;
      var st1 := Run(st, [Enter] + (Declarations(params) + EventsOf(ns)) + [Exit]);
      var meant := MeantIn(ns, to, env + [Parameters(params, at)]);
      && Tracks(st1, env, used + meant, to + SizeOf(ns))
      && (st1.hasError <==> st.hasError || !(Ids(Parameters(params, at)) + DeclaredIn(ns, to) <= meant))
    decreases ns, 2
  {
    hide Tracks, Run, Ids, AllIds, Step;
    var to := at + |params|;
    var ps := Parameters(params, at);
    var inner := env + [ps];
    var st1 := Step(st, Enter);
    EnterTracks(st, env, used, at);
    ParametersTrack(st1, env + [[]], used, params, at);
    assert [] + ps == ps;
    assert Extend(env + [[]], ps) == inner;
    var st2 := Run(st1, Declarations(params));
    ListTracks(st2, ns, to, inner, used);
    var st3 := Run(st2, EventsOf(ns));
    RunInSequence(st1, Declarations(params), EventsOf(ns));
    RunFramed(st, Declarations(params) + EventsOf(ns));
    var bs := ps + LeftIn(ns, to);
    assert Extend(inner, LeftIn(ns, to)) == env + [bs];
    ExitTracks(st3, env, bs, used + MeantIn(ns, to, inner), to + SizeOf(ns));
    IdsOfBoth(ps, LeftIn(ns, to));
    ParametersBetween(params, at);
    DeclaredInBetween(ns, to);
    LeftInIsDeclared(ns, to);
    UsedIsBefore(st, env, used, at);
  }

  lemma UsedIsBefore(st: State, env: Frames, used: set<nat>, at: nat)
    requires Tracks(st, env, used, at)
    ensures Between(used, 0, at)
  {
  }

  lemma {:induction false} ListTracks(st: State, ns: seq<Node>, at: nat, env: Frames, used: set<nat>)
    requires env != [] && Tracks(st, env, used, at)
    ensures Tracks(Run(st, EventsOf(ns)), Extend(env, LeftIn(ns, at)), used + MeantIn(ns, at, env), at + SizeOf(ns))
    ensures Run(st, EventsOf(ns)).hasError <==> st.hasError || !(ClosedIn(ns, at) <= MeantIn(ns, at, env))
    decreases ns, 1
  {
    hide Tracks, Ids, AllIds;
    if ns == [] {
      ExtendByNothing(env);
      assert used + {} == used;
    } else {
      ListStep(st, ns, at, env, used);
    }
  }

  lemma {:induction false} ListStep(st: State, ns: seq<Node>, at: nat, env: Frames, used: set<nat>)
    requires env != [] && Tracks(st, env, used, at) && ns != []
    ensures Tracks(Run(st, EventsOf(ns)), Extend(env, LeftIn(ns, at)), used + MeantIn(ns, at, env), at + SizeOf(ns))
    ensures Run(st, EventsOf(ns)).hasError <==> st.hasError || !(ClosedIn(ns, at) <= MeantIn(ns, at, env))
    decreases ns, 0
  {
    hide Tracks, Ids, AllIds, Run, EventsOf, Events, LeftIn, Left, MeantIn, Meant, SizeOf, Size, ClosedIn, Closed;
    hide Extend, Declared, DeclaredIn;
    var n := |ns| - 1;
    var a, b, to := ns[..n], ns[n], at + SizeOf(ns[..n]);
    ListTracks(st, a, at, env, used);
    var st1, env1 := Run(st, EventsOf(a)), Extend(env, LeftIn(a, at));
    var used1 := used + MeantIn(a, at, env);
    ExtendSize(env, LeftIn(a, at));
    NodeTracks(st1, b, to, env1, used1);
    RunInSequence(st, EventsOf(a), Events(b));
    ExtendTwice(env, LeftIn(a, at), Left(b, to));
    ListUnfolds(ns, at, env);
    ClosedTogether(st, a, b, at, env, used);
    assert used1 + Meant(b, to, env1) == used + MeantIn(ns, at, env);
  }

  lemma ExtendSize(env: Frames, bs: seq<Binding>)
    requires env != []
    ensures |Extend(env, bs)| == |env|
  {
  }

  lemma ListUnfolds(ns: seq<Node>, at: nat, env: Frames)
    requires ns != [] && env != []
    ensures
      var a, b := ns[..|ns| - 1], ns[|ns| - 1];
      var to := at + SizeOf(a);
      && ns == a + [b] && EventsOf(ns) == EventsOf(a) + Events(b) && at + SizeOf(ns) == to + Size(b)
      && LeftIn(ns, at) == LeftIn(a, at) + Left(b, to)
      && DeclaredIn(ns, at) == DeclaredIn(a, at) + Declared(b, to)
      && MeantIn(ns, at, env) == MeantIn(a, at, env) + Meant(b, to, Extend(env, LeftIn(a, at)))
  {
  }

  /** What is closed in the one part is meant only there. */
  lemma ClosedTogether(st: State, a: seq<Node>, b: Node, at: nat, env: Frames, used: set<nat>)
    requires env != [] && Tracks(st, env, used, at)
    ensures var to := at + SizeOf(a);
            var m1, m2 := MeantIn(a, at, env), Meant(b, to, Extend(env, LeftIn(a, at)));
            ClosedIn(a + [b], at) <= m1 + m2 <==> ClosedIn(a, at) <= m1 && Closed(b, to) <= m2
  {
    hide Ids, AllIds, Tracks, LeftIn, Left, MeantIn, Meant, DeclaredIn, Declared, SizeOf, Size, Between, Extend;
    var to := at + SizeOf(a);
    var ns := a + [b];
    assert ns[..|ns| - 1] == a;
    ListUnfolds(ns, at, env);
    NumbersBelow(st, env, used, at);
    DeclaredInBetween(a, at);
    DeclaredBetween(b, to);
    LeftInIsDeclared(a, at);
    LeftIsDeclared(b, to);
    MeantInIsDeclared(a, at, env);
    AllIdsExtended(env, LeftIn(a, at));
    ExtendSize(env, LeftIn(a, at));
    MeantIsDeclared(b, to, Extend(env, LeftIn(a, at)));
    IdsOfBoth(LeftIn(a, at), Left(b, to));
    var d1, l1, d2, l2 := DeclaredIn(a, at), Ids(LeftIn(a, at)), Declared(b, to), Ids(Left(b, to));
    PartsApart(AllIds(env), d1, l1, MeantIn(a, at, env), d2, l2, Meant(b, to, Extend(env, LeftIn(a, at))),
               at, to, to + Size(b));
    assert ClosedIn(ns, at) == d1 + d2 - (l1 + l2);
  }

  lemma PartsApart(around: set<nat>, d1: set<nat>, l1: set<nat>, m1: set<nat>,
                   d2: set<nat>, l2: set<nat>, m2: set<nat>, at: nat, to: nat, end: nat)
    requires Between(around, 0, at) && Between(d1, at, to) && Between(d2, to, end) && l1 <= d1 && l2 <= d2
    requires at <= to && m1 <= around + d1 && m2 <= around + l1 + d2
    ensures d1 + d2 - (l1 + l2) <= m1 + m2 <==> d1 - l1 <= m1 && d2 - l2 <= m2
  {
    var c1, c2 := d1 - l1, d2 - l2;
    assert d1 + d2 - (l1 + l2) == c1 + c2;
    assert c1 !! m2 && c2 !! m1;
    SubsetsApart(c1, c2, m1, m2);
  }

  lemma SubsetsApart(a: set<nat>, b: set<nat>, m: set<nat>, n: set<nat>)
    requires a !! n && b !! m
    ensures a + b <= m + n <==> a <= m && b <= n
  {
    if a + b <= m + n {
      forall p | p in a
        ensures p in m
      {
        assert p in a + b;
      }
      forall p | p in b
        ensures p in n
      {
        assert p in a + b;
      }
    }
  }

  lemma NumbersBelow(st: State, env: Frames, used: set<nat>, at: nat)
    requires Tracks(st, env, used, at)
    ensures Between(AllIds(env), 0, at)
  {
    NumberedBelow(env, at);
  }

  /** The checker reports an error if and only if some declaration of the program is meant by none of
      its references, as the rule on the tree has it. */
  lemma VerdictIsResolution(ns: seq<Node>)
    ensures !Run(State([], false), Program(ns)).hasError <==> EveryDeclarationIsMeant(ns)
  {
    hide Ids, AllIds, Run;
    var st := State([], false);
    FrameTracks(st, [], ns, 0, [], {});
    IdsOfNone();
    assert Parameters([], 0) == [];
    var none: Frames := [];
    assert none + [[]] == [[]];
    assert [Enter] + (Declarations([]) + EventsOf(ns)) + [Exit] == Program(ns);
  }
}
