/** The lexical rule, on the events of a program: which declaration a reference means. The stack of
    frames decides exactly whether every declaration is meant by some reference. */
module LexicalUse {
  import opened Unused

  // ---------- The rule ----------

  /** How many frames are open before event i. */
  function Depth(es: seq<Event>, i: nat): int
    requires i <= |es|
  {
    if i == 0 then 0
    else Depth(es, i - 1) + (match es[i - 1] case Enter => 1 case Exit => -1 case _ => 0)
  }

  /** Before event i, the frame of the declaration at d has not been left. */
  predicate OpenAt(es: seq<Event>, d: nat, i: nat)
    requires i <= |es|
  {
    d < i && es[d].Declare? && forall j :: d < j <= i ==> Depth(es, j) >= Depth(es, d)
  }

  /** The reference at r means the first declaration of its name in the innermost open frame that
      has one. */
  predicate Resolves(es: seq<Event>, r: nat, d: nat)
    requires r < |es|
  {
    && es[r].Refer? && OpenAt(es, d, r) && es[d].name == es[r].name
    && forall d2 :: 0 <= d2 < r && OpenAt(es, d2, r) && es[d2].name == es[r].name ==>
         Depth(es, d2) < Depth(es, d) || (Depth(es, d2) == Depth(es, d) && d <= d2)
  }

  predicate UsedBefore(es: seq<Event>, d: nat, i: nat)
    requires i <= |es|
  {
    exists r :: 0 <= r < i && Resolves(es, r, d)
  }

  predicate EveryDeclarationIsUsed(es: seq<Event>) {
    forall d :: 0 <= d < |es| && es[d].Declare? ==> UsedBefore(es, d, |es|)
  }

  /** No frame is left that was not entered, and all is declared inside a frame. */
  predicate Nested(es: seq<Event>) {
    && (forall i :: 0 <= i <= |es| ==> Depth(es, i) >= 0)
    && (forall i :: 0 <= i < |es| && (es[i].Declare? || es[i].Exit?) ==> Depth(es, i) >= 1)
  }

  // ---------- Where the declarations of the open frames are ----------

  function Positions(es: seq<Event>, i: nat): (ps: seq<seq<nat>>)
    requires i <= |es| && Nested(es)
    ensures |ps| == Depth(es, i)
  {
    if i == 0 then []
    else
      var ps := Positions(es, i - 1);
      var top := |ps| - 1;
      match es[i - 1]
      case Enter => ps + [[]]
      case Exit => ps[..top]
      case Declare(_) => ps[top := ps[top] + [i - 1]]
      case Refer(_) => ps
  }

  ghost predicate Located(es: seq<Event>, i: nat, ps: seq<seq<nat>>)
    requires i <= |es|
  {
    && |ps| == Depth(es, i)
    && (forall k, j :: 0 <= k < |ps| && 0 <= j < |ps[k]| ==> OpenAt(es, ps[k][j], i) && Depth(es, ps[k][j]) == k + 1)
    && (forall d :: 0 <= d < i && OpenAt(es, d, i) ==> 1 <= Depth(es, d) <= |ps| && d in ps[Depth(es, d) - 1])
    && (forall k, j, l :: 0 <= k < |ps| && 0 <= j < l < |ps[k]| ==> ps[k][j] < ps[k][l])
  }

  /** OpenAt, one event later. */
  ghost predicate Shifts(es: seq<Event>, i: nat)
    requires 0 < i <= |es|
  {
    forall d :: 0 <= d < i ==>
      (OpenAt(es, d, i) <==>
        es[d].Declare? && (d == i - 1 || OpenAt(es, d, i - 1)) && Depth(es, i) >= Depth(es, d))
  }

  lemma OpenShifts(es: seq<Event>, i: nat)
    requires 0 < i <= |es|
    ensures Shifts(es, i)
  {
    hide Depth;
  }

  lemma {:induction false} PositionsAreLocated(es: seq<Event>, i: nat)
    requires i <= |es| && Nested(es)
    ensures Located(es, i, Positions(es, i))
  {
    hide Located, OpenAt;
    if i == 0 {
      NothingLocated(es);
    } else {
      PositionsAreLocated(es, i - 1);
      OpenShifts(es, i);
      match es[i - 1]
      case Enter => LocateEnter(es, i, Positions(es, i - 1));
      case Exit => LocateExit(es, i, Positions(es, i - 1));
      case Declare(_) => LocateDeclare(es, i, Positions(es, i - 1));
      case Refer(_) => LocateRefer(es, i, Positions(es, i - 1));
    }
  }

  lemma NothingLocated(es: seq<Event>)
    ensures Located(es, 0, [])
  {
  }

  lemma LocateEnter(es: seq<Event>, i: nat, ps: seq<seq<nat>>)
    requires 0 < i <= |es| && Located(es, i - 1, ps) && Shifts(es, i) && es[i - 1].Enter?
    ensures Located(es, i, ps + [[]])
  {
    assert Depth(es, i) == Depth(es, i - 1) + 1;
    hide Depth, OpenAt;
  }

  lemma LocateRefer(es: seq<Event>, i: nat, ps: seq<seq<nat>>)
    requires 0 < i <= |es| && Located(es, i - 1, ps) && Shifts(es, i) && es[i - 1].Refer?
    ensures Located(es, i, ps)
  {
  }

  lemma LocateExit(es: seq<Event>, i: nat, ps: seq<seq<nat>>)
    requires 0 < i <= |es| && Located(es, i - 1, ps) && Shifts(es, i) && es[i - 1].Exit? && ps != []
    ensures Located(es, i, ps[..|ps| - 1])
  {
  }

  lemma LocateDeclare(es: seq<Event>, i: nat, ps: seq<seq<nat>>)
    requires 0 < i <= |es| && Located(es, i - 1, ps) && Shifts(es, i) && es[i - 1].Declare? && ps != []
    ensures Located(es, i, ps[|ps| - 1 := ps[|ps| - 1] + [i - 1]])
  {
  }

  // ---------- The frames against the rule ----------

  /** The frames hold the open declarations, each marked exactly if a reference so far means it. */
  ghost predicate Matches(es: seq<Event>, i: nat, ps: seq<seq<nat>>, frames: seq<Frame>)
    requires i <= |es|
  {
    && |frames| == |ps|
    && (forall k :: 0 <= k < |ps| ==> |frames[k]| == |ps[k]|)
    && (forall k, j :: 0 <= k < |ps| && 0 <= j < |ps[k]| ==> Holds(es, i, ps[k][j], frames[k][j]))
  }

  ghost predicate Holds(es: seq<Event>, i: nat, d: nat, decl: Decl)
    requires i <= |es|
  {
    d < |es| && es[d].Declare? && decl.name == es[d].name && (decl.used <==> UsedBefore(es, d, i))
  }

  lemma UseShifts(es: seq<Event>, d: nat, i: nat)
    requires 0 < i <= |es|
    ensures UsedBefore(es, d, i) <==> UsedBefore(es, d, i - 1) || Resolves(es, i - 1, d)
  {
    hide Resolves;
  }

  /** The target of a mark is the declaration that the rule gives. */
  lemma TargetResolves(es: seq<Event>, i: nat, ps: seq<seq<nat>>, frames: seq<Frame>, s: nat, j: nat, k: nat, l: nat)
    requires 0 < i <= |es| && es[i - 1].Refer? && Located(es, i - 1, ps) && Matches(es, i - 1, ps, frames)
    requires IsTarget(frames, es[i - 1].name, s, j) && k < |ps| && l < |ps[k]|
    ensures Resolves(es, i - 1, ps[k][l]) <==> k == s && l == j
  {
    hide Depth, UsedBefore;
    var r, x := i - 1, es[i - 1].name;
    var p := ps[s][j];
    assert Holds(es, r, p, frames[s][j]);
    forall d | 0 <= d < r && OpenAt(es, d, r) && es[d].name == x
      ensures Depth(es, d) < Depth(es, p) || (Depth(es, d) == Depth(es, p) && p <= d)
    {
      var m := OpenIsNamed(es, r, ps, frames, d);
    }
    assert Resolves(es, r, p);
  }

  lemma NoTarget(es: seq<Event>, i: nat, ps: seq<seq<nat>>, frames: seq<Frame>, d: nat)
    requires 0 < i <= |es| && es[i - 1].Refer? && Located(es, i - 1, ps) && Matches(es, i - 1, ps, frames)
    requires forall t :: 0 <= t < |frames| ==> !Names(frames[t], es[i - 1].name)
    ensures !Resolves(es, i - 1, d)
  {
    hide Depth, UsedBefore;
    forall e | 0 <= e < i - 1 && OpenAt(es, e, i - 1)
      ensures es[e].name != es[i - 1].name
    {
      var m := OpenIsNamed(es, i - 1, ps, frames, e);
    }
  }

  /** An open declaration has its name in the frame of its depth. */
  lemma OpenIsNamed(es: seq<Event>, i: nat, ps: seq<seq<nat>>, frames: seq<Frame>, d: nat) returns (m: nat)
    requires i <= |es| && Located(es, i, ps) && Matches(es, i, ps, frames) && OpenAt(es, d, i)
    ensures var t := Depth(es, d) - 1;
            0 <= t < |ps| && |frames| == |ps| && m < |ps[t]| && ps[t][m] == d
            && |frames[t]| == |ps[t]| && frames[t][m].name == es[d].name && Names(frames[t], es[d].name)
  {
    hide Depth, UsedBefore;
    var t := Depth(es, d) - 1;
    m :| 0 <= m < |ps[t]| && ps[t][m] == d;
    assert Holds(es, i, d, frames[t][m]);
  }

  lemma MatchRefer(es: seq<Event>, i: nat, ps: seq<seq<nat>>, frames: seq<Frame>)
    requires 0 < i <= |es| && es[i - 1].Refer? && Located(es, i - 1, ps) && Matches(es, i - 1, ps, frames)
    ensures Matches(es, i, ps, Mark(frames, es[i - 1].name))
  {
    hide Depth, UsedBefore, Resolves, Located, Mark;
    var x := es[i - 1].name;
    if s, j :| IsTarget(frames, x, s, j) {
      MarkMarks(frames, x, s, j);
      forall k, l | 0 <= k < |ps| && 0 <= l < |ps[k]|
        ensures Holds(es, i, ps[k][l], Mark(frames, x)[k][l])
      {
        assert Holds(es, i - 1, ps[k][l], frames[k][l]);
        UseShifts(es, ps[k][l], i);
        TargetResolves(es, i, ps, frames, s, j, k, l);
      }
    } else {
      NamesHaveATarget(frames, x);
      MarkNothing(frames, x);
      forall k, l | 0 <= k < |ps| && 0 <= l < |ps[k]|
        ensures Holds(es, i, ps[k][l], frames[k][l])
      {
        assert Holds(es, i - 1, ps[k][l], frames[k][l]);
        UseShifts(es, ps[k][l], i);
        NoTarget(es, i, ps, frames, ps[k][l]);
      }
    }
  }

  lemma {:induction false} FirstNamed(f: Frame, x: string) returns (i: nat)
    requires Names(f, x)
    ensures i < |f| && f[i].name == x && forall j :: 0 <= j < i ==> f[j].name != x
  {
    if f[0].name == x {
      i := 0;
    } else {
      i := FirstNamed(f[1..], x);
      i := i + 1;
    }
  }

  lemma {:induction false} NamesHaveATarget(frames: seq<Frame>, x: string)
    requires forall s: nat, j: nat :: !IsTarget(frames, x, s, j)
    ensures forall t :: 0 <= t < |frames| ==> !Names(frames[t], x)
    decreases |frames|
  {
    if frames != [] {
      var top := |frames| - 1;
      if Names(frames[top], x) {
        var i := FirstNamed(frames[top], x);
        assert IsTarget(frames, x, top, i);
      } else {
        forall s: nat, j: nat
          ensures !IsTarget(frames[..top], x, s, j)
        {
          assert IsTarget(frames[..top], x, s, j) ==> IsTarget(frames, x, s, j);
        }
        NamesHaveATarget(frames[..top], x);
      }
    }
  }

  /** Other events mean nothing, so the marks of the declarations that stay are right as they are. */
  lemma MatchOthers(es: seq<Event>, i: nat, ps: seq<seq<nat>>, frames: seq<Frame>)
    requires 0 < i <= |es| && !es[i - 1].Refer? && Matches(es, i - 1, ps, frames)
    ensures Matches(es, i, ps, frames)
  {
    hide UsedBefore;
    forall k, l | 0 <= k < |ps| && 0 <= l < |ps[k]|
      ensures Holds(es, i, ps[k][l], frames[k][l])
    {
      assert Holds(es, i - 1, ps[k][l], frames[k][l]);
      UseShifts(es, ps[k][l], i);
    }
  }

  /** What is declared last has not been meant yet. */
  lemma MatchDeclare(es: seq<Event>, i: nat, ps: seq<seq<nat>>, frames: seq<Frame>)
    requires 0 < i <= |es| && es[i - 1].Declare? && Matches(es, i - 1, ps, frames) && ps != []
    ensures var top := |ps| - 1;
            Matches(es, i, ps[top := ps[top] + [i - 1]], frames[top := frames[top] + [Decl(es[i - 1].name, false)]])
  {
    MatchOthers(es, i, ps, frames);
    assert !UsedBefore(es, i - 1, i);
    hide UsedBefore;
    assert Holds(es, i, i - 1, Decl(es[i - 1].name, false));
  }

  // ---------- The verdict ----------

  /** A declaration whose frame has been left without any use. */
  predicate Abandoned(es: seq<Event>, d: nat, i: nat)
    requires i <= |es|
  {
    d < i && es[d].Declare? && !OpenAt(es, d, i) && !UsedBefore(es, d, i)
  }

  lemma AbandonedShifts(es: seq<Event>, d: nat, i: nat)
    requires 0 < i <= |es| && Shifts(es, i)
    ensures Abandoned(es, d, i) <==>
              || Abandoned(es, d, i - 1)
              || (es[i - 1].Exit? && OpenAt(es, d, i - 1) && !OpenAt(es, d, i) && !UsedBefore(es, d, i - 1))
  {
    UseShifts(es, d, i);
    hide UsedBefore;
  }

  ghost predicate SomeAbandoned(es: seq<Event>, i: nat)
    requires i <= |es|
  {
    exists d :: 0 <= d < i && Abandoned(es, d, i)
  }

  lemma ErrorAtExit(es: seq<Event>, i: nat, ps: seq<seq<nat>>, frames: seq<Frame>)
    requires 0 < i <= |es| && es[i - 1].Exit? && ps != []
    requires Located(es, i - 1, ps) && Located(es, i, ps[..|ps| - 1]) && Matches(es, i - 1, ps, frames)
    ensures SomeAbandoned(es, i) <==> SomeAbandoned(es, i - 1) || !AllUsed(frames[|ps| - 1])
  {
    hide UsedBefore, OpenAt, Depth;
    OpenShifts(es, i);
    var top := |ps| - 1;
    forall d | 0 <= d < i
      ensures Abandoned(es, d, i) <==>
                || Abandoned(es, d, i - 1)
                || (OpenAt(es, d, i - 1) && !OpenAt(es, d, i) && !UsedBefore(es, d, i - 1))
    {
      AbandonedShifts(es, d, i);
    }
    if d :| 0 <= d < i && Abandoned(es, d, i) && !Abandoned(es, d, i - 1) {
      var m := OpenIsNamed(es, i - 1, ps, frames, d);
      assert Holds(es, i - 1, d, frames[Depth(es, d) - 1][m]);
      StaysOpen(es, i, d);
    }
    var r := i - 1;
    if !AllUsed(frames[top]) {
      var m :| 0 <= m < |frames[top]| && !frames[top][m].used;
      UnusedIsAbandoned(es, i, ps, frames, m);
    }
    if d :| 0 <= d < r && Abandoned(es, d, r) {
      assert Abandoned(es, d, i);
    }
  }

  lemma UnusedIsAbandoned(es: seq<Event>, i: nat, ps: seq<seq<nat>>, frames: seq<Frame>, m: nat)
    requires 0 < i <= |es| && es[i - 1].Exit? && ps != [] && Shifts(es, i)
    requires Located(es, i - 1, ps) && Matches(es, i - 1, ps, frames)
    requires m < |frames[|ps| - 1]| && !frames[|ps| - 1][m].used
    ensures var d := ps[|ps| - 1][m]; d < i && Abandoned(es, d, i)
  {
    hide UsedBefore, OpenAt, Depth;
    var top := |ps| - 1;
    assert Holds(es, i - 1, ps[top][m], frames[top][m]);
    Closes(es, i, ps[top][m]);
    OpenIsEarlier(es, ps[top][m], i - 1);
    AbandonedShifts(es, ps[top][m], i);
  }

  lemma OpenIsEarlier(es: seq<Event>, d: nat, i: nat)
    requires i <= |es| && OpenAt(es, d, i)
    ensures d < i && es[d].Declare?
  {
  }

  /** Leaving a frame closes what was declared in it, and nothing else. */
  lemma StaysOpen(es: seq<Event>, i: nat, d: nat)
    requires 0 < i <= |es| && es[i - 1].Exit? && OpenAt(es, d, i - 1)
    ensures OpenAt(es, d, i) <==> Depth(es, d) < Depth(es, i - 1)
  {
    assert Depth(es, i) == Depth(es, i - 1) - 1;
  }

  lemma Closes(es: seq<Event>, i: nat, d: nat)
    requires 0 < i <= |es| && es[i - 1].Exit? && OpenAt(es, d, i - 1) && Depth(es, d) == Depth(es, i - 1)
    ensures !OpenAt(es, d, i)
  {
    assert Depth(es, i) == Depth(es, i - 1) - 1;
  }

  /** After each event the stack of frames shows the marks, and the flag the verdict, of the rule. */
  lemma {:induction false} FramesFollowTheRule(es: seq<Event>, i: nat)
    requires i <= |es| && Nested(es)
    ensures var st := Run(State([], false), es[..i]);
            Matches(es, i, Positions(es, i), st.frames) && (st.hasError <==> SomeAbandoned(es, i))
  {
    hide Matches, Located, Abandoned, Mark, OpenAt;
    if i == 0 {
      NothingMatches(es);
    } else {
      FramesFollowTheRule(es, i - 1);
      assert es[..i][..i - 1] == es[..i - 1];
      PositionsAreLocated(es, i - 1);
      PositionsAreLocated(es, i);
      StepFollowsTheRule(es, i, Run(State([], false), es[..i - 1]));
    }
  }

  lemma NothingMatches(es: seq<Event>)
    ensures Matches(es, 0, [], []) && !SomeAbandoned(es, 0)
  {
  }

  lemma StepFollowsTheRule(es: seq<Event>, i: nat, st: State)
    requires 0 < i <= |es| && Nested(es)
    requires Located(es, i - 1, Positions(es, i - 1)) && Located(es, i, Positions(es, i))
    requires Matches(es, i - 1, Positions(es, i - 1), st.frames) && (st.hasError <==> SomeAbandoned(es, i - 1))
    ensures var st1 := Step(st, es[i - 1]);
            Matches(es, i, Positions(es, i), st1.frames) && (st1.hasError <==> SomeAbandoned(es, i))
  {
    hide Located, Abandoned, Mark, OpenAt, Holds;
    var ps := Positions(es, i - 1);
    if !es[i - 1].Exit? { NothingIsLeft(es, i); }
    match es[i - 1]
    case Enter => MatchOthers(es, i, ps, st.frames);
    case Exit =>
      MatchOthers(es, i, ps, st.frames);
      ErrorAtExit(es, i, ps, st.frames);
    case Declare(_) => MatchDeclare(es, i, ps, st.frames);
    case Refer(_) => MatchRefer(es, i, ps, st.frames);
  }

  lemma NothingIsLeft(es: seq<Event>, i: nat)
    requires 0 < i <= |es| && !es[i - 1].Exit?
    ensures SomeAbandoned(es, i) <==> SomeAbandoned(es, i - 1)
  {
    hide Abandoned, OpenAt, Depth;
    OpenShifts(es, i);
    forall d | 0 <= d < i
      ensures Abandoned(es, d, i) <==> Abandoned(es, d, i - 1)
    {
      AbandonedShifts(es, d, i);
    }
    NotAbandonedAtOnce(es, i);
    var r := i - 1;
    if d :| 0 <= d < r && Abandoned(es, d, r) {
      assert Abandoned(es, d, i);
    }
  }

  lemma NotAbandonedAtOnce(es: seq<Event>, i: nat)
    requires 0 < i <= |es|
    ensures !Abandoned(es, i - 1, i - 1)
  {
  }

  // ---------- Whole programs ----------

  /** A program is checked inside one outermost frame. */
  function Program(ns: seq<Node>): seq<Event> {
    [Enter] + EventsOf(ns) + [Exit]
  }

  /** Frames are left as often as they are entered, and none before it is entered. */
  ghost predicate Level(es: seq<Event>) {
    && Depth(es, |es|) == 0
    && (forall i :: 0 <= i <= |es| ==> Depth(es, i) >= 0)
    && (forall i :: 0 <= i < |es| && es[i].Exit? ==> Depth(es, i) >= 1)
  }

  lemma {:induction false} DepthInSequence(a: seq<Event>, b: seq<Event>, i: nat)
    requires i <= |a| + |b|
    ensures Depth(a + b, i) == if i <= |a| then Depth(a, i) else Depth(a, |a|) + Depth(b, i - |a|)
  {
    if i > 0 {
      DepthInSequence(a, b, i - 1);
    }
  }

  lemma LevelInSequence(a: seq<Event>, b: seq<Event>)
    requires Level(a) && Level(b)
    ensures Level(a + b)
  {
    hide Depth;
    forall i | 0 <= i <= |a + b|
      ensures Depth(a + b, i) == if i <= |a| then Depth(a, i) else Depth(a, |a|) + Depth(b, i - |a|)
    {
      DepthInSequence(a, b, i);
    }
    DepthAtStart(b);
  }

  lemma DepthAtStart(es: seq<Event>)
    ensures Depth(es, 0) == 0
  {
  }

  lemma FrameIsLevel(a: seq<Event>)
    requires Level(a)
    ensures Level([Enter] + a + [Exit]) && Nested([Enter] + a + [Exit])
  {
    var es := [Enter] + a + [Exit];
    assert Depth([Enter], 0) == 0 && Depth([Enter], 1) == 1;
    assert Depth([Exit], 0) == 0 && Depth([Exit], 1) == -1;
    hide Depth;
    DepthAtStart(a);
    forall i | 0 <= i <= |es|
      ensures Depth(es, i) == if i == 0 then 0 else if i <= |a| + 1 then 1 + Depth(a, i - 1) else 0
    {
      DepthInSequence([Enter] + a, [Exit], i);
      if i <= |a| + 1 { DepthInSequence([Enter], a, i); }
      DepthInSequence([Enter], a, |a| + 1);
    }
  }

  lemma {:induction false} EventsAreLevel(n: Node)
    ensures Level(Events(n))
    decreases n, 0
  {
    hide Level, Depth, Nested;
    match n
    case Reference(x) => OneIsLevel(Refer(x));
    case Plain(ns) => ListIsLevel(ns);
    case Block(ns) =>
      ListIsLevel(ns);
      FrameIsLevel(EventsOf(ns));
    case For(ns) =>
      ListIsLevel(ns);
      FrameIsLevel(EventsOf(ns));
    case VarDecl(x, None) => OneIsLevel(Declare(x));
    case VarDecl(x, Some(e)) =>
      EventsAreLevel(e);
      OneIsLevel(Declare(x));
      LevelInSequence(Events(e), [Declare(x)]);
    case FnDecl(x, params, ns) =>
      OneIsLevel(Declare(x));
      DeclarationsAreLevel(params);
      ListIsLevel(ns);
      LevelInSequence(Declarations(params), EventsOf(ns));
      var inner := Declarations(params) + EventsOf(ns);
      FrameIsLevel(inner);
      LevelInSequence([Declare(x)], [Enter] + inner + [Exit]);
      assert Events(n) == [Declare(x)] + ([Enter] + inner + [Exit]);
  }

  lemma OneIsLevel(e: Event)
    requires e.Declare? || e.Refer?
    ensures Level([e])
  {
    assert Depth([e], 0) == 0 && Depth([e], 1) == 0;
  }

  lemma {:induction false} DeclarationsAreLevel(names: seq<string>)
    ensures Level(Declarations(names))
  {
    if names != [] {
      var n := |names| - 1;
      DeclarationsAreLevel(names[..n]);
      OneIsLevel(Declare(names[n]));
      LevelInSequence(Declarations(names[..n]), [Declare(names[n])]);
    }
  }

  lemma {:induction false} ListIsLevel(ns: seq<Node>)
    ensures Level(EventsOf(ns))
    decreases ns, 1
  {
    if ns != [] {
      var n := |ns| - 1;
      ListIsLevel(ns[..n]);
      EventsAreLevel(ns[n]);
      LevelInSequence(EventsOf(ns[..n]), Events(ns[n]));
    }
  }

  /** The checker reports an error exactly if some declaration of the program is meant by none of
      its references. */
  lemma VerdictIsLexical(ns: seq<Node>)
    ensures var st := Run(State([], false), Program(ns));
            st.frames == [] && (!st.hasError <==> EveryDeclarationIsUsed(Program(ns)))
  {
    hide UsedBefore, Run, EventsOf;
    var es := Program(ns);
    ListIsLevel(ns);
    FrameIsLevel(EventsOf(ns));
    FramesFollowTheRule(es, |es|);
    assert es[..|es|] == es;
    forall d | 0 <= d < |es| && es[d].Declare?
      ensures Abandoned(es, d, |es|) <==> !UsedBefore(es, d, |es|)
    {
      assert Depth(es, d) >= 1;
    }
  }

  /** Of two declarations of one name in one frame nothing ever means the second, so a program that
      declares a name twice in a frame is always rejected. */
  lemma RedeclarationIsNeverUsed(es: seq<Event>, d: nat, d2: nat)
    requires d2 < |es| && es[d2].Declare? && OpenAt(es, d, d2)
             && es[d].name == es[d2].name && Depth(es, d) == Depth(es, d2)
    ensures !EveryDeclarationIsUsed(es)
  {
    forall r | 0 <= r < |es|
      ensures !Resolves(es, r, d2)
    {
      if es[r].Refer? && OpenAt(es, d2, r) {
        StillOpen(es, d, d2, r);
      }
    }
  }

  lemma StillOpen(es: seq<Event>, d: nat, d2: nat, r: nat)
    requires r <= |es| && OpenAt(es, d2, r) && OpenAt(es, d, d2) && Depth(es, d) == Depth(es, d2)
    ensures OpenAt(es, d, r)
  {
  }

  // ---------- What visiting a node leaves alone ----------

  predicate Gained(f: Frame, g: Frame) {
    |f| <= |g| && forall i :: 0 <= i < |f| ==> g[i].name == f[i].name && (f[i].used ==> g[i].used)
  }

  /** As many frames; only the top one may have new declarations; uses and errors only come. */
  predicate OnlyGains(st: State, st1: State) {
    && |st.frames| == |st1.frames| && (st.hasError ==> st1.hasError)
    && (forall k :: 0 <= k < |st.frames| ==> Gained(st.frames[k], st1.frames[k]))
    && (forall k :: 0 <= k < |st.frames| - 1 ==> |st.frames[k]| == |st1.frames[k]|)
  }

  lemma GainsCompose(a: State, b: State, c: State)
    requires OnlyGains(a, b) && OnlyGains(b, c)
    ensures OnlyGains(a, c)
  {
    hide Gained;
    forall k | 0 <= k < |a.frames|
      ensures Gained(a.frames[k], c.frames[k])
    {
      GainedTwice(a.frames[k], b.frames[k], c.frames[k]);
    }
  }

  lemma GainedTwice(f: Frame, g: Frame, h: Frame)
    requires Gained(f, g) && Gained(g, h)
    ensures Gained(f, h)
  {
  }

  lemma {:induction false} MarkGains(frames: seq<Frame>, x: string)
    ensures var g := Mark(frames, x);
            |g| == |frames| && forall k :: 0 <= k < |g| ==> Gained(frames[k], g[k]) && |frames[k]| == |g[k]|
    decreases |frames|
  {
    if frames != [] {
      var top := |frames| - 1;
      MarkFirstGains(frames[top], x);
      MarkGains(frames[..top], x);
    }
  }

  lemma {:induction false} MarkFirstGains(f: Frame, x: string)
    ensures Gained(f, MarkFirst(f, x)) && |f| == |MarkFirst(f, x)|
  {
    if f != [] {
      MarkFirstGains(f[1..], x);
    }
  }

  lemma StepGains(st: State, e: Event)
    requires e.Declare? || e.Refer?
    ensures OnlyGains(st, Step(st, e))
  {
    if e.Refer? { MarkGains(st.frames, e.name); }
  }

  /** Visiting inside a frame of its own leaves every frame around it with the declarations it has. */
  lemma FrameGains(st: State, inside: State)
    requires OnlyGains(Step(st, Enter), inside)
    ensures OnlyGains(st, Step(inside, Exit))
  {
    hide Gained;
  }

  lemma RunOne(st: State, e: Event)
    ensures Run(st, [e]) == Step(st, e)
  {
    assert [e][..0] == [];
  }

  lemma RunFramed(st: State, es: seq<Event>)
    ensures Run(st, [Enter] + es + [Exit]) == Step(Run(Step(st, Enter), es), Exit)
  {
    hide Run, Step;
    RunOne(st, Enter);
    RunInSequence(st, [Enter], es);
    RunInSequence(st, [Enter] + es, [Exit]);
    RunOne(Run(st, [Enter] + es), Exit);
  }

  /** Visiting a node restores the number of frames and in outer frames only marks declarations. */
  lemma {:induction false} VisitingOnlyGains(st: State, n: Node)
    ensures OnlyGains(st, Run(st, Events(n)))
    decreases n, 0
  {
    hide OnlyGains, Run, Step;
    match n
    case Reference(x) =>
      RunOne(st, Refer(x));
      StepGains(st, Refer(x));
    case Plain(ns) => VisitingListGains(st, ns);
    case Block(ns) => VisitingFrameGains(st, [], ns);
    case For(ns) => VisitingFrameGains(st, [], ns);
    case VarDecl(x, None) =>
      RunOne(st, Declare(x));
      StepGains(st, Declare(x));
    case VarDecl(x, Some(e)) =>
      VisitingOnlyGains(st, e);
      var mid := Run(st, Events(e));
      RunInSequence(st, Events(e), [Declare(x)]);
      RunOne(mid, Declare(x));
      StepGains(mid, Declare(x));
      GainsCompose(st, mid, Step(mid, Declare(x)));
    case FnDecl(x, params, ns) =>
      var inner := Declarations(params) + EventsOf(ns);
      RunOne(st, Declare(x));
      StepGains(st, Declare(x));
      var mid := Step(st, Declare(x));
      VisitingFrameGains(mid, params, ns);
      RunInSequence(st, [Declare(x)], [Enter] + inner + [Exit]);
      assert Events(n) == [Declare(x)] + ([Enter] + inner + [Exit]);
      GainsCompose(st, mid, Run(st, Events(n)));
  }

  lemma {:induction false} VisitingFrameGains(st: State, params: seq<string>, ns: seq<Node>)
    ensures OnlyGains(st, Run(st, [Enter] + (Declarations(params) + EventsOf(ns)) + [Exit]))
    ensures params == [] ==> [Enter] + (Declarations(params) + EventsOf(ns)) + [Exit] == [Enter] + EventsOf(ns) + [Exit]
    decreases ns, 2
  {
    hide OnlyGains, Run, Step, EventsOf;
    var inner := Declarations(params) + EventsOf(ns);
    var st1 := Step(st, Enter);
    DeclaringGains(st1, params);
    var st2 := Run(st1, Declarations(params));
    VisitingListGains(st2, ns);
    RunInSequence(st1, Declarations(params), EventsOf(ns));
    GainsCompose(st1, st2, Run(st1, inner));
    FrameGains(st, Run(st1, inner));
    RunFramed(st, inner);
    assert Declarations([]) + EventsOf(ns) == EventsOf(ns);
  }

  lemma {:induction false} DeclaringGains(st: State, names: seq<string>)
    ensures OnlyGains(st, Run(st, Declarations(names)))
  {
    hide OnlyGains, Step;
    if names == [] {
      NothingGained(st);
    } else {
      var n := |names| - 1;
      DeclaringGains(st, names[..n]);
      var mid := Run(st, Declarations(names[..n]));
      RunInSequence(st, Declarations(names[..n]), [Declare(names[n])]);
      RunOne(mid, Declare(names[n]));
      StepGains(mid, Declare(names[n]));
      GainsCompose(st, mid, Step(mid, Declare(names[n])));
    }
  }

  lemma NothingGained(st: State)
    ensures OnlyGains(st, st)
  {
  }

  lemma {:induction false} VisitingListGains(st: State, ns: seq<Node>)
    ensures OnlyGains(st, Run(st, EventsOf(ns)))
    decreases ns, 1
  {
    hide OnlyGains, Step;
    if ns == [] {
      NothingGained(st);
    } else {
      var n := |ns| - 1;
      VisitingListGains(st, ns[..n]);
      var mid := Run(st, EventsOf(ns[..n]));
      VisitingOnlyGains(mid, ns[n]);
      RunInSequence(st, EventsOf(ns[..n]), Events(ns[n]));
      GainsCompose(st, mid, Run(st, EventsOf(ns)));
    }
  }
}
