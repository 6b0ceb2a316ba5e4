/** Runs over the scopes of a program: what holds of a constant from its declaration on. */
module ScopeRuns {
  import Ast
  import opened ScopeValues
  import opened ScopeConstants
  import opened Scopes

  /** An operation on the scope with the given number. It is skipped where a program could not
      perform it, on a scope that is not allocated, or for a pop not open, any more. */
  datatype Operation =
    | PushRoot
    | Push(at: nat)
    | Copy(at: nat)
    | Pop(at: nat)
    | Declare(at: nat, key: string, t: Ast.Option<TypeLiteral>)
    | Get(at: nat, key: string)
    | CheckedSet(at: nat, key: string, value: Value)

  ghost predicate IsOpening(op: Operation, scopes: seq<Scope>, live: set<Scope>) {
    op.PushRoot? || ((op.Push? || op.Copy?) && Applies(op, scopes, live))
  }

  ghost predicate Applies(op: Operation, scopes: seq<Scope>, allowed: set<Scope>) {
    op.PushRoot? || (op.at < |scopes| && scopes[op.at] in allowed)
  }

  /** Constants become only what is similar to them, and where nothing else can take their place stay
      what they are. */
  ghost predicate Keeps(v0: map<string, Value>, t0: map<string, TypeLiteral>, v1: map<string, Value>,
                  t1: map<string, TypeLiteral>) {
    forall k :: k in v0 && k in t0 && t0[k].constant ==>
                  && k in v1 && k in t1 && t1[k] == t0[k]
                  && (v1[k] == v0[k] || (Similar(v0[k], v1[k]) && !Stays(t0[k], v0[k])))
  }

  lemma KeepsTwice(v0: map<string, Value>, t0: map<string, TypeLiteral>, v1: map<string, Value>,
                   t1: map<string, TypeLiteral>, v2: map<string, Value>, t2: map<string, TypeLiteral>)
    requires Keeps(v0, t0, v1, t1) && Keeps(v1, t1, v2, t2)
    ensures Keeps(v0, t0, v2, t2)
  {
    hide Similar, Stays;
    forall k | k in v0 && k in v1 && k in v2 && Similar(v0[k], v1[k]) && Similar(v1[k], v2[k])
      ensures Similar(v0[k], v2[k])
    {
      SimilarInTurn(v0[k], v1[k], v2[k]);
    }
  }

  lemma KeepsNow(v: map<string, Value>, t: map<string, TypeLiteral>)
    ensures Keeps(v, t, v, t)
  {
  }

  function Declared(v: map<string, Value>, key: string, t: Ast.Option<TypeLiteral>): map<string, Value> {
    if key in v || t.None? then v else v[key := Null]
  }

  function Assigned(v: map<string, Value>, types: map<string, TypeLiteral>, op: Operation): map<string, Value>
    requires op.CheckedSet?
  {
    if op.key in v && op.key in types && CheckType(types[op.key], v[op.key], op.value, true)
    then v[op.key := op.value]
    else v
  }

  /** Opens a scope in or beside the given one. */
  method OpenScope(heap: Heap, scope: Scope, op: Operation) returns (inner: Scope)
    requires heap.Valid() && scope in heap.live && (op.Push? || op.Copy?)
    modifies heap, heap.live`references
    ensures heap.Valid() && fresh(inner)
    ensures heap.live == old(heap.live) + {inner} && heap.open == old(heap.open) + {inner}
    ensures inner.ancestor == if op.Push? then scope else scope.ancestor
    ensures inner.variables == if op.Push? then map[] else scope.variables
    ensures inner.types == if op.Push? then map[] else scope.types
  {
    hide Linked, Inside, Within, Typed;
    ChainIsWithin(scope, heap.live);
    if op.Push? {
      inner := heap.Push(scope);
    } else {
      if scope.ancestor != null { ChainIsWithin(scope.ancestor, heap.live); }
      inner := heap.Copy(scope);
    }
  }

  method Perform(heap: Heap, scopes: seq<Scope>, op: Operation) returns (more: seq<Scope>)
    requires heap.Valid()
    modifies heap, heap.live
    ensures if IsOpening(op, scopes, old(heap.live))
            then |more| == |scopes| + 1 && more[..|scopes|] == scopes && heap.open == old(heap.open) + {more[|scopes|]}
            else more == scopes
    ensures op.Pop? && Applies(op, scopes, old(heap.open)) ==> heap.open == old(heap.open) - {scopes[op.at]}
    ensures op.Declare? && Applies(op, scopes, old(heap.live)) ==>
              scopes[op.at].variables == Declared(old(scopes[op.at].variables), op.key, op.t)
    ensures op.CheckedSet? && Applies(op, scopes, old(heap.live)) ==>
              Visible(scopes[op.at]) == Assigned(old(Visible(scopes[op.at])), old(VisibleTypes(scopes[op.at])), op)
    ensures fresh(heap.live - old(heap.live))
    ensures forall s :: s in old(heap.live) && s in heap.live ==>
              Keeps(old(s.variables), old(s.types), s.variables, s.types)
    ensures heap.Valid()
  {
    hide Kept, Linked, Visible, VisibleTypes, Innermost, CheckType, Similar, Stays, Equal;
    more := scopes;
    if op.PushRoot? {
      var s := heap.Push(null);
      more := scopes + [s];
    } else if op.at < |scopes| && scopes[op.at] in heap.live {
      var scope := scopes[op.at];
      if op.Push? || op.Copy? {
        var s := OpenScope(heap, scope, op);
        more := scopes + [s];
      } else if op.Declare? {
        LiveChain(heap, scope);
        var ok := heap.Declare(scope, op.key, op.t);
      } else if op.CheckedSet? {
        LiveChain(heap, scope);
        label Before:
        var ok, where := heap.Set(scope, op.key, op.value, true);
        if ok && where.types[op.key].constant {
          EqualIsSimilar(old@Before(where.variables[op.key]), op.value);
        }
      } else if op.Get? {
        var value := heap.Get(scope, op.key);
      } else if scope in heap.open {
        LiveChain(heap, scope);
        var ancestor := heap.Pop(scope);
      }
    }
  }

  lemma LiveChain(heap: Heap, scope: Scope)
    requires heap.Valid() && scope in heap.live
    ensures scope.chain <= heap.live
  {
    hide Linked, Fits;
    assert Kept(scope, heap.live, heap.open);
  }

  /** Over every run of pushes, copies, pops, declarations, reads and checked assignments, through
      any scopes, a constant whose scope stays allocated becomes only what is similar to it, and keeps
      its very value if its type and value are such that nothing else can take its place. */
  method Run(heap: Heap, scopes: seq<Scope>, ops: seq<Operation>) returns (more: seq<Scope>)
    requires heap.Valid()
    modifies heap, heap.live
    ensures heap.Valid() && fresh(heap.live - old(heap.live))
    ensures forall s :: s in old(heap.live) && s in heap.live ==>
              Keeps(old(s.variables), old(s.types), s.variables, s.types)
  {
    hide Keeps, Kept, Linked, Within;
    more := scopes;
    forall s | s in heap.live
      ensures Keeps(s.variables, s.types, s.variables, s.types)
    {
      KeepsNow(s.variables, s.types);
    }
    for i := 0 to |ops|
      invariant heap.Valid() && fresh(heap.live - old(heap.live))
      invariant forall s :: s in old(heap.live) && s in heap.live ==>
                  Keeps(old(s.variables), old(s.types), s.variables, s.types)
    {
      label Before:
      more := Perform(heap, more, ops[i]);
      forall s | s in old(heap.live) && s in heap.live
        ensures Keeps(old(s.variables), old(s.types), s.variables, s.types)
      {
        KeepsTwice(old(s.variables), old(s.types), old@Before(s.variables), old@Before(s.types), s.variables, s.types);
      }
    }
  }
}
