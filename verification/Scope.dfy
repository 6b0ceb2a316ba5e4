/** Scopes as objects that share their ancestors: reference counts and lexical lookup. */
module Scopes {
  import Ast
  import opened ScopeValues
  import opened ScopeConstants

  class Scope {
    var variables: map<string, Value>
    var types: map<string, TypeLiteral>
    const ancestor: Scope?
    var references: int
    ghost const chain: set<Scope>  // this scope and all its ancestors
    ghost const depth: nat

    constructor (ancestor: Scope?)
      ensures this.ancestor == ancestor && variables == map[] && types == map[] && references == 0
      ensures chain == {this} + Chain(ancestor) && depth == Depth(ancestor)
    {
      this.ancestor := ancestor;
      variables, types, references := map[], map[], 0;
      chain := {this} + Chain(ancestor);
      depth := Depth(ancestor);
    }
  }

  ghost function Chain(s: Scope?): set<Scope> {
    if s == null then {} else s.chain
  }

  lemma ChainOf(s: Scope)
    ensures Chain(s) == s.chain
  {
  }

  /** How many scopes the chain of s has. */
  ghost function Depth(s: Scope?): nat {
    if s == null then 0 else s.depth + 1
  }

  /** The chain holds a scope together with its ancestors, and ends. */
  ghost predicate Linked(s: Scope) {
    && s in s.chain && s.chain == {s} + Chain(s.ancestor)
    && (s.ancestor != null ==> s.ancestor in s.chain)
    && s !in Chain(s.ancestor) && s.depth == Depth(s.ancestor)
    && forall a :: a in s.chain ==> a.chain <= s.chain && a.depth <= s.depth
  }

  /** The scopes of the given set that lie inside s, s itself included. */
  ghost function Inside(open: set<Scope>, s: Scope): set<Scope> {
    set d | d in open && s in d.chain
  }

  lemma OneMoreInside(open: set<Scope>, scope: Scope, s: Scope)
    requires scope !in open
    ensures |Inside(open + {scope}, s)| == |Inside(open, s)| + if s in scope.chain then 1 else 0
  {
    assert Inside(open + {scope}, s) == Inside(open, s) + if s in scope.chain then {scope} else {};
  }

  ghost predicate Within(s: Scope, live: set<Scope>) {
    s.chain <= live
  }

  lemma WithinGrows(s: Scope, live: set<Scope>, scope: Scope)
    requires Within(s, live)
    ensures Within(s, live + {scope})
  {
  }

  lemma ChainIsWithin(s: Scope, live: set<Scope>)
    requires Linked(s) && Within(s, live)
    ensures s in live && (s.ancestor != null ==> s.ancestor in live) && forall a :: a in s.chain ==> a in live
  {
  }

  lemma OneLessInside(open: set<Scope>, scope: Scope, s: Scope)
    requires scope in open
    ensures |Inside(open - {scope}, s)| == |Inside(open, s)| - if s in scope.chain then 1 else 0
  {
    OneMoreInside(open - {scope}, scope, s);
    assert open - {scope} + {scope} == open;
  }

  /** What is inside a scope is inside every ancestor of it. */
  lemma AncestorsHoldMore(open: set<Scope>, s: Scope, a: Scope)
    requires a in s.chain && forall d :: d in open ==> Linked(d)
    ensures |Inside(open, s)| <= |Inside(open, a)|
  {
    forall d | d in Inside(open, s)
      ensures d in Inside(open, a)
    {
      assert s.chain <= d.chain;
    }
    assert |Inside(open, a)| == |Inside(open, s)| + |Inside(open, a) - Inside(open, s)|;
  }

  /** If what survives is what has an open scope inside, survivors keep their chains. */
  lemma SurvivorsKeepChains(s: Scope, live0: set<Scope>, live: set<Scope>, open: set<Scope>)
    requires Within(s, live0) && |Inside(open, s)| > 0 && forall d :: d in open ==> Linked(d)
    requires forall a :: a in live0 && |Inside(open, a)| > 0 ==> a in live
    ensures Within(s, live)
  {
    hide Linked, Inside;
    forall a | a in s.chain
      ensures a in live
    {
      AncestorsHoldMore(open, s, a);
    }
  }

  lemma OpenSurvives(s: Scope, open: set<Scope>)
    requires s in open && Linked(s)
    ensures |Inside(open, s)| > 0
  {
    assert s in Inside(open, s);
  }

  /** A live scope counts the open scopes inside it, which are at least one; its whole chain is
      live; it has one type for each variable, which the variable's value fits. */
  ghost predicate Kept(s: Scope, live: set<Scope>, open: set<Scope>)
    reads s
  {
    Linked(s) && Within(s, live) && s.references == |Inside(open, s)| && s.references > 0 && Typed(s)
  }

  ghost predicate Typed(s: Scope)
    reads s`types, s`variables
  {
    s.types.Keys == s.variables.Keys && forall k :: k in s.variables ==> Fits(s.types[k], s.variables[k])
  }

  lemma NewScope(s: Scope, live: set<Scope>, open: set<Scope>)
    requires s.chain == {s} + Chain(s.ancestor) && s.depth == Depth(s.ancestor) && s !in live && open <= live
    requires s.ancestor != null ==> s.ancestor in live
    requires forall o :: o in live ==> Linked(o) && Within(o, live)
    requires s.variables == map[] && s.types == map[]
    ensures Linked(s) && Within(s, live + {s}) && Inside(open, s) == {} && Typed(s)
    ensures forall o :: o in s.chain ==> Linked(o)
  {
    if s.ancestor != null { assert s.ancestor.chain <= live; }
    forall d | d in open
      ensures s !in d.chain
    {
      assert Within(d, live);
    }
  }

  /** The bindings that can be seen from a scope: its own, and those around it that it does not hide. */
  ghost function Visible(s: Scope?): map<string, Value>
    reads Chain(s)
    decreases Depth(s)
  {
    if s == null || !Linked(s) then map[] else Visible(s.ancestor) + s.variables
  }

  ghost function VisibleTypes(s: Scope?): map<string, TypeLiteral>
    reads Chain(s)
    decreases Depth(s)
  {
    if s == null || !Linked(s) then map[] else VisibleTypes(s.ancestor) + s.types
  }

  lemma InnerUpdate<T>(outer: map<string, T>, inner: map<string, T>, key: string, value: T)
    ensures outer + inner[key := value] == (outer + inner)[key := value]
  {
  }

  lemma OuterUpdate<T>(outer: map<string, T>, inner: map<string, T>, key: string, value: T)
    requires key !in inner
    ensures outer[key := value] + inner == (outer + inner)[key := value]
  {
  }

  lemma VisibleIs(s: Scope)
    requires Linked(s)
    ensures s in Chain(s) && s !in Chain(s.ancestor) && Chain(s.ancestor) <= Chain(s) && Depth(s.ancestor) < Depth(s)
    ensures Visible(s) == Visible(s.ancestor) + s.variables
    ensures VisibleTypes(s) == VisibleTypes(s.ancestor) + s.types
  {
  }

  /** Of the scopes from s outward, where is the first that declares the key. */
  ghost predicate Innermost(s: Scope?, key: string, where: Scope)
    reads Chain(s)
  {
    && where in Chain(s) && key in where.variables
    && forall a :: a in Chain(s) && a.depth > where.depth ==> key !in a.variables
  }

  lemma InnermostHere(s: Scope, key: string)
    requires Linked(s) && key in s.variables
    ensures Innermost(s, key, s)
  {
  }

  lemma InnermostOutside(s: Scope, key: string, where: Scope)
    requires Linked(s) && key !in s.variables && Innermost(s.ancestor, key, where)
    ensures Innermost(s, key, where)
  {
  }

  lemma NothingVisible()
    ensures Chain(null) == {} && Visible(null) == map[] && VisibleTypes(null) == map[]
  {
  }

  /** The memory of the running program: which scopes are allocated, and which have not been popped. */
  class Heap {
    var live: set<Scope>
    var open: set<Scope>

    ghost predicate Valid()
      reads this, live
    {
      open <= live && forall s :: s in live ==> Kept(s, live, open)
    }

    constructor ()
      ensures Valid() && live == open == {}
    {
      live, open := {}, {};
    }

    /** A new scope inside the given one, empty, counted in every scope around it. */
    method Push(ancestor: Scope?) returns (scope: Scope)
      requires Valid() && (ancestor != null ==> ancestor in live)
      modifies this, Chain(ancestor)`references
      ensures Valid() && fresh(scope) && live == old(live) + {scope} && open == old(open) + {scope}
      ensures scope.ancestor == ancestor && scope.variables == map[] && scope.types == map[]
    {
      hide Linked, Inside, Typed, Within, Chain, Depth;
      scope := new Scope(ancestor);
      NewScope(scope, live, open);
      label Before:
      Retain(scope);
      var live1, open1 := live + {scope}, open + {scope};
      forall s | s in live1
        ensures Kept(s, live1, open1)
      {
        OneMoreInside(open, scope, s);
        if s != scope {
          assert old@Before(Kept(s, live, open));
          WithinGrows(s, live, scope);
        }
      }
      live, open := live1, open1;
    }

    /** Counts one more open scope in the given scope and all around it. */
    method Retain(scope: Scope)
      requires forall s :: s in scope.chain ==> Linked(s)
      requires Linked(scope)
      modifies scope.chain`references
      ensures forall s :: s in scope.chain ==> s.references == old(s.references) + 1
    {
      var ptr: Scope? := scope;
      while ptr != null
        invariant (ptr != null ==> ptr in scope.chain) && Chain(ptr) <= scope.chain
        invariant forall s :: s in scope.chain ==>
                  s.references == old(s.references) + (if s in Chain(ptr) then 0 else 1)
        decreases Depth(ptr)
      {
        ptr.references := ptr.references + 1;
        ptr := ptr.ancestor;
      }
    }

    /** Gives a scope back to the allocator, which must still own it. */
    method Free(scope: Scope)
      requires scope in live
      modifies this`live
      ensures live == old(live) - {scope}
    {
      live := live - {scope};
    }

    static ghost function Unreferenced(scopes: set<Scope>): set<Scope>
      reads scopes`references
    {
      set s | s in scopes && s.references <= 0
    }

    /** Counts one open scope less in the given scope and all around it, and frees those that hold
        none any more, each once. */
    method FreeAncestorChain(scope: Scope)
      requires Linked(scope) && forall s :: s in scope.chain ==> Linked(s) && s in live
      modifies this`live, scope.chain`references
      ensures forall s :: s in scope.chain ==> s.references == old(s.references) - 1
      ensures live == old(live) - Unreferenced(scope.chain)
      decreases scope.depth
    {
      scope.references := scope.references - 1;
      if scope.ancestor != null {
        FreeAncestorChain(scope.ancestor);
      }
      if scope.references > 0 { return; }
      Free(scope);
    }

    /** Closes a scope. What stays allocated is exactly what has an open scope inside it. */
    method Pop(scope: Scope?) returns (ret: Scope?)
      requires Valid() && (scope != null ==> scope in open)
      modifies this, Chain(scope)`references
      ensures Valid() && (scope == null ==> ret == null && live == old(live) && open == old(open))
      ensures scope != null ==> ret == scope.ancestor && open == old(open) - {scope}
      ensures forall s :: s in live <==> s in old(live) && |Inside(open, s)| > 0
    {
      hide Linked, Inside, Typed, Within, Chain;
      if scope == null { return null; }
      ret := scope.ancestor;
      ChainOf(scope);
      ChainIsWithin(scope, live);
      var live0, open1 := live, open - {scope};
      label Before:
      FreeAncestorChain(scope);
      forall s | s in live0
        ensures Linked(s) && Typed(s) && Within(s, live0)
        ensures s.references == |Inside(open1, s)|
        ensures s in live <==> |Inside(open1, s)| > 0
      {
        assert old@Before(Kept(s, live0, open));
        OneLessInside(open, scope, s);
      }
      forall s | s in live
        ensures Kept(s, live, open1)
      {
        SurvivorsKeepChains(s, live0, live, open1);
      }
      forall s | s in open1
        ensures s in live
      {
        OpenSurvives(s, open1);
      }
      open := open1;
    }

    /** A copy sits beside the original and shares its ancestors, but not its variables. */
    method Copy(original: Scope) returns (scope: Scope)
      requires Valid() && original in live
      modifies this, Chain(original.ancestor)`references
      ensures Valid() && fresh(scope) && live == old(live) + {scope} && open == old(open) + {scope}
      ensures scope.ancestor == original.ancestor
      ensures scope.variables == original.variables && scope.types == original.types
    {
      hide Linked, Inside, Within, Chain, Fits;
      ChainIsWithin(original, live);
      scope := Push(original.ancestor);
      scope.variables, scope.types := original.variables, original.types;
    }

    /** All is given back once every scope has been popped. */
    lemma NothingLeaks()
      requires Valid() && open == {}
      ensures live == {}
    {
      forall s | s in live
        ensures Inside(open, s) == {}
      {
      }
    }

    /** Whoever holds an open scope may walk its whole chain. */
    lemma OpenChainsAreLive(s: Scope, a: Scope)
      requires Valid() && s in open && a in s.chain
      ensures a in live && a.references > 0
    {
      assert Kept(s, live, open);
    }

    /** Binds a variable of this scope to a value that fits its type; no other scope changes. */
    method Bind(scope: Scope, key: string, t: TypeLiteral, value: Value)
      requires Valid() && scope in live && Fits(t, value)
      modifies scope`variables, scope`types
      ensures Valid() && scope.variables == old(scope.variables)[key := value]
              && scope.types == old(scope.types)[key := t]
      ensures Visible(scope) == old(Visible(scope))[key := value]
      ensures VisibleTypes(scope) == old(VisibleTypes(scope))[key := t]
    {
      hide Linked, Inside, Within, Chain, Depth, Fits, Visible, VisibleTypes;
      VisibleIs(scope);
      InnerUpdate(Visible(scope.ancestor), scope.variables, key, value);
      InnerUpdate(VisibleTypes(scope.ancestor), scope.types, key, t);
      scope.types := scope.types[key := t];
      scope.variables := scope.variables[key := value];
      forall s | s in live
        ensures Kept(s, live, open)
      {
        assert old(Kept(s, live, open));
      }
      VisibleIs(scope);
    }

    method BindValue(scope: Scope, key: string, value: Value)
      requires Valid() && scope in live && key in scope.types && Fits(scope.types[key], value)
      modifies scope`variables
      ensures Valid() && scope.variables == old(scope.variables)[key := value]
      ensures Visible(scope) == old(Visible(scope))[key := value] && VisibleTypes(scope) == old(VisibleTypes(scope))
    {
      hide Linked, Inside, Within, Chain, Depth, Fits, Visible, VisibleTypes;
      VisibleIs(scope);
      InnerUpdate(Visible(scope.ancestor), scope.variables, key, value);
      scope.variables := scope.variables[key := value];
      forall s | s in live
        ensures Kept(s, live, open)
      {
        assert old(Kept(s, live, open));
      }
      VisibleIs(scope);
    }

    /** Declares a variable in this scope alone, as null; fails if it is declared there already. */
    method Declare(scope: Scope, key: string, t: Ast.Option<TypeLiteral>) returns (ok: bool)
      requires Valid() && scope in live
      modifies scope`variables, scope`types
      ensures Valid() && (ok <==> key !in old(scope.variables) && t.Some?)
      ensures scope.variables == if ok then old(scope.variables)[key := Null] else old(scope.variables)
      ensures scope.types == if ok then old(scope.types)[key := t.value] else old(scope.types)
      ensures Visible(scope) == if ok then old(Visible(scope))[key := Null] else old(Visible(scope))
      ensures VisibleTypes(scope) == if ok then old(VisibleTypes(scope))[key := t.value] else old(VisibleTypes(scope))
    {
      hide Kept, Chain, Visible, VisibleTypes;
      if key in scope.variables { return false; }
      if t.None? { return false; }
      Bind(scope, key, t.value, Null);
      return true;
    }

    /** What is visible is visible with a type, of the same declaration, that its value fits. */
    lemma VisibleIsTyped(scope: Scope?)
      requires Valid() && (scope != null ==> scope in live)
      ensures Visible(scope).Keys == VisibleTypes(scope).Keys
      ensures forall k :: k in Visible(scope) ==> Fits(VisibleTypes(scope)[k], Visible(scope)[k])
      decreases Depth(scope)
    {
      hide Linked, Inside, Within, Chain, Depth, Fits, Visible, VisibleTypes;
      if scope == null {
        NothingVisible();
      } else {
        VisibleIs(scope);
        ChainIsWithin(scope, live);
        VisibleIsTyped(scope.ancestor);
      }
    }

    /** A visible variable of a plain type is null or of that kind. */
    lemma VisibleIsOfItsKind(scope: Scope?, k: string)
      requires Valid() && (scope != null ==> scope in live)
      requires k in Visible(scope) && k in VisibleTypes(scope)
      requires VisibleTypes(scope)[k].Plain? && !Visible(scope)[k].Null?
      ensures match VisibleTypes(scope)[k].tag
              case BooleanTag => Visible(scope)[k].Boolean?
              case IntegerTag => Visible(scope)[k].Integer?
              case FloatTag => Visible(scope)[k].Float?
              case StringTag => Visible(scope)[k].String?
              case FunctionTag => Visible(scope)[k].Function?
              case TypeTag => Visible(scope)[k].Type?
              case OpaqueTag => Visible(scope)[k].Opaque?
              case NullTag => false
              case SizedTag(_) => !Visible(scope)[k].Array? && !Visible(scope)[k].Dictionary?
              case AnyTag => true
    {
      hide Linked, Inside, Within, Chain, Depth, Visible, VisibleTypes;
      VisibleIsTyped(scope);
    }

    method IsDeclared(scope: Scope?, key: string) returns (declared: bool)
      requires Valid() && (scope != null ==> scope in live)
      ensures declared <==> key in Visible(scope)
      decreases Depth(scope)
    {
      if scope == null { return false; }
      if key !in scope.variables {
        declared := IsDeclared(scope.ancestor, key);
        return;
      }
      return true;
    }

    method Get(scope: Scope?, key: string) returns (value: Ast.Option<Value>)
      requires Valid() && (scope != null ==> scope in live)
      ensures value == if key in Visible(scope) then Ast.Some(Visible(scope)[key]) else Ast.None
      decreases Depth(scope)
    {
      if scope == null { return Ast.None; }
      if key !in scope.variables {
        value := Get(scope.ancestor, key);
        return;
      }
      return Ast.Some(scope.variables[key]);
    }

    method GetType(scope: Scope?, key: string) returns (t: Ast.Option<TypeLiteral>)
      requires Valid() && (scope != null ==> scope in live)
      ensures t == if key in VisibleTypes(scope) then Ast.Some(VisibleTypes(scope)[key]) else Ast.None
      decreases Depth(scope)
    {
      if scope == null { return Ast.None; }
      if key !in scope.types {
        t := GetType(scope.ancestor, key);
        return;
      }
      return Ast.Some(scope.types[key]);
    }

    /** Assigns to the innermost declaration of the key, if the value passes the check; no other
        binding of any scope changes. */
    method Set(scope: Scope?, key: string, value: Value, constCheck: bool)
      returns (ok: bool, ghost where: Scope?)
      requires Valid() && (scope != null ==> scope in live)
      modifies Chain(scope)`variables
      ensures Valid() && VisibleTypes(scope) == old(VisibleTypes(scope))
      ensures where == null <==> key !in old(Visible(scope))
      ensures where != null ==> where in old(live) && old(Innermost(scope, key, where)) && key in old(where.variables)
      ensures where != null ==>
                key in where.types && key in VisibleTypes(scope) && VisibleTypes(scope)[key] == where.types[key]
      ensures where != null ==> key in old(Visible(scope)) && old(Visible(scope))[key] == old(where.variables[key])
      ensures ok <==>
                where != null && CheckType(where.types[key], old(where.variables[key]), value, constCheck)
      ensures Visible(scope) == if ok then old(Visible(scope))[key := value] else old(Visible(scope))
      ensures ok ==> where.variables == old(where.variables)[key := value]
      ensures ok && constCheck && where.types[key].constant ==> Equal(old(where.variables[key]), value)
      ensures ok && constCheck && where.types[key].constant && Stays(where.types[key], old(where.variables[key])) ==>
                value == old(where.variables[key])
      ensures forall s :: s in old(live) && (ok ==> s != where) ==> s.variables == old(s.variables)
      decreases Depth(scope)
    {
      hide Linked, Inside, Within, Chain, Depth, Fits, CheckType, Visible, VisibleTypes, Innermost, Equal, Stays;
      if scope == null {
        NothingVisible();
        return false, null;
      }
      VisibleIs(scope);
      ChainIsWithin(scope, live);
      if key !in scope.variables {
        ghost var outer := Visible(scope.ancestor);
        forall w | w in live && Innermost(scope.ancestor, key, w)
          ensures Innermost(scope, key, w)
        {
          InnermostOutside(scope, key, w);
        }
        ok, where := Set(scope.ancestor, key, value, constCheck);
        VisibleIs(scope);
        if ok { OuterUpdate(outer, scope.variables, key, value); }
        return;
      }
      InnermostHere(scope, key);
      ChainOf(scope);
      where := scope;
      ok := Check(scope.types[key], scope.variables[key], value, constCheck);
      if !ok { return; }
      WhatPassesFits(scope.types[key], scope.variables[key], value, constCheck);
      if constCheck && scope.types[key].constant { ConstantStaysExactly(scope.types[key], scope.variables[key]); }
      BindValue(scope, key, value);
    }
  }
}
