/**
 * What the renaming pass `Term::rebind` of `src/term.rs` achieves: after it, resolving
 * variables by the full identifier (name AND id) finds exactly the binders that
 * resolving by name alone found before. Every variable keeps its binder, and at the
 * same time it now carries that binder's id; variables without a binder keep no id.
 */
module Renaming {
  import opened Wrappers
  import opened Terms
  import opened Reduce
  import Idents

  /** Forget the ids of a locally-nameless term over identifiers. */
  function Strip<T>(t: LnTerm<Idents.Ident<T>>): LnTerm<T>
  {
    match t
    case Var(Bound(k)) => Var(Bound(k))
    case Var(Free(i)) => Var(Free(i.name))
    case Abs(Bound(k), b) => Abs(Bound(k), Strip(b))
    case Abs(Free(i), b) => Abs(Free(i.name), Strip(b))
    case App(f, a) => App(Strip(f), Strip(a))
  }

  /** Every free variable of the term has no id. */
  ghost predicate FreeUnnumbered<T>(t: LnTerm<Idents.Ident<T>>)
  {
    match t
    case Var(Bound(_)) => true
    case Var(Free(i)) => i.id == None
    case Abs(_, b) => FreeUnnumbered(b)
    case App(f, a) => FreeUnnumbered(f) && FreeUnnumbered(a)
  }

  /** The ids of the stack entries named `x`, innermost first. */
  function IdsNamed<T(==)>(vars: seq<Idents.Ident<T>>, x: T): seq<nat>
  {
    if |vars| == 0 then []
    else (if vars[0].name == x && vars[0].id.Some? then [vars[0].id.value] else []) + IdsNamed(vars[1..], x)
  }

  /** A stack of numbered binders whose names are the stack of names. */
  ghost predicate StackMatches<T>(identVars: seq<Idents.Ident<T>>, nameVars: seq<T>)
  {
    && |identVars| == |nameVars|
    && forall k :: 0 <= k < |identVars| ==> identVars[k].name == nameVars[k] && identVars[k].id.Some?
  }

  /**
   * Looking a name up on the scope stacks agrees with looking it up among the
   * binders: the innermost id named `x` identifies the innermost binder named `x`.
   */
  lemma {:induction false} LookupAgrees<T>(identVars: seq<Idents.Ident<T>>, nameVars: seq<T>, x: T)
    requires StackMatches(identVars, nameVars)
    ensures Position(nameVars, x).Some? ==>
      IdsNamed(identVars, x) != [] &&
      Position(identVars, Idents.Ident(x, Some(IdsNamed(identVars, x)[0]))) == Position(nameVars, x)
    ensures Position(nameVars, x).None? ==>
      IdsNamed(identVars, x) == [] && Position(identVars, Idents.Ident(x, None)).None?
    decreases |identVars|
  {
    if |identVars| > 0 {
      LookupAgrees(identVars[1..], nameVars[1..], x);
      if identVars[0].name != x {
        assert Idents.Ident(x, None) != identVars[0];
      }
    }
  }

  /** The generalisation the proof needs: any matching binder stacks and scope tables. */
  lemma {:induction false} RebindIdsKeepsBinders<T>(t: IdentTerm<T>, ids: Idents.Counters<T>, scopes: Scopes<T>, identVars: seq<Idents.Ident<T>>, nameVars: seq<T>)
    requires Unnumbered(t) && StackMatches(identVars, nameVars)
    requires forall x :: ScopeOf(scopes, Idents.Ident(x, None)) == IdsNamed(identVars, x)
    ensures Strip(ToLocalNameless(RebindIds(t, ids, scopes).term, identVars)) == ToLocalNameless(Erase(t), nameVars)
    ensures FreeUnnumbered(ToLocalNameless(RebindIds(t, ids, scopes).term, identVars))
  {
    match t
    case Var(i) =>
      LookupAgrees(identVars, nameVars, i.name);
      assert ScopeOf(scopes, Idents.Ident(i.name, None)) == IdsNamed(identVars, i.name);
    case Abs(param, body) =>
      var bound := Idents.Bound(param.name, ids);
      var pushed := scopes[param := [bound.id] + ScopeOf(scopes, param)];
      var identVars' := [bound.ident] + identVars;
      var nameVars' := [param.name] + nameVars;
      assert identVars'[1..] == identVars;
      forall x ensures ScopeOf(pushed, Idents.Ident(x, None)) == IdsNamed(identVars', x) {
        assert ScopeOf(scopes, Idents.Ident(x, None)) == IdsNamed(identVars, x);
      }
      RebindIdsKeepsBinders(body, bound.ids, pushed, identVars', nameVars');
    case App(func, arg) =>
      var f := RebindIds(func, ids, scopes);
      RebindIdsKeepsBinders(func, ids, scopes, identVars, nameVars);
      forall x ensures ScopeOf(f.scopes, Idents.Ident(x, None)) == IdsNamed(identVars, x) {
        RebindIdsRestoresScopes(func, ids, scopes, Idents.Ident(x, None));
      }
      RebindIdsKeepsBinders(arg, f.ids, f.scopes, identVars, nameVars);
  }

  /**
   * The renaming is binder-preserving: on a term as the constructors build it, starting
   * from no scopes and any counters, resolving the renamed term by full identifiers gives
   * the same locally-nameless term as resolving the original by names, and free
   * variables are left without an id.
   */
  lemma RenamingKeepsBinders<T>(t: IdentTerm<T>, ids: Idents.Counters<T>)
    requires Unnumbered(t)
    ensures Strip(FromClassic(RebindIds(t, ids, map[]).term)) == FromClassic(Erase(t))
    ensures FreeUnnumbered(FromClassic(RebindIds(t, ids, map[]).term))
  {
    RebindIdsKeepsBinders(t, ids, map[], [], []);
  }
}
