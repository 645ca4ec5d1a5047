/**
 * The locally-nameless representation of `src/term/reduce.rs`: the `Var` wrapper,
 * conversion from and to classic (named) terms, the substitution primitives
 * `open` and `shifted`, and `rebind`, which splices global definitions in for
 * free names.
 *
 * The source mutates an exclusively owned tree in place (`&mut self`); since no
 * node is ever shared, each such operation is modelled as a function from the old
 * tree to the new one.
 */
module Reduce {
  import opened Wrappers
  import opened Terms

  /** `Var<T>`: a De Bruijn index (0 = nearest binder) or a free identifier. */
  datatype Var<T> = Bound(index: nat) | Free(name: T)

  /** `LocalNamelessTerm<T> = Term<Var<T>>`. */
  type LnTerm<T> = Term<Var<T>>

  /** `LocalNamelessError`: the two ways converting back to a classic term can fail. */
  datatype LocalNamelessError = InvalidVarIndex(index: nat) | InvalidAbsParam(index: nat)

  /**
   * The outcome of `BetaReduce::beta_reduce_step(&self, &mut term) -> bool`: whether a
   * reduction was performed, and the term as the step left it.
   */
  datatype Step<T> = Step(changed: bool, term: LnTerm<T>)

  /**
   * Well-formedness of a locally-nameless term below `depth` enclosing binders:
   * every `Bound(k)` sits under more than `k` abstractions (counting the `depth`
   * outer ones) and every abstraction's parameter is `Free`.
   */
  predicate WellFormed<T>(t: LnTerm<T>, depth: nat)
  {
    match t
    case Var(Bound(k)) => k < depth
    case Var(Free(_)) => true
    case Abs(p, b) => p.Free? && WellFormed(b, depth + 1)
    case App(f, a) => WellFormed(f, depth) && WellFormed(a, depth)
  }

  /** A term well-formed under some binders is well-formed under more. */
  lemma {:induction false} WellFormedWeaken<T>(t: LnTerm<T>, depth: nat, depth': nat)
    requires WellFormed(t, depth) && depth <= depth'
    ensures WellFormed(t, depth')
  {
    match t
    case Var(_) =>
    case Abs(_, b) => WellFormedWeaken(b, depth + 1, depth' + 1);
    case App(f, a) =>
      WellFormedWeaken(f, depth, depth');
      WellFormedWeaken(a, depth, depth');
  }

  /** The names occurring as `Free` variables (abstraction labels excluded). */
  ghost function FreeNames<T>(t: LnTerm<T>): set<T>
  {
    match t
    case Var(Bound(_)) => {}
    case Var(Free(v)) => {v}
    case Abs(_, b) => FreeNames(b)
    case App(f, a) => FreeNames(f) + FreeNames(a)
  }

  // ---------------------------------------------------------------------------
  // shifted / open
  // ---------------------------------------------------------------------------

  /** `shifted(depth, amount)`: add `amount` to every index at or above the cutoff. */
  function Shifted<T>(t: LnTerm<T>, depth: nat, amount: nat): LnTerm<T>
  {
    match t
    case Var(Bound(i)) => if i >= depth then Var(Bound(i + amount)) else Var(Bound(i))
    case Var(Free(v)) => Var(Free(v))
    case Abs(p, b) => Abs(p, Shifted(b, depth + 1, amount))
    case App(f, a) => App(Shifted(f, depth, amount), Shifted(a, depth, amount))
  }

  /** Shifting by zero is the identity. */
  lemma {:induction false} ShiftedByZero<T>(t: LnTerm<T>, depth: nat)
    ensures Shifted(t, depth, 0) == t
  {
    match t
    case Var(_) =>
    case Abs(_, b) => ShiftedByZero(b, depth + 1);
    case App(f, a) => ShiftedByZero(f, depth); ShiftedByZero(a, depth);
  }

  /** Indices below the cutoff are left alone: a term closed below it does not change. */
  lemma {:induction false} ShiftedClosed<T>(t: LnTerm<T>, depth: nat, amount: nat)
    requires WellFormed(t, depth)
    ensures Shifted(t, depth, amount) == t
  {
    match t
    case Var(_) =>
    case Abs(_, b) => ShiftedClosed(b, depth + 1, amount);
    case App(f, a) => ShiftedClosed(f, depth, amount); ShiftedClosed(a, depth, amount);
  }

  /** Two shifts at the same cutoff add up. */
  lemma {:induction false} ShiftedTwice<T>(t: LnTerm<T>, depth: nat, a1: nat, a2: nat)
    ensures Shifted(Shifted(t, depth, a1), depth, a2) == Shifted(t, depth, a1 + a2)
  {
    match t
    case Var(_) =>
    case Abs(_, b) => ShiftedTwice(b, depth + 1, a1, a2);
    case App(f, a) => ShiftedTwice(f, depth, a1, a2); ShiftedTwice(a, depth, a1, a2);
  }

  /** Shifting keeps well-formedness once `amount` more binders enclose the term. */
  lemma {:induction false} ShiftedWellFormed<T>(t: LnTerm<T>, cutoff: nat, amount: nat, depth: nat)
    requires WellFormed(t, depth)
    ensures WellFormed(Shifted(t, cutoff, amount), depth + amount)
  {
    match t
    case Var(_) =>
    case Abs(_, b) => ShiftedWellFormed(b, cutoff + 1, amount, depth + 1);
    case App(f, a) => ShiftedWellFormed(f, cutoff, amount, depth); ShiftedWellFormed(a, cutoff, amount, depth);
  }

  /** Shifting touches neither free names nor abstraction labels. */
  lemma {:induction false} ShiftedKeepsNames<T>(t: LnTerm<T>, depth: nat, amount: nat)
    ensures FreeNames(Shifted(t, depth, amount)) == FreeNames(t)
    ensures Shifted(t, depth, amount).Abs? <==> t.Abs?
    ensures t.Abs? ==> Shifted(t, depth, amount).param == t.param
  {
    match t
    case Var(_) =>
    case Abs(_, b) => ShiftedKeepsNames(b, depth + 1, amount);
    case App(f, a) => ShiftedKeepsNames(f, depth, amount); ShiftedKeepsNames(a, depth, amount);
  }

  /**
   * `open(depth, replacement)`: `Bound(depth)` becomes the replacement shifted by
   * `depth` (so its own indices still point past the binders it now sits under),
   * greater indices drop by one because the binder being consumed disappears, and
   * smaller indices and free names are left alone.
   */
  function Open<T>(t: LnTerm<T>, depth: nat, replacement: LnTerm<T>): LnTerm<T>
  {
    match t
    case Var(Bound(i)) =>
      if i == depth then Shifted(replacement, 0, depth)
      else if i > depth then Var(Bound(i - 1))
      else t
    case Var(Free(_)) => t
    case Abs(p, b) => Abs(p, Open(b, depth + 1, replacement))
    case App(f, a) => App(Open(f, depth, replacement), Open(a, depth, replacement))
  }

  /**
   * Opening keeps terms well-formed: a body under `depth + 1` binders, opened at
   * `depth` with a replacement well-formed outside them, is well-formed under `depth`.
   */
  lemma {:induction false} OpenWellFormed<T>(t: LnTerm<T>, d: nat, replacement: LnTerm<T>, outer: nat)
    requires WellFormed(t, outer + d + 1) && WellFormed(replacement, outer)
    ensures WellFormed(Open(t, d, replacement), outer + d)
  {
    match t
    case Var(Bound(i)) =>
      if i == d { ShiftedWellFormed(replacement, 0, d, outer); }
    case Var(Free(_)) =>
    case Abs(_, b) => OpenWellFormed(b, d + 1, replacement, outer);
    case App(f, a) => OpenWellFormed(f, d, replacement, outer); OpenWellFormed(a, d, replacement, outer);
  }

  /** A term that does not use index `depth` (it was shifted past it) opens to itself. */
  lemma {:induction false} OpenShifted<T>(t: LnTerm<T>, depth: nat, replacement: LnTerm<T>)
    ensures Open(Shifted(t, depth, 1), depth, replacement) == t
  {
    match t
    case Var(_) =>
    case Abs(_, b) => OpenShifted(b, depth + 1, replacement);
    case App(f, a) => OpenShifted(f, depth, replacement); OpenShifted(a, depth, replacement);
  }

  /** Opening brings in the replacement's free names and no others. */
  lemma {:induction false} OpenFreeNames<T>(t: LnTerm<T>, depth: nat, replacement: LnTerm<T>)
    ensures FreeNames(Open(t, depth, replacement)) <= FreeNames(t) + FreeNames(replacement)
  {
    match t
    case Var(Bound(i)) => if i == depth { ShiftedKeepsNames(replacement, 0, depth); }
    case Var(Free(_)) =>
    case Abs(_, b) => OpenFreeNames(b, depth + 1, replacement);
    case App(f, a) => OpenFreeNames(f, depth, replacement); OpenFreeNames(a, depth, replacement);
  }

  // ---------------------------------------------------------------------------
  // Conversion between classic and locally-nameless terms
  // ---------------------------------------------------------------------------

  /** `vars.iter().position(...)`: the index of the first entry equal to `x`. */
  function Position<T(==)>(vars: seq<T>, x: T): (r: Option<nat>)
    ensures r.Some? ==> r.value < |vars| && vars[r.value] == x && x !in vars[..r.value]
    ensures r.None? <==> x !in vars
  {
    if vars == [] then None
    else if vars[0] == x then Some(0)
    else match Position(vars[1..], x)
      case None => None
      case Some(k) => assert vars[..k + 1] == [vars[0]] + vars[1..][..k]; Some(k + 1)
  }

  /**
   * `to_local_nameless(vars)`; `vars` is the binder stack, innermost first
   * (`push_front` before the body, `pop_front` after it). A variable becomes the
   * index of the nearest binder with its name, or `Free` if there is none; each
   * parameter is kept as a `Free` label.
   */
  function ToLocalNameless<T(==)>(t: Term<T>, vars: seq<T>): LnTerm<T>
  {
    match t
    case Var(v) =>
      (match Position(vars, v)
       case Some(index) => Var(Bound(index))
       case None => Var(Free(v)))
    case Abs(p, b) => Abs(Free(p), ToLocalNameless(b, [p] + vars))
    case App(f, a) => App(ToLocalNameless(f, vars), ToLocalNameless(a, vars))
  }

  /** `From<&Term<T>> for LocalNamelessTerm<T>`: start with the empty stack. */
  function FromClassic<T(==)>(t: Term<T>): LnTerm<T>
  {
    ToLocalNameless(t, [])
  }

  /**
   * `to_classic(vars)`: `Free(v)` becomes `v`, `Bound(k)` the `k`-th stacked name;
   * an index past the stack is `InvalidVarIndex`, a `Bound` parameter `InvalidAbsParam`.
   * In an application the function side is converted first (`?` returns its error).
   */
  function ToClassic<T>(t: LnTerm<T>, vars: seq<T>): Result<Term<T>, LocalNamelessError>
  {
    match t
    case Var(Bound(index)) =>
      if index < |vars| then Ok(Var(vars[index])) else Err(InvalidVarIndex(index))
    case Var(Free(v)) => Ok(Var(v))
    case Abs(Bound(index), _) => Err(InvalidAbsParam(index))
    case Abs(Free(p), b) =>
      (match ToClassic(b, [p] + vars)
       case Err(e) => Err(e)
       case Ok(body) => Ok(Abs(p, body)))
    case App(f, a) =>
      match ToClassic(f, vars)
      case Err(e) => Err(e)
      case Ok(func) =>
        match ToClassic(a, vars)
        case Err(e) => Err(e)
        case Ok(arg) => Ok(App(func, arg))
  }

  /** `TryFrom<&LocalNamelessTerm<T>> for Term<T>`: start with the empty stack. */
  function TryIntoClassic<T>(t: LnTerm<T>): Result<Term<T>, LocalNamelessError>
  {
    ToClassic(t, [])
  }

  /** The forward conversion is well-formed: it never leaves an index dangling. */
  lemma {:induction false} ToLocalNamelessWellFormed<T>(t: Term<T>, vars: seq<T>)
    ensures WellFormed(ToLocalNameless(t, vars), |vars|)
  {
    match t
    case Var(_) =>
    case Abs(p, b) => ToLocalNamelessWellFormed(b, [p] + vars);
    case App(f, a) => ToLocalNamelessWellFormed(f, vars); ToLocalNamelessWellFormed(a, vars);
  }

  /** Converting to locally-nameless form and back gives the original term. */
  lemma {:induction false} RoundTrip<T>(t: Term<T>, vars: seq<T>)
    ensures ToClassic(ToLocalNameless(t, vars), vars) == Ok(t)
  {
    match t
    case Var(_) =>
    case Abs(p, b) => RoundTrip(b, [p] + vars);
    case App(f, a) => RoundTrip(f, vars); RoundTrip(a, vars);
  }

  /** The conversion back succeeds exactly on well-formed terms. */
  lemma {:induction false} ToClassicSucceedsIffWellFormed<T>(t: LnTerm<T>, vars: seq<T>)
    ensures ToClassic(t, vars).Ok? <==> WellFormed(t, |vars|)
  {
    match t
    case Var(_) =>
    case Abs(Bound(_), _) =>
    case Abs(Free(p), b) => ToClassicSucceedsIffWellFormed(b, [p] + vars);
    case App(f, a) => ToClassicSucceedsIffWellFormed(f, vars); ToClassicSucceedsIffWellFormed(a, vars);
  }

  /** `t` has an occurrence `Bound(k)` under fewer than `k + 1 - depth` of its own binders. */
  ghost predicate HasDanglingIndex<T>(t: LnTerm<T>, depth: nat, k: nat)
  {
    match t
    case Var(Bound(i)) => i == k && k >= depth
    case Var(Free(_)) => false
    case Abs(_, b) => HasDanglingIndex(b, depth + 1, k)
    case App(f, a) => HasDanglingIndex(f, depth, k) || HasDanglingIndex(a, depth, k)
  }

  /** Some abstraction of `t` has the parameter `Bound(k)`. */
  ghost predicate HasBoundParam<T>(t: LnTerm<T>, k: nat)
  {
    match t
    case Var(_) => false
    case Abs(p, b) => p == Bound(k) || HasBoundParam(b, k)
    case App(f, a) => HasBoundParam(f, k) || HasBoundParam(a, k)
  }

  /** Each error names a genuine defect of the term. */
  lemma {:induction false} ToClassicErrors<T>(t: LnTerm<T>, vars: seq<T>, k: nat)
    ensures ToClassic(t, vars) == Err(InvalidVarIndex(k)) ==> HasDanglingIndex(t, |vars|, k)
    ensures ToClassic(t, vars) == Err(InvalidAbsParam(k)) ==> HasBoundParam(t, k)
  {
    match t
    case Var(_) =>
    case Abs(Bound(_), _) =>
    case Abs(Free(p), b) => ToClassicErrors(b, [p] + vars, k);
    case App(f, a) => ToClassicErrors(f, vars, k); ToClassicErrors(a, vars, k);
  }

  // ---------------------------------------------------------------------------
  // Converting back without capture
  // ---------------------------------------------------------------------------

  /**
   * `to_classic` names `Bound(k)` after the `k`-th stacked binder and `Free(v)` after
   * itself, without checking that the name still refers to the same variable. After a
   * reduction a free `v` can end up under a binder named `v`, and the named result then
   * captures it. This version produces a name only when reading it back with
   * `to_local_nameless` gives the same variable: `Bound(k)` only when no nearer binder
   * has that name, `Free(v)` only when no enclosing binder is named `v`.
   */
  function ToClassicChecked<T(==)>(t: LnTerm<T>, vars: seq<T>): Option<Term<T>>
  {
    match t
    case Var(Bound(index)) =>
      if index < |vars| && vars[index] !in vars[..index] then Some(Var(vars[index])) else None
    case Var(Free(v)) => if v !in vars then Some(Var(v)) else None
    case Abs(Bound(_), _) => None
    case Abs(Free(p), b) =>
      (match ToClassicChecked(b, [p] + vars)
       case None => None
       case Some(body) => Some(Abs(p, body)))
    case App(f, a) =>
      match ToClassicChecked(f, vars)
      case None => None
      case Some(func) =>
        match ToClassicChecked(a, vars)
        case None => None
        case Some(arg) => Some(App(func, arg))
  }

  /** A name that occurs at `k` and nowhere before sits at position `k`. */
  lemma PositionOfFirst<T>(vars: seq<T>, k: nat)
    requires k < |vars| && vars[k] !in vars[..k]
    ensures Position(vars, vars[k]) == Some(k)
  {
  }

  /**
   * The checked conversion is capture-free: whatever it names reads back as the same
   * locally-nameless term, and it agrees with `to_classic` wherever it succeeds.
   */
  lemma {:induction false} ToClassicCheckedSound<T>(t: LnTerm<T>, vars: seq<T>)
    requires ToClassicChecked(t, vars).Some?
    ensures ToLocalNameless(ToClassicChecked(t, vars).value, vars) == t
    ensures ToClassic(t, vars) == Ok(ToClassicChecked(t, vars).value)
  {
    match t
    case Var(Bound(k)) => PositionOfFirst(vars, k);
    case Var(Free(_)) =>
    case Abs(Free(p), b) => ToClassicCheckedSound(b, [p] + vars);
    case App(f, a) => ToClassicCheckedSound(f, vars); ToClassicCheckedSound(a, vars);
  }

  /** It loses nothing: every term that comes from a named term converts back to it. */
  lemma {:induction false} ToClassicCheckedComplete<T>(u: Term<T>, vars: seq<T>)
    ensures ToClassicChecked(ToLocalNameless(u, vars), vars) == Some(u)
  {
    match u
    case Var(v) =>
      if Position(vars, v).Some? {
        assert vars[Position(vars, v).value] == v;
      }
    case Abs(p, b) => ToClassicCheckedComplete(b, [p] + vars);
    case App(f, a) => ToClassicCheckedComplete(f, vars); ToClassicCheckedComplete(a, vars);
  }

  // ---------------------------------------------------------------------------
  // rebind: splice global definitions in for free names
  // ---------------------------------------------------------------------------

  /** The binding table `binds: HashMap<T, LocalNamelessTerm<T>>`. */
  type Binds<T(==)> = map<T, LnTerm<T>>

  /** `rebind(binds)`: each `Free(n)` with `n` in the table becomes a copy of `binds[n]`. */
  function Rebind<T(==)>(t: LnTerm<T>, binds: Binds<T>): LnTerm<T>
  {
    match t
    case Var(Bound(_)) => t
    case Var(Free(v)) => if v in binds then binds[v] else t
    case Abs(p, b) => Abs(p, Rebind(b, binds))
    case App(f, a) => App(Rebind(f, binds), Rebind(a, binds))
  }

  /** Every definition in the table is closed: it has no dangling index at top level. */
  ghost predicate ClosedBinds<T>(binds: Binds<T>)
  {
    forall n :: n in binds ==> WellFormed(binds[n], 0)
  }

  /** With closed definitions, rebinding keeps a term well-formed. */
  lemma {:induction false} RebindWellFormed<T>(t: LnTerm<T>, binds: Binds<T>, depth: nat)
    requires WellFormed(t, depth) && ClosedBinds(binds)
    ensures WellFormed(Rebind(t, binds), depth)
  {
    match t
    case Var(Bound(_)) =>
    case Var(Free(v)) => if v in binds { WellFormedWeaken(binds[v], 0, depth); }
    case Abs(_, b) => RebindWellFormed(b, binds, depth + 1);
    case App(f, a) => RebindWellFormed(f, binds, depth); RebindWellFormed(a, binds, depth);
  }

  /** Terms with no free name in the table are left unchanged (in particular with an empty table). */
  lemma {:induction false} RebindUnbound<T>(t: LnTerm<T>, binds: Binds<T>)
    requires FreeNames(t) !! binds.Keys
    ensures Rebind(t, binds) == t
  {
    match t
    case Var(_) =>
    case Abs(_, b) => RebindUnbound(b, binds);
    case App(f, a) => RebindUnbound(f, binds); RebindUnbound(a, binds);
  }

  /**
   * The free names after rebinding: the unbound names of `t`, plus the free names of
   * the definitions of its bound names (resolution is one level deep).
   */
  lemma {:induction false} RebindFreeNames<T>(t: LnTerm<T>, binds: Binds<T>, x: T)
    ensures x in FreeNames(Rebind(t, binds)) <==>
      (x in FreeNames(t) && x !in binds) ||
      (exists n :: n in FreeNames(t) && n in binds && x in FreeNames(binds[n]))
  {
    match t
    case Var(_) =>
    case Abs(_, b) => RebindFreeNames(b, binds, x);
    case App(f, a) => RebindFreeNames(f, binds, x); RebindFreeNames(a, binds, x);
  }
}
