/**
 * The term model of `src/term.rs`: untyped lambda terms, their constructors,
 * the minimal-parenthesis display and the fresh-id renaming pass.
 *
 * `Term<T>` is generic over the identifier type. The reduction engine uses it
 * over plain identifiers; `src/term.rs` itself stores `Ident<T>` in every variable
 * and binder slot, which here is `Term<Idents.Ident<T>>`.
 */
module Terms {
  import opened Wrappers
  import Idents

  /** A variable, a single-parameter abstraction, or an application. */
  datatype Term<T> = Var(v: T) | Abs(param: T, body: Term<T>) | App(func: Term<T>, arg: Term<T>)

  /** The term `src/term.rs` works with: identifiers carry an optional id. */
  type IdentTerm<T> = Term<Idents.Ident<T>>

  /** Forget the ids, keeping only the names. */
  function Erase<T>(t: IdentTerm<T>): Term<T>
  {
    match t
    case Var(i) => Var(i.name)
    case Abs(p, b) => Abs(p.name, Erase(b))
    case App(f, a) => App(Erase(f), Erase(a))
  }

  /** No identifier of the term carries an id (every term built by the constructors). */
  predicate Unnumbered<T>(t: IdentTerm<T>)
  {
    match t
    case Var(i) => i.id == None
    case Abs(p, b) => p.id == None && Unnumbered(b)
    case App(f, a) => Unnumbered(f) && Unnumbered(a)
  }

  // ---------------------------------------------------------------------------
  // Constructors `Term::var`, `Term::abs`, `Term::app`: no validation at all.
  // ---------------------------------------------------------------------------

  function MakeVar<T>(name: T): (t: IdentTerm<T>)
    ensures Erase(t) == Var(name) && Unnumbered(t)
  {
    Var(Idents.Free(name))
  }

  function MakeAbs<T>(param: T, body: IdentTerm<T>): (t: IdentTerm<T>)
    ensures t.Abs? && t.param == Idents.Free(param) && t.body == body
    ensures Erase(t) == Abs(param, Erase(body))
    ensures Unnumbered(t) <==> Unnumbered(body)
  {
    Abs(Idents.Free(param), body)
  }

  function MakeApp<T>(func: IdentTerm<T>, arg: IdentTerm<T>): (t: IdentTerm<T>)
    ensures t.App? && t.func == func && t.arg == arg
    ensures Erase(t) == App(Erase(func), Erase(arg))
    ensures Unnumbered(t) <==> Unnumbered(func) && Unnumbered(arg)
  {
    App(func, arg)
  }

  /** Every classic term arises from the constructors: `Lift` rebuilds it from names. */
  function Lift<T>(t: Term<T>): (r: IdentTerm<T>)
    ensures Erase(r) == t && Unnumbered(r)
  {
    match t
    case Var(v) => MakeVar(v)
    case Abs(p, b) => MakeAbs(p, Lift(b))
    case App(f, a) => MakeApp(Lift(f), Lift(a))
  }

  // ---------------------------------------------------------------------------
  // Display: `λp. body`, juxtaposition, parentheses only where needed.
  // ---------------------------------------------------------------------------

  /**
   * `Display for Term`: an abstraction is `λ<param>. <body>`; an application is its
   * function and its argument separated by a space, the function parenthesised iff it
   * is an abstraction and the argument iff it is an abstraction or an application.
   */
  function Display(t: IdentTerm<string>): string
    decreases t, 1
  {
    match t
    case Var(i) => Idents.Display(i)
    case Abs(p, b) => "λ" + Idents.Display(p) + ". " + Display(b)
    case App(f, a) => FuncText(f) + " " + ArgText(a)
  }

  /** The text of a function in an application. */
  function FuncText(f: IdentTerm<string>): string
    decreases f, 2
  {
    if f.Abs? then "(" + Display(f) + ")" else Display(f)
  }

  /** The text of an argument in an application. */
  function ArgText(a: IdentTerm<string>): string
    decreases a, 2
  {
    if a.Abs? || a.App? then "(" + Display(a) + ")" else Display(a)
  }

  /** The display shows only names: two terms with the same names display alike. */
  lemma {:induction false} DisplayIgnoresIds(t: IdentTerm<string>, u: IdentTerm<string>)
    requires Erase(t) == Erase(u)
    ensures Display(t) == Display(u)
  {
    match t
    case Var(_) =>
    case Abs(_, b) => DisplayIgnoresIds(b, u.body);
    case App(f, a) =>
      DisplayIgnoresIds(f, u.func);
      DisplayIgnoresIds(a, u.arg);
  }

  // The four layouts of an application, one per arm of the source's match.

  /** An abstraction applied to an abstraction or an application: both parenthesised. */
  lemma DisplayAppParenBoth(f: IdentTerm<string>, a: IdentTerm<string>)
    requires f.Abs? && !a.Var?
    ensures Display(App(f, a)) == "(" + Display(f) + ") (" + Display(a) + ")"
  {
    var df, da := Display(f), Display(a);
    Regroup("(" + df, ")", "(", da + ")");
    assert "(" + df + ") (" + da + ")" == ("(" + df) + (") (" + (da + ")"));
  }

  /** An abstraction applied to a variable: only the function parenthesised. */
  lemma DisplayAppParenFunc(f: IdentTerm<string>, a: IdentTerm<string>)
    requires f.Abs? && a.Var?
    ensures Display(App(f, a)) == "(" + Display(f) + ") " + Display(a)
  {
    var df, da := Display(f), Display(a);
    Regroup("(" + df, ")", "", da);
    assert "(" + df + ") " + da == ("(" + df) + (") " + da);
  }

  /** Anything else applied to an abstraction or an application: only the argument parenthesised. */
  lemma DisplayAppParenArg(f: IdentTerm<string>, a: IdentTerm<string>)
    requires !f.Abs? && !a.Var?
    ensures Display(App(f, a)) == Display(f) + " (" + Display(a) + ")"
  {
    var df, da := Display(f), Display(a);
    Regroup(df, "", "(", da + ")");
    assert df + " (" + da + ")" == df + (" (" + (da + ")"));
  }

  /** Anything else applied to a variable: no parentheses. */
  lemma DisplayAppPlain(f: IdentTerm<string>, a: IdentTerm<string>)
    requires !f.Abs? && a.Var?
    ensures Display(App(f, a)) == Display(f) + " " + Display(a)
  {
  }

  /** Moving the separating space into a neighbouring literal. */
  lemma Regroup(x: string, close: string, open: string, y: string)
    ensures (x + close) + " " + (open + y) == x + ((close + " " + open) + y)
  {
  }

  // ---------------------------------------------------------------------------
  // The renaming pass `Term::rebind`: fresh ids per binder, scope stacks per ident.
  // ---------------------------------------------------------------------------

  /** The scope table `scopes: HashMap<Ident<T>, VecDeque<usize>>`, innermost id first. */
  type Scopes<T(==)> = map<Idents.Ident<T>, seq<nat>>

  /** The stack of an identifier; a missing entry is the empty stack (`or_default`). */
  function ScopeOf<T(==)>(scopes: Scopes<T>, i: Idents.Ident<T>): seq<nat>
  {
    if i in scopes then scopes[i] else []
  }

  /** `pop_front` on a stack; popping the empty stack leaves it empty. */
  function PopFront(s: seq<nat>): seq<nat>
  {
    if s == [] then [] else s[1..]
  }

  /** The renamed term together with the updated counter and scope tables. */
  datatype Renamed<T(==)> = Renamed(term: IdentTerm<T>, ids: Idents.Counters<T>, scopes: Scopes<T>)

  /**
   * `Term::rebind(&mut self, ids, scopes)`. A variable takes the innermost id on its
   * identifier's scope stack, if any. An abstraction gets a fresh id from `Ident::bound`,
   * pushes it on its parameter's stack for the body, pops it afterwards and then
   * overwrites its parameter with the numbered identifier.
   */
  function RebindIds<T(==)>(t: IdentTerm<T>, ids: Idents.Counters<T>, scopes: Scopes<T>): Renamed<T>
  {
    match t
    case Var(ident) =>
      var scope := ScopeOf(scopes, ident);
      if ident in scopes && scope != [] then Renamed(Var(Idents.Rebind(ident, Some(scope[0]))), ids, scopes)
      else Renamed(t, ids, scopes)
    case Abs(param, body) =>
      var bound := Idents.Bound(param.name, ids);
      var pushed := scopes[param := [bound.id] + ScopeOf(scopes, param)];
      var inner := RebindIds(body, bound.ids, pushed);
      var popped := inner.scopes[param := PopFront(ScopeOf(inner.scopes, param))];
      Renamed(Abs(bound.ident, inner.term), inner.ids, popped)
    case App(func, arg) =>
      var f := RebindIds(func, ids, scopes);
      var a := RebindIds(arg, f.ids, f.scopes);
      Renamed(App(f.term, a.term), a.ids, a.scopes)
  }

  /** Number of abstractions in `t` whose parameter is named `v`. */
  ghost function BinderCount<T>(t: IdentTerm<T>, v: T): nat
  {
    match t
    case Var(_) => 0
    case Abs(p, b) => (if p.name == v then 1 else 0) + BinderCount(b, v)
    case App(f, a) => BinderCount(f, v) + BinderCount(a, v)
  }

  /** The ids of the binders named `v`, in the order the pass visits them (pre-order). */
  ghost function BinderIds<T>(t: IdentTerm<T>, v: T): seq<Option<nat>>
  {
    match t
    case Var(_) => []
    case Abs(p, b) => (if p.name == v then [p.id] else []) + BinderIds(b, v)
    case App(f, a) => BinderIds(f, v) + BinderIds(a, v)
  }

  /** `Some(lo), Some(lo + 1), ..., Some(lo + n - 1)`. */
  function IdRange(lo: nat, n: nat): (r: seq<Option<nat>>)
    ensures |r| == n
    decreases n
  {
    if n == 0 then [] else [Some(lo)] + IdRange(lo + 1, n - 1)
  }

  /** The range holds the consecutive ids from `lo`: all distinct. */
  lemma {:induction false} IdRangeConsecutive(lo: nat, n: nat)
    ensures forall k :: 0 <= k < n ==> IdRange(lo, n)[k] == Some(lo + k)
    decreases n
  {
    if n > 0 {
      IdRangeConsecutive(lo + 1, n - 1);
    }
  }

  lemma {:induction false} IdRangeSplit(lo: nat, n1: nat, n2: nat)
    ensures IdRange(lo, n1) + IdRange(lo + n1, n2) == IdRange(lo, n1 + n2)
    decreases n1
  {
    if n1 > 0 {
      IdRangeSplit(lo + 1, n1 - 1, n2);
      assert IdRange(lo, n1) + IdRange(lo + n1, n2) == [Some(lo)] + (IdRange(lo + 1, n1 - 1) + IdRange(lo + n1, n2));
    }
  }

  /** The renaming changes ids only: every name stays where it was. */
  lemma {:induction false} RebindIdsKeepsNames<T>(t: IdentTerm<T>, ids: Idents.Counters<T>, scopes: Scopes<T>)
    ensures Erase(RebindIds(t, ids, scopes).term) == Erase(t)
  {
    match t
    case Var(_) =>
    case Abs(param, body) =>
      var bound := Idents.Bound(param.name, ids);
      RebindIdsKeepsNames(body, bound.ids, scopes[param := [bound.id] + ScopeOf(scopes, param)]);
    case App(func, arg) =>
      var f := RebindIds(func, ids, scopes);
      RebindIdsKeepsNames(func, ids, scopes);
      RebindIdsKeepsNames(arg, f.ids, f.scopes);
  }

  /**
   * Each binder named `v` takes one id from `v`'s counter: the counter grows by
   * the number of such binders and no other counter changes.
   */
  lemma {:induction false} RebindIdsCounters<T>(t: IdentTerm<T>, ids: Idents.Counters<T>, scopes: Scopes<T>, v: T)
    ensures Idents.Counter(RebindIds(t, ids, scopes).ids, v) == Idents.Counter(ids, v) + BinderCount(t, v)
  {
    match t
    case Var(_) =>
    case Abs(param, body) =>
      var bound := Idents.Bound(param.name, ids);
      RebindIdsCounters(body, bound.ids, scopes[param := [bound.id] + ScopeOf(scopes, param)], v);
    case App(func, arg) =>
      var f := RebindIds(func, ids, scopes);
      RebindIdsCounters(func, ids, scopes, v);
      RebindIdsCounters(arg, f.ids, f.scopes, v);
  }

  /**
   * Every scope is popped after its body: afterwards each identifier has the same
   * stack as before, so sibling subterms see the same scopes.
   */
  lemma {:induction false} RebindIdsRestoresScopes<T>(t: IdentTerm<T>, ids: Idents.Counters<T>, scopes: Scopes<T>, i: Idents.Ident<T>)
    ensures ScopeOf(RebindIds(t, ids, scopes).scopes, i) == ScopeOf(scopes, i)
  {
    match t
    case Var(_) =>
    case Abs(param, body) =>
      var bound := Idents.Bound(param.name, ids);
      var pushed := scopes[param := [bound.id] + ScopeOf(scopes, param)];
      RebindIdsRestoresScopes(body, bound.ids, pushed, i);
      RebindIdsRestoresScopes(body, bound.ids, pushed, param);
    case App(func, arg) =>
      var f := RebindIds(func, ids, scopes);
      RebindIdsRestoresScopes(func, ids, scopes, i);
      RebindIdsRestoresScopes(arg, f.ids, f.scopes, i);
  }

  /**
   * Whether the binders named `v` carry the consecutive ids `lo`, `lo + 1`, ... in
   * visiting order; if so, the id the next such binder would get.
   */
  ghost function NumberedFrom<T>(t: IdentTerm<T>, v: T, lo: nat): Option<nat>
  {
    match t
    case Var(_) => Some(lo)
    case Abs(p, b) =>
      if p.name != v then NumberedFrom(b, v, lo)
      else if p.id == Some(lo) then NumberedFrom(b, v, lo + 1)
      else None
    case App(f, a) =>
      match NumberedFrom(f, v, lo)
      case None => None
      case Some(mid) => NumberedFrom(a, v, mid)
  }

  /** Being numbered from `lo` means the binder ids are exactly the range from `lo`. */
  lemma {:induction false} NumberedFromRange<T>(t: IdentTerm<T>, v: T, lo: nat)
    requires NumberedFrom(t, v, lo).Some?
    ensures NumberedFrom(t, v, lo) == Some(lo + BinderCount(t, v))
    ensures BinderIds(t, v) == IdRange(lo, BinderCount(t, v))
  {
    match t
    case Var(_) =>
    case Abs(p, b) =>
      if p.name != v {
        NumberedFromRange(b, v, lo);
      } else {
        NumberedFromRange(b, v, lo + 1);
      }
    case App(f, a) =>
      NumberedFromRange(f, v, lo);
      NumberedFromRange(a, v, lo + BinderCount(f, v));
      IdRangeSplit(lo, BinderCount(f, v), BinderCount(a, v));
  }

  /** The pass numbers the binders named `v` from that name's counter onwards. */
  lemma {:induction false} RebindIdsNumbers<T>(t: IdentTerm<T>, ids: Idents.Counters<T>, scopes: Scopes<T>, v: T)
    ensures NumberedFrom(RebindIds(t, ids, scopes).term, v, Idents.Counter(ids, v)).Some?
  {
    match t
    case Var(_) =>
    case Abs(param, body) =>
      var bound := Idents.Bound(param.name, ids);
      RebindIdsNumbers(body, bound.ids, scopes[param := [bound.id] + ScopeOf(scopes, param)], v);
      if param.name != v {
        Idents.BoundKeepsOthers(param.name, ids, v);
      }
    case App(func, arg) =>
      var f := RebindIds(func, ids, scopes);
      var a := RebindIds(arg, f.ids, f.scopes);
      RebindIdsNumbers(func, ids, scopes, v);
      NumberedFromRange(f.term, v, Idents.Counter(ids, v));
      RebindIdsKeepsNames(func, ids, scopes);
      BinderCountOfErase(f.term, func, v);
      RebindIdsCounters(func, ids, scopes, v);
      RebindIdsNumbers(arg, f.ids, f.scopes, v);
      assert RebindIds(t, ids, scopes).term == App(f.term, a.term);
  }

  /**
   * The binders named `v` receive the consecutive ids `Counter(ids, v)`, `+ 1`, ...
   * in visiting order: all of them fresh and pairwise distinct.
   */
  lemma RebindIdsFreshBinders<T>(t: IdentTerm<T>, ids: Idents.Counters<T>, scopes: Scopes<T>, v: T)
    ensures BinderIds(RebindIds(t, ids, scopes).term, v) == IdRange(Idents.Counter(ids, v), BinderCount(t, v))
  {
    RebindIdsNumbers(t, ids, scopes, v);
    NumberedFromRange(RebindIds(t, ids, scopes).term, v, Idents.Counter(ids, v));
    RebindIdsKeepsNames(t, ids, scopes);
    BinderCountOfErase(RebindIds(t, ids, scopes).term, t, v);
  }

  /** The binder count depends on names only. */
  lemma {:induction false} BinderCountOfErase<T>(t: IdentTerm<T>, u: IdentTerm<T>, v: T)
    requires Erase(t) == Erase(u)
    ensures BinderCount(t, v) == BinderCount(u, v)
  {
    match t
    case Var(_) =>
    case Abs(_, b) => BinderCountOfErase(b, u.body, v);
    case App(f, a) => BinderCountOfErase(f, u.func, v); BinderCountOfErase(a, u.arg, v);
  }
}
