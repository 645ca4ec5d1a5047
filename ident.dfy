/**
 * Identifiers of `src/ident.rs`: a name together with an optional numeric id.
 * The id is assigned by the renaming pass of `src/term.rs` so that distinct
 * binders of the same name become distinguishable.
 */
module Idents {
  import opened Wrappers

  /** `Ident<T>(T, Option<usize>)`: the name and its (optional) id. */
  datatype Ident<T> = Ident(name: T, id: Option<nat>)

  /** The counter table `ids: HashMap<T, usize>`; a missing key reads as 0 (`or_default`). */
  type Counters<T(==)> = map<T, nat>

  function Counter<T(==)>(ids: Counters<T>, v: T): nat
  {
    if v in ids then ids[v] else 0
  }

  /** `Ident::free`: an identifier that has no id yet. */
  function Free<T>(name: T): (i: Ident<T>)
    ensures i.name == name && i.id == None
  {
    Ident(name, None)
  }

  /** `Ident::rebind`: overwrite the id; the name never changes. */
  function Rebind<T>(i: Ident<T>, id: Option<nat>): (r: Ident<T>)
    ensures r.name == i.name && r.id == id
  {
    i.(id := id)
  }

  /** The identifier `bound` hands out, the id it reports and the updated counters. */
  datatype BoundIdent<T(==)> = BoundIdent(ident: Ident<T>, id: nat, ids: Counters<T>)

  /**
   * `Ident::bound`: take the current counter of `v` (0 when absent) as the new id,
   * and increment that counter.
   */
  function Bound<T(==)>(v: T, ids: Counters<T>): (r: BoundIdent<T>)
    ensures r.ident.name == v && r.ident.id == Some(r.id)
    ensures r.id == Counter(ids, v)
    ensures Counter(r.ids, v) == Counter(ids, v) + 1
  {
    var current := Counter(ids, v);
    BoundIdent(Ident(v, Some(current)), current, ids[v := current + 1])
  }

  /** `bound` leaves the counters of all other names alone. */
  lemma BoundKeepsOthers<T>(v: T, ids: Counters<T>, w: T)
    requires w != v
    ensures Counter(Bound(v, ids).ids, w) == Counter(ids, w)
  {
  }

  /** The ids reported by `n` successive calls of `bound` for the same name. */
  function BoundIds<T(==)>(v: T, ids: Counters<T>, n: nat): seq<nat>
    decreases n
  {
    if n == 0 then [] else
      var b := Bound(v, ids);
      [b.id] + BoundIds(v, b.ids, n - 1)
  }

  /** Successive calls for one name hand out consecutive, hence distinct, ids. */
  lemma {:induction false} BoundIdsConsecutive<T>(v: T, ids: Counters<T>, n: nat)
    ensures |BoundIds(v, ids, n)| == n
    ensures forall k :: 0 <= k < n ==> BoundIds(v, ids, n)[k] == Counter(ids, v) + k
    decreases n
  {
    if n > 0 {
      var b := Bound(v, ids);
      BoundIdsConsecutive(v, b.ids, n - 1);
      assert BoundIds(v, ids, n) == [b.id] + BoundIds(v, b.ids, n - 1);
    }
  }

  lemma BoundIdsDistinct<T>(v: T, ids: Counters<T>, n: nat)
    ensures forall j, k :: 0 <= j < k < |BoundIds(v, ids, n)| ==> BoundIds(v, ids, n)[j] < BoundIds(v, ids, n)[k]
  {
    BoundIdsConsecutive(v, ids, n);
  }

  /** `Display for Ident`: only the name is shown; the id is ignored. */
  function Display(i: Ident<string>): (s: string)
    ensures s == i.name
  {
    i.name
  }

  /** Rebinding an identifier never changes how it is displayed. */
  lemma DisplayIgnoresId(i: Ident<string>, id: Option<nat>)
    ensures Display(Rebind(i, id)) == Display(i)
  {
  }
}
