/**
 * Type-shape helpers of common.go and util.go. Go's reflection types are
 * modelled as identifiers into a finite graph of descriptors, so that
 * self-referential types (a struct holding a slice of itself) can be written.
 */
module TypeShapes {

  type TypeId = nat

  /** The `reflect.Kind` of a type and the types it is built from. */
  datatype TypeDesc =
    | Ptr(elem: TypeId)
    | Struct(fields: seq<TypeId>)
    | Slice(elem: TypeId)
    | Array(elem: TypeId)
    | Map(key: TypeId, elem: TypeId)
    | Interface
    | Basic(kind: string)  // bool, numbers, string, chan, func, ...

  type TypeGraph = map<TypeId, TypeDesc>

  /** The component types: pointer element, struct fields, slice/array element, map key and value. */
  function Children(d: TypeDesc): seq<TypeId> {
    match d
    case Ptr(e) => [e]
    case Struct(fs) => fs
    case Slice(e) => [e]
    case Array(e) => [e]
    case Map(k, e) => [k, e]
    case Interface => []
    case Basic(_) => []
  }

  /** Following pointer elements from `t` reaches a non-pointer type within `n` steps. */
  predicate PtrChainEnds(g: TypeGraph, t: TypeId, n: nat)
    decreases n
  {
    t in g && (g[t].Ptr? ==> n > 0 && PtrChainEnds(g, g[t].elem, n - 1))
  }

  /**
   * Every component type is described, and no pointer chain is cyclic (Go
   * allows `type P *P`, on which the code below would not terminate).
   */
  ghost predicate WellFormed(g: TypeGraph) {
    && (forall t, c :: t in g && c in Children(g[t]) ==> c in g)
    && (forall t :: t in g ==> PtrChainEnds(g, t, |g|))
  }

  lemma {:induction false} ChainMonotone(g: TypeGraph, t: TypeId, n: nat, m: nat)
    requires PtrChainEnds(g, t, n) && n <= m
    ensures PtrChainEnds(g, t, m)
    decreases n
  {
    if g[t].Ptr? {
      ChainMonotone(g, g[t].elem, n - 1, m - 1);
    }
  }

  /** The type at the end of the pointer chain from `t`. */
  function BaseWithin(g: TypeGraph, t: TypeId, n: nat): (r: TypeId)
    requires PtrChainEnds(g, t, n)
    ensures r in g && !g[r].Ptr?
    decreases n
  {
    if g[t].Ptr? then BaseWithin(g, g[t].elem, n - 1) else t
  }

  lemma {:induction false} BaseWithinFuel(g: TypeGraph, t: TypeId, n: nat, m: nat)
    requires PtrChainEnds(g, t, n) && PtrChainEnds(g, t, m)
    ensures BaseWithin(g, t, n) == BaseWithin(g, t, m)
    decreases n
  {
    if g[t].Ptr? {
      BaseWithinFuel(g, g[t].elem, n - 1, m - 1);
    }
  }

  /** The non-pointer type underneath any number of pointers. */
  ghost function Base(g: TypeGraph, t: TypeId): (r: TypeId)
    requires WellFormed(g) && t in g
    ensures r in g && !g[r].Ptr?
  {
    BaseWithin(g, t, |g|)
  }

  /** Stripping one pointer does not change the base type. */
  lemma BaseStep(g: TypeGraph, t: TypeId)
    requires WellFormed(g) && t in g && g[t].Ptr?
    ensures g[t].elem in g && Base(g, t) == Base(g, g[t].elem)
  {
    assert g[t].elem in Children(g[t]);
    BaseWithinFuel(g, g[t].elem, |g| - 1, |g|);
  }

  /** A pointer whose element is again a pointer. */
  predicate IsPtrToPtr(g: TypeGraph, t: TypeId) {
    t in g && g[t].Ptr? && g[t].elem in g && g[g[t].elem].Ptr?
  }

  function DerefWithin(g: TypeGraph, t: TypeId, n: nat): (r: TypeId)
    requires PtrChainEnds(g, t, n)
    ensures PtrChainEnds(g, r, n) && !IsPtrToPtr(g, r)
    ensures BaseWithin(g, r, n) == BaseWithin(g, t, n)
    ensures !IsPtrToPtr(g, t) ==> r == t
    ensures IsPtrToPtr(g, t) ==> g[r].Ptr? && g[r].elem in g && !g[g[r].elem].Ptr?
    decreases n
  {
    if IsPtrToPtr(g, t) then
      var r := DerefWithin(g, g[t].elem, n - 1);
      ChainMonotone(g, r, n - 1, n);
      BaseWithinFuel(g, r, n - 1, n);
      r
    else
      t
  }

  /**
   * `dereferenceToLastPtr` (common.go, util.go): `T` and `*T` are returned
   * unchanged; `**...*T` loses pointer layers until exactly one is left. The
   * result is never a pointer to a pointer and has the same base type.
   */
  function DereferenceToLastPtr(g: TypeGraph, t: TypeId): (r: TypeId)
    requires WellFormed(g) && t in g
    ensures r in g && !IsPtrToPtr(g, r)
    ensures Base(g, r) == Base(g, t)
    ensures !IsPtrToPtr(g, t) ==> r == t
    ensures IsPtrToPtr(g, t) ==> g[r].Ptr? && g[r].elem in g && !g[g[r].elem].Ptr?
  {
    var r := DerefWithin(g, t, |g|);
    r
  }

  /** Dereferencing twice is dereferencing once. */
  lemma DereferenceIdempotent(g: TypeGraph, t: TypeId)
    requires WellFormed(g) && t in g
    ensures DereferenceToLastPtr(g, DereferenceToLastPtr(g, t)) == DereferenceToLastPtr(g, t)
  {
  }

  // ------------------------------------------------------------------
  // Reachability of an interface type
  // ------------------------------------------------------------------

  /** The base types of the components of `u`: the edges `typeHasInterfaceFieldsRecursive` follows. */
  ghost function Succs(g: TypeGraph, u: TypeId): set<TypeId>
    requires WellFormed(g) && u in g
  {
    set c | c in Children(g[u]) :: Base(g, c)
  }

  ghost predicate IsPath(g: TypeGraph, p: seq<TypeId>)
    requires WellFormed(g)
  {
    && |p| > 0
    && (forall i :: 0 <= i < |p| ==> p[i] in g)
    && (forall i :: 0 <= i < |p| - 1 ==> p[i + 1] in Succs(g, p[i]))
  }

  /** Some path of component types leads from `u` to an interface type. */
  ghost predicate ReachesInterface(g: TypeGraph, u: TypeId)
    requires WellFormed(g) && u in g
  {
    exists p :: IsPath(g, p) && p[0] == u && g[p[|p| - 1]].Interface?
  }

  /** An interface type is reachable from `t` through pointers, fields, elements, keys and values. */
  ghost predicate HasInterface(g: TypeGraph, t: TypeId)
    requires WellFormed(g) && t in g
  {
    ReachesInterface(g, Base(g, t))
  }

  /** Every type in `s` is not an interface and has all its successors in `within`. */
  ghost predicate ClosedWithout(g: TypeGraph, s: set<TypeId>, within: set<TypeId>)
    requires WellFormed(g)
  {
    forall u :: u in s ==> u in g && !g[u].Interface? && Succs(g, u) <= within
  }

  lemma ReachViaComponent(g: TypeGraph, u: TypeId, c: TypeId)
    requires WellFormed(g) && u in g && c in Children(g[u])
    requires HasInterface(g, c)
    ensures ReachesInterface(g, u)
  {
    var p :| IsPath(g, p) && p[0] == Base(g, c) && g[p[|p| - 1]].Interface?;
    var q := [u] + p;
    assert q[1] in Succs(g, q[0]);
    assert forall i :: 1 <= i < |q| - 1 ==> q[i + 1] == p[i] && q[i] == p[i - 1];
    assert IsPath(g, q);
  }

  /** Closed sets stay closed as the marked set grows, and their union is closed. */
  lemma ClosedGrow(g: TypeGraph, s1: set<TypeId>, w1: set<TypeId>, s2: set<TypeId>, w2: set<TypeId>)
    requires WellFormed(g) && ClosedWithout(g, s1, w1) && ClosedWithout(g, s2, w2) && w1 <= w2
    ensures ClosedWithout(g, s1 + s2, w2)
  {
  }

  lemma {:induction false} ClosedUnreachable(g: TypeGraph, s: set<TypeId>, u: TypeId)
    requires WellFormed(g) && ClosedWithout(g, s, s) && u in s
    ensures !ReachesInterface(g, u)
  {
    if ReachesInterface(g, u) {
      var p :| IsPath(g, p) && p[0] == u && g[p[|p| - 1]].Interface?;
      var i := 0;
      while i < |p| - 1
        invariant 0 <= i < |p| && p[i] in s
      {
        i := i + 1;
      }
      assert false;
    }
  }

  /** The pointer-stripping loop that opens `typeHasInterfaceFieldsRecursive`: the base type of `t`. */
  method StripPointers(g: TypeGraph, t: TypeId) returns (u: TypeId)
    requires WellFormed(g) && t in g
    ensures u in g && !g[u].Ptr? && u == Base(g, t)
  {
    u := t;
    ghost var n: nat := |g|;
    while g[u].Ptr?
      invariant u in g && PtrChainEnds(g, u, n)
      invariant Base(g, u) == Base(g, t)
      decreases n
    {
      BaseStep(g, u);
      u := g[u].elem;
      n := n - 1;
      ChainMonotone(g, u, n, |g|);
    }
    assert Base(g, u) == u;
  }

  /**
   * `typeHasInterfaceFieldsRecursive`: strips pointers, stops at a type already
   * in `visited`, marks the type, and searches its components depth first,
   * threading `visited` through every call as the shared Go map is. A true
   * answer is an interface reachable from `t`; a false one leaves every newly
   * marked type interface-free with all its components marked.
   */
  method HasInterfaceFieldsRec(g: TypeGraph, t: TypeId, visited: set<TypeId>)
    returns (found: bool, seen: set<TypeId>)
    requires WellFormed(g) && t in g && visited <= g.Keys
    ensures visited <= seen <= g.Keys
    ensures Base(g, t) in seen
    ensures found ==> HasInterface(g, t)
    ensures !found ==> ClosedWithout(g, seen - visited, seen)
    decreases g.Keys - visited
  {
    var u := StripPointers(g, t);
    if u in visited {
      return false, visited;
    }
    seen := visited + {u};
    ghost var marked := seen;
    match g[u]
    case Interface =>
      assert IsPath(g, [u]);
      found := true;
    case Struct(fields) =>
      var i := 0;
      while i < |fields|
        invariant 0 <= i <= |fields|
        invariant marked <= seen <= g.Keys
        invariant forall j :: 0 <= j < i ==> Base(g, fields[j]) in seen
        invariant ClosedWithout(g, seen - marked, seen)
      {
        assert fields[i] in Children(g[u]);
        var f;
        ghost var before := seen;
        f, seen := HasInterfaceFieldsRec(g, fields[i], seen);
        if f {
          ReachViaComponent(g, u, fields[i]);
          return true, seen;
        }
        ClosedGrow(g, before - marked, before, seen - before, seen);
        assert seen - marked == (before - marked) + (seen - before);
        i := i + 1;
      }
      found := false;
      CloseOver(g, visited, u, seen);
    case Slice(e) =>
      assert e in Children(g[u]);
      found, seen := HasInterfaceFieldsRec(g, e, seen);
      if found {
        ReachViaComponent(g, u, e);
      } else {
        CloseOver(g, visited, u, seen);
      }
    case Array(e) =>
      assert e in Children(g[u]);
      found, seen := HasInterfaceFieldsRec(g, e, seen);
      if found {
        ReachViaComponent(g, u, e);
      } else {
        CloseOver(g, visited, u, seen);
      }
    case Map(k, e) =>
      assert k in Children(g[u]) && e in Children(g[u]);
      found, seen := HasInterfaceFieldsRec(g, k, seen);
      if found {
        ReachViaComponent(g, u, k);
      } else {
        ghost var before := seen;
        found, seen := HasInterfaceFieldsRec(g, e, seen);
        if found {
          ReachViaComponent(g, u, e);
        } else {
          ClosedGrow(g, before - marked, before, seen - before, seen);
          assert seen - marked == (before - marked) + (seen - before);
          CloseOver(g, visited, u, seen);
        }
      }
    case Basic(_) =>
      found := false;
      CloseOver(g, visited, u, seen);
    case Ptr(_) =>
      assert false;
  }

  /** Marking `u` keeps the marked set closed once every component of `u` has its base marked. */
  lemma CloseOver(g: TypeGraph, visited: set<TypeId>, u: TypeId, seen: set<TypeId>)
    requires WellFormed(g) && u in g && !g[u].Interface? && u in seen
    requires forall c :: c in Children(g[u]) ==> Base(g, c) in seen
    requires ClosedWithout(g, seen - (visited + {u}), seen)
    ensures ClosedWithout(g, seen - visited, seen)
  {
    assert Succs(g, u) <= seen;
  }

  /** `typeHasInterfaceFields`: true exactly when an interface type is reachable from `t`. */
  method TypeHasInterfaceFields(g: TypeGraph, t: TypeId) returns (found: bool)
    requires WellFormed(g) && t in g
    ensures found <==> HasInterface(g, t)
  {
    var seen;
    found, seen := HasInterfaceFieldsRec(g, t, {});
    if !found {
      assert seen - {} == seen;
      ClosedUnreachable(g, seen, Base(g, t));
    }
  }

  /** A pointer chain ending in an interface counts as an interface. */
  lemma PointerToInterface(g: TypeGraph, t: TypeId)
    requires WellFormed(g) && t in g && g[Base(g, t)].Interface?
    ensures HasInterface(g, t)
  {
    assert IsPath(g, [Base(g, t)]);
  }

  /** Basic kinds (numbers, strings, chan, func) reach no interface, behind any number of pointers. */
  lemma BasicHasNoInterface(g: TypeGraph, t: TypeId)
    requires WellFormed(g) && t in g && g[Base(g, t)].Basic?
    ensures !HasInterface(g, t)
  {
    var u := Base(g, t);
    assert Succs(g, u) == {};
    ClosedUnreachable(g, {u}, u);
  }
}
