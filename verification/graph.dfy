/** The property graph of `graphlib/graph.py` as an arena: node and relationship
    identities are numbers, every Node's adjacency index is a value in a map, and the
    Python `defaultdict`s become total accessors whose default is empty. */
module Graph {
  import opened Wrappers
  import opened Values

  type NodeId = nat
  type RelId = nat

  /** OUTGOING (1) and INCOMING (-1). */
  datatype Dir = Outgoing | Incoming

  /** A relationship object: endpoints, type and its own property bag. */
  datatype Rel = Rel(start: NodeId, end: NodeId, rtype: string, props: PropMap, matchProps: Value, updateProps: Value)

  /** The `Props` part of a node: properties, labels and the exporter hints. */
  datatype NodeAttrs = NodeAttrs(props: PropMap, labels: seq<string>, matchProps: Value, updateProps: Value)

  /** A node's adjacency index: `_outgoing[neighbor][type]`, `_incoming[neighbor][type]`
      and the direction-agnostic `_types[type]` neighbor sets. */
  datatype Adjacency = Adjacency(
    outgoing: map<NodeId, map<string, RelId>>,
    incoming: map<NodeId, map<string, RelId>>,
    types: map<string, set<NodeId>>)

  const NoAttrs: NodeAttrs := NodeAttrs(map[], [], Null, Null)
  const NoAdjacency: Adjacency := Adjacency(map[], map[], map[])

  /** The arena. `rels` holds every Rel ever created: unrelating a Rel only takes it out
      of the indices, the object itself lives on. */
  datatype Graph = Graph(
    attrs: map<NodeId, NodeAttrs>,
    index: map<NodeId, Adjacency>,
    rels: map<RelId, Rel>,
    nextNode: nat,
    nextRel: nat)

  const EmptyGraph: Graph := Graph(map[], map[], map[], 0, 0)

  // ---------------------------------------------------------------------------
  // Total accessors (the defaultdict reads)

  function AttrsOf(g: Graph, n: NodeId): NodeAttrs {
    if n in g.attrs then g.attrs[n] else NoAttrs
  }

  function AdjOf(g: Graph, n: NodeId): Adjacency {
    if n in g.index then g.index[n] else NoAdjacency
  }

  /** `n._outgoing[m]`. */
  function Out(g: Graph, n: NodeId, m: NodeId): map<string, RelId> {
    var o := AdjOf(g, n).outgoing;
    if m in o then o[m] else map[]
  }

  /** `n._incoming[m]`. */
  function In(g: Graph, n: NodeId, m: NodeId): map<string, RelId> {
    var i := AdjOf(g, n).incoming;
    if m in i then i[m] else map[]
  }

  /** `n._types[t]`. */
  function Types(g: Graph, n: NodeId, t: string): set<NodeId> {
    var ty := AdjOf(g, n).types;
    if t in ty then ty[t] else {}
  }

  /** `not direction or direction == d`: an absent direction admits both. */
  predicate Allows(dir: Option<Dir>, d: Dir) {
    dir.None? || dir.value == d
  }

  // ---------------------------------------------------------------------------
  // Invariants

  /** Every identity in use was handed out by the counters. */
  ghost predicate Allocated(g: Graph) {
    && (forall n :: n in g.attrs ==> n < g.nextNode)
    && (forall n :: n in g.index ==> n < g.nextNode)
    && (forall r :: r in g.rels ==> r < g.nextRel && g.rels[r].start < g.nextNode && g.rels[r].end < g.nextNode)
  }

  /** The Rel at `n._outgoing[m][t]` runs n -> m with type t and is also at `m._incoming[n][t]`. */
  predicate OutEntryOk(g: Graph, n: NodeId, m: NodeId, t: string)
    requires t in Out(g, n, m)
  {
    var r := Out(g, n, m)[t];
    && r in g.rels
    && g.rels[r].start == n && g.rels[r].end == m && g.rels[r].rtype == t
    && t in In(g, m, n) && In(g, m, n)[t] == r
  }

  /** The Rel at `n._incoming[m][t]` runs m -> n with type t and is also at `m._outgoing[n][t]`. */
  predicate InEntryOk(g: Graph, n: NodeId, m: NodeId, t: string)
    requires t in In(g, n, m)
  {
    var r := In(g, n, m)[t];
    && r in g.rels
    && g.rels[r].start == m && g.rels[r].end == n && g.rels[r].rtype == t
    && t in Out(g, m, n) && Out(g, m, n)[t] == r
  }

  ghost predicate OutOk(g: Graph) {
    forall n, m, t :: t in Out(g, n, m) ==> OutEntryOk(g, n, m, t)
  }

  ghost predicate InOk(g: Graph) {
    forall n, m, t :: t in In(g, n, m) ==> InEntryOk(g, n, m, t)
  }

  /** A neighbor listed under `_types[t]` is related by type t in some direction. */
  ghost predicate TypesSound(g: Graph) {
    forall n, t, m :: m in Types(g, n, t) ==> t in Out(g, n, m) || t in In(g, n, m)
  }

  /** The arena invariant every reachable state keeps: each Rel in the indices is
      registered on both endpoints as the identical object, at most one per
      (ordered pair, type, direction) by construction of the nested maps. */
  ghost predicate Consistent(g: Graph) {
    Allocated(g) && OutOk(g) && InOk(g) && TypesSound(g)
  }

  /** `_types` lists every neighbor related by a type (holds for graphs built by `relate`;
      `unrelate` can break it when two nodes are related by one type in both directions,
      because `_remove_rel` discards the neighbor whatever remains). */
  ghost predicate TypesComplete(g: Graph) {
    forall n, m, t :: (t in Out(g, n, m) || t in In(g, n, m)) ==> m in Types(g, n, t)
  }

  // ---------------------------------------------------------------------------
  // Registration: the single source of truth for "is related"

  /** Rel `r` is stored in its start node's outgoing index. */
  predicate IsRegistered(g: Graph, r: RelId) {
    && r in g.rels
    && g.rels[r].rtype in Out(g, g.rels[r].start, g.rels[r].end)
    && Out(g, g.rels[r].start, g.rels[r].end)[g.rels[r].rtype] == r
  }

  function Registered(g: Graph): set<RelId> {
    set r | r in g.rels && IsRegistered(g, r)
  }

  /** Which neighbors a selection admits. */
  datatype Nbrs = AnyNode | Among(ids: set<NodeId>)

  predicate Admits(nb: Nbrs, n: NodeId) {
    nb.AnyNode? || n in nb.ids
  }

  /** Rel `x` is incident to `self` in an admitted direction, with an admitted neighbor
      at its other end and an admitted type. */
  predicate Matches(x: Rel, self: NodeId, nb: Nbrs, t: Option<string>, dir: Option<Dir>) {
    && (t.None? || x.rtype == t.value)
    && ((Allows(dir, Outgoing) && x.start == self && Admits(nb, x.end))
        || (Allows(dir, Incoming) && x.end == self && Admits(nb, x.start)))
  }

  /** The registered Rels a selection picks out: the declarative counterpart of the
      index walks done by `rels` and `unrelate`. */
  function Selected(g: Graph, self: NodeId, nb: Nbrs, t: Option<string>, dir: Option<Dir>): set<RelId> {
    set r | r in g.rels && IsRegistered(g, r) && Matches(g.rels[r], self, nb, t, dir)
  }

  // ---------------------------------------------------------------------------
  // Index updates

  function PutOut(g: Graph, n: NodeId, m: NodeId, inner: map<string, RelId>): (r: Graph)
    ensures r.rels == g.rels && r.attrs == g.attrs && r.nextNode == g.nextNode && r.nextRel == g.nextRel
    ensures r.index.Keys == g.index.Keys + {n}
    ensures forall a, b :: Out(r, a, b) == if a == n && b == m then inner else Out(g, a, b)
    ensures forall a, b :: In(r, a, b) == In(g, a, b)
    ensures forall a, t :: Types(r, a, t) == Types(g, a, t)
    ensures forall a :: a != n ==> AdjOf(r, a) == AdjOf(g, a)
    ensures AdjOf(r, n).outgoing.Keys == AdjOf(g, n).outgoing.Keys + {m}
  {
    var adj := AdjOf(g, n);
    g.(index := g.index[n := adj.(outgoing := adj.outgoing[m := inner])])
  }

  function PutIn(g: Graph, n: NodeId, m: NodeId, inner: map<string, RelId>): (r: Graph)
    ensures r.rels == g.rels && r.attrs == g.attrs && r.nextNode == g.nextNode && r.nextRel == g.nextRel
    ensures r.index.Keys == g.index.Keys + {n}
    ensures forall a, b :: In(r, a, b) == if a == n && b == m then inner else In(g, a, b)
    ensures forall a, b :: Out(r, a, b) == Out(g, a, b)
    ensures forall a, t :: Types(r, a, t) == Types(g, a, t)
    ensures forall a :: a != n ==> AdjOf(r, a) == AdjOf(g, a)
    ensures AdjOf(r, n).outgoing == AdjOf(g, n).outgoing
  {
    var adj := AdjOf(g, n);
    g.(index := g.index[n := adj.(incoming := adj.incoming[m := inner])])
  }

  function PutTypes(g: Graph, n: NodeId, t: string, s: set<NodeId>): (r: Graph)
    ensures r.rels == g.rels && r.attrs == g.attrs && r.nextNode == g.nextNode && r.nextRel == g.nextRel
    ensures r.index.Keys == g.index.Keys + {n}
    ensures forall a, u :: Types(r, a, u) == if a == n && u == t then s else Types(g, a, u)
    ensures forall a, b :: Out(r, a, b) == Out(g, a, b)
    ensures forall a, b :: In(r, a, b) == In(g, a, b)
    ensures forall a :: a != n ==> AdjOf(r, a) == AdjOf(g, a)
    ensures AdjOf(r, n).outgoing == AdjOf(g, n).outgoing
  {
    var adj := AdjOf(g, n);
    g.(index := g.index[n := adj.(types := adj.types[t := s])])
  }

  /** `_add_rel`: stores `r` in its start node's outgoing index and its end node's
      incoming index, and lists each endpoint under the other's `_types[type]`. */
  function AddRel(g: Graph, r: RelId): (g': Graph)
    requires r in g.rels
    ensures g'.rels == g.rels && g'.attrs == g.attrs && g'.nextNode == g.nextNode && g'.nextRel == g.nextRel
    ensures g'.index.Keys == g.index.Keys + {g.rels[r].start, g.rels[r].end}
    ensures forall a, b :: Out(g', a, b) == (
              if a == g.rels[r].start && b == g.rels[r].end then Out(g, a, b)[g.rels[r].rtype := r] else Out(g, a, b))
    ensures forall a, b :: In(g', a, b) == (
              if a == g.rels[r].end && b == g.rels[r].start then In(g, a, b)[g.rels[r].rtype := r] else In(g, a, b))
    ensures forall a, u :: Types(g', a, u) == (
              Types(g, a, u)
              + (if u == g.rels[r].rtype && a == g.rels[r].start then {g.rels[r].end} else {})
              + (if u == g.rels[r].rtype && a == g.rels[r].end then {g.rels[r].start} else {}))
  {
    var g1 := LinkOut(g, r);
    assert g1.rels[r] == g.rels[r];
    LinkIn(g1, r)
  }

  /** The start node's half of `_add_rel`. */
  function LinkOut(g: Graph, r: RelId): (g': Graph)
    requires r in g.rels
    ensures g'.rels == g.rels && g'.attrs == g.attrs && g'.nextNode == g.nextNode && g'.nextRel == g.nextRel
    ensures g'.index.Keys == g.index.Keys + {g.rels[r].start}
    ensures forall a, b :: Out(g', a, b) == (
              if a == g.rels[r].start && b == g.rels[r].end then Out(g, a, b)[g.rels[r].rtype := r] else Out(g, a, b))
    ensures forall a, b :: In(g', a, b) == In(g, a, b)
    ensures forall a, u :: Types(g', a, u) == (
              Types(g, a, u) + (if u == g.rels[r].rtype && a == g.rels[r].start then {g.rels[r].end} else {}))
  {
    var x := g.rels[r];
    var g1 := PutOut(g, x.start, x.end, Out(g, x.start, x.end)[x.rtype := r]);
    PutTypes(g1, x.start, x.rtype, Types(g1, x.start, x.rtype) + {x.end})
  }

  /** The end node's half of `_add_rel`. */
  function LinkIn(g: Graph, r: RelId): (g': Graph)
    requires r in g.rels
    ensures g'.rels == g.rels && g'.attrs == g.attrs && g'.nextNode == g.nextNode && g'.nextRel == g.nextRel
    ensures g'.index.Keys == g.index.Keys + {g.rels[r].end}
    ensures forall a, b :: Out(g', a, b) == Out(g, a, b)
    ensures forall a, b :: In(g', a, b) == (
              if a == g.rels[r].end && b == g.rels[r].start then In(g, a, b)[g.rels[r].rtype := r] else In(g, a, b))
    ensures forall a, u :: Types(g', a, u) == (
              Types(g, a, u) + (if u == g.rels[r].rtype && a == g.rels[r].end then {g.rels[r].start} else {}))
  {
    var x := g.rels[r];
    var g1 := PutIn(g, x.end, x.start, In(g, x.end, x.start)[x.rtype := r]);
    PutTypes(g1, x.end, x.rtype, Types(g1, x.end, x.rtype) + {x.start})
  }

  /** `_remove_rel`: deletes `r` from both endpoint indices and drops each endpoint from
      the other's `_types[type]` (whether or not an opposite Rel of that type remains). */
  function RemoveRel(g: Graph, r: RelId): (g': Graph)
    requires r in g.rels
    ensures g'.rels == g.rels && g'.attrs == g.attrs && g'.nextNode == g.nextNode && g'.nextRel == g.nextRel
    ensures g'.index.Keys == g.index.Keys + {g.rels[r].start, g.rels[r].end}
    ensures forall a, b :: Out(g', a, b) == (
              if a == g.rels[r].start && b == g.rels[r].end then Out(g, a, b) - {g.rels[r].rtype} else Out(g, a, b))
    ensures forall a, b :: In(g', a, b) == (
              if a == g.rels[r].end && b == g.rels[r].start then In(g, a, b) - {g.rels[r].rtype} else In(g, a, b))
    ensures forall a, u :: Types(g', a, u) == (
              Types(g, a, u)
              - (if u == g.rels[r].rtype && a == g.rels[r].start then {g.rels[r].end} else {})
              - (if u == g.rels[r].rtype && a == g.rels[r].end then {g.rels[r].start} else {}))
  {
    var g1 := UnlinkOut(g, r);
    assert g1.rels[r] == g.rels[r];
    UnlinkIn(g1, r)
  }

  /** The start node's half of `_remove_rel`. */
  function UnlinkOut(g: Graph, r: RelId): (g': Graph)
    requires r in g.rels
    ensures g'.rels == g.rels && g'.attrs == g.attrs && g'.nextNode == g.nextNode && g'.nextRel == g.nextRel
    ensures g'.index.Keys == g.index.Keys + {g.rels[r].start}
    ensures forall a, b :: Out(g', a, b) == (
              if a == g.rels[r].start && b == g.rels[r].end then Out(g, a, b) - {g.rels[r].rtype} else Out(g, a, b))
    ensures forall a, b :: In(g', a, b) == In(g, a, b)
    ensures forall a, u :: Types(g', a, u) == (
              Types(g, a, u) - (if u == g.rels[r].rtype && a == g.rels[r].start then {g.rels[r].end} else {}))
  {
    var x := g.rels[r];
    var g1 := PutOut(g, x.start, x.end, Out(g, x.start, x.end) - {x.rtype});
    PutTypes(g1, x.start, x.rtype, Types(g1, x.start, x.rtype) - {x.end})
  }

  /** The end node's half of `_remove_rel`. */
  function UnlinkIn(g: Graph, r: RelId): (g': Graph)
    requires r in g.rels
    ensures g'.rels == g.rels && g'.attrs == g.attrs && g'.nextNode == g.nextNode && g'.nextRel == g.nextRel
    ensures g'.index.Keys == g.index.Keys + {g.rels[r].end}
    ensures forall a, b :: Out(g', a, b) == Out(g, a, b)
    ensures forall a, b :: In(g', a, b) == (
              if a == g.rels[r].end && b == g.rels[r].start then In(g, a, b) - {g.rels[r].rtype} else In(g, a, b))
    ensures forall a, u :: Types(g', a, u) == (
              Types(g, a, u) - (if u == g.rels[r].rtype && a == g.rels[r].end then {g.rels[r].start} else {}))
  {
    var x := g.rels[r];
    var g1 := PutIn(g, x.end, x.start, In(g, x.end, x.start) - {x.rtype});
    PutTypes(g1, x.end, x.rtype, Types(g1, x.end, x.rtype) - {x.start})
  }

  /** Under the invariant, every index entry holds a registered Rel. */
  lemma EntriesRegistered(g: Graph)
    requires Consistent(g)
    ensures forall n, m, t :: t in Out(g, n, m) ==> IsRegistered(g, Out(g, n, m)[t])
    ensures forall n, m, t :: t in In(g, n, m) ==> IsRegistered(g, In(g, n, m)[t])
  {
    forall n, m, t | t in Out(g, n, m)
      ensures IsRegistered(g, Out(g, n, m)[t])
    {
      assert OutEntryOk(g, n, m, t);
    }
    forall n, m, t | t in In(g, n, m)
      ensures IsRegistered(g, In(g, n, m)[t])
    {
      assert InEntryOk(g, n, m, t);
    }
  }

  /** Registering a new Rel at a free (pair, type) slot keeps the invariant and adds
      exactly that Rel. */
  lemma AddRelKeepsConsistent(g: Graph, r: RelId)
    requires Consistent(g) && r in g.rels
    requires g.rels[r].rtype !in Out(g, g.rels[r].start, g.rels[r].end)
    ensures Consistent(AddRel(g, r))
    ensures Registered(AddRel(g, r)) == Registered(g) + {r}
  {
    var x := g.rels[r];
    // The mirror slot is free as well.
    assert x.rtype !in In(g, x.end, x.start);
    AddRelOutOk(g, r);
    AddRelInOk(g, r);
    AddRelTypesSound(g, r);
    AddRelRegistered(g, r);
    AddRelAllocated(g, r);
  }

  lemma AddRelAllocated(g: Graph, r: RelId)
    requires Allocated(g) && r in g.rels
    ensures Allocated(AddRel(g, r))
  {
    var x := g.rels[r];
    SameCountersAllocated(g, AddRel(g, r), {x.start, x.end});
  }

  /** Indexing more allocated nodes, with the Rels, attributes and counters unchanged,
      keeps every identity allocated. */
  lemma SameCountersAllocated(g: Graph, g': Graph, extra: set<NodeId>)
    requires Allocated(g) && g'.rels == g.rels && g'.attrs == g.attrs
    requires g'.nextNode == g.nextNode && g'.nextRel == g.nextRel
    requires g'.index.Keys == g.index.Keys + extra && forall n :: n in extra ==> n < g.nextNode
    ensures Allocated(g')
  {
    forall n | n in g'.index
      ensures n < g'.nextNode
    {
      assert n in g.index.Keys || n in extra;
    }
  }

  lemma AddRelTypesSound(g: Graph, r: RelId)
    requires TypesSound(g) && r in g.rels
    ensures TypesSound(AddRel(g, r))
  {
    var x := g.rels[r];
    var g' := AddRel(g, r);
    forall n, t, m | m in Types(g', n, t)
      ensures t in Out(g', n, m) || t in In(g', n, m)
    {
      if m in Types(g, n, t) {
        assert t in Out(g, n, m) || t in In(g, n, m);
        assert Out(g, n, m).Keys <= Out(g', n, m).Keys;
        assert In(g, n, m).Keys <= In(g', n, m).Keys;
      } else if n == x.start && t == x.rtype && m == x.end {
        assert t in Out(g', n, m);
      } else {
        assert n == x.end && t == x.rtype && m == x.start;
        assert t in In(g', n, m);
      }
    }
  }

  lemma AddRelOutOk(g: Graph, r: RelId)
    requires OutOk(g) && InOk(g) && r in g.rels
    requires g.rels[r].rtype !in Out(g, g.rels[r].start, g.rels[r].end)
    ensures OutOk(AddRel(g, r))
  {
    var x := g.rels[r];
    var g' := AddRel(g, r);
    forall n, m, t | t in Out(g', n, m)
      ensures OutEntryOk(g', n, m, t)
    {
      if !(n == x.start && m == x.end && t == x.rtype) {
        assert OutEntryOk(g, n, m, t);
      }
    }
  }

  lemma AddRelInOk(g: Graph, r: RelId)
    requires OutOk(g) && InOk(g) && r in g.rels
    requires g.rels[r].rtype !in In(g, g.rels[r].end, g.rels[r].start)
    ensures InOk(AddRel(g, r))
  {
    var x := g.rels[r];
    var g' := AddRel(g, r);
    forall n, m, t | t in In(g', n, m)
      ensures InEntryOk(g', n, m, t)
    {
      if !(n == x.end && m == x.start && t == x.rtype) {
        assert InEntryOk(g, n, m, t);
      }
    }
  }

  lemma AddRelRegistered(g: Graph, r: RelId)
    requires r in g.rels
    requires g.rels[r].rtype !in Out(g, g.rels[r].start, g.rels[r].end)
    ensures Registered(AddRel(g, r)) == Registered(g) + {r}
  {
    var g' := AddRel(g, r);
    forall q | q in g'.rels
      ensures IsRegistered(g', q) <==> IsRegistered(g, q) || q == r
    {
      AddRelRegisters(g, r, q);
    }
  }

  lemma AddRelRegisters(g: Graph, r: RelId, q: RelId)
    requires r in g.rels && q in g.rels
    requires g.rels[r].rtype !in Out(g, g.rels[r].start, g.rels[r].end)
    ensures IsRegistered(AddRel(g, r), q) <==> IsRegistered(g, q) || q == r
  {
    var x, y := g.rels[r], g.rels[q];
    var g' := AddRel(g, r);
    var before, after := Out(g, y.start, y.end), Out(g', y.start, y.end);
    assert IsRegistered(g, q) <==> y.rtype in before && before[y.rtype] == q;
    assert IsRegistered(g', q) <==> y.rtype in after && after[y.rtype] == q;
    if y.start == x.start && y.end == x.end {
      assert after == before[x.rtype := r];
      if y.rtype == x.rtype {
        assert !IsRegistered(g, q);
        assert IsRegistered(g', q) <==> q == r;
      } else {
        assert q != r;
        assert IsRegistered(g', q) <==> IsRegistered(g, q);
      }
    } else {
      assert q != r;
      assert after == before;
    }
  }

  /** Deleting a registered Rel keeps the invariant and removes exactly that Rel. */
  lemma RemoveRelKeepsConsistent(g: Graph, r: RelId)
    requires Consistent(g) && IsRegistered(g, r)
    ensures Consistent(RemoveRel(g, r))
    ensures Registered(RemoveRel(g, r)) == Registered(g) - {r}
  {
    assert OutEntryOk(g, g.rels[r].start, g.rels[r].end, g.rels[r].rtype);
    RemoveRelOutOk(g, r);
    RemoveRelInOk(g, r);
    RemoveRelTypesSound(g, r);
    RemoveRelRegistered(g, r);
    RemoveRelAllocated(g, r);
  }

  lemma RemoveRelAllocated(g: Graph, r: RelId)
    requires Allocated(g) && r in g.rels
    ensures Allocated(RemoveRel(g, r))
  {
    var x := g.rels[r];
    SameCountersAllocated(g, RemoveRel(g, r), {x.start, x.end});
  }

  lemma RemoveRelOutOk(g: Graph, r: RelId)
    requires OutOk(g) && IsRegistered(g, r)
    requires g.rels[r].rtype in In(g, g.rels[r].end, g.rels[r].start)
    requires In(g, g.rels[r].end, g.rels[r].start)[g.rels[r].rtype] == r
    ensures OutOk(RemoveRel(g, r))
  {
    var g' := RemoveRel(g, r);
    forall n, m, t | t in Out(g', n, m)
      ensures OutEntryOk(g', n, m, t)
    {
      assert OutEntryOk(g, n, m, t);
    }
  }

  lemma RemoveRelInOk(g: Graph, r: RelId)
    requires InOk(g) && IsRegistered(g, r)
    ensures InOk(RemoveRel(g, r))
  {
    var g' := RemoveRel(g, r);
    forall n, m, t | t in In(g', n, m)
      ensures InEntryOk(g', n, m, t)
    {
      assert InEntryOk(g, n, m, t);
    }
  }

  lemma RemoveRelTypesSound(g: Graph, r: RelId)
    requires TypesSound(g) && r in g.rels
    ensures TypesSound(RemoveRel(g, r))
  {
    var x := g.rels[r];
    var g' := RemoveRel(g, r);
    forall n, t, m | m in Types(g', n, t)
      ensures t in Out(g', n, m) || t in In(g', n, m)
    {
      assert m in Types(g, n, t);
    }
  }

  lemma RemoveRelRegistered(g: Graph, r: RelId)
    requires IsRegistered(g, r)
    ensures Registered(RemoveRel(g, r)) == Registered(g) - {r}
  {
    var g' := RemoveRel(g, r);
    forall q | q in g'.rels
      ensures IsRegistered(g', q) <==> IsRegistered(g, q) && q != r
    {
      RemoveRelUnregisters(g, r, q);
    }
  }

  lemma RemoveRelUnregisters(g: Graph, r: RelId, q: RelId)
    requires IsRegistered(g, r) && q in g.rels
    ensures IsRegistered(RemoveRel(g, r), q) <==> IsRegistered(g, q) && q != r
  {
    var x, y := g.rels[r], g.rels[q];
    var g' := RemoveRel(g, r);
    if y.start == x.start && y.end == x.end {
      assert Out(g', y.start, y.end) == Out(g, y.start, y.end) - {x.rtype};
    } else {
      assert Out(g', y.start, y.end) == Out(g, y.start, y.end);
    }
  }
  /** When one consistent state's registrations are a subset of another's over the same
      Rels, its index entries are exactly the other's entries that are still registered. */
  lemma IndexFollowsRegistration(g: Graph, g': Graph, n: NodeId, m: NodeId, t: string)
    requires Consistent(g) && Consistent(g') && g'.rels == g.rels
    requires Registered(g') <= Registered(g)
    ensures t in Out(g', n, m) <==> t in Out(g, n, m) && Out(g, n, m)[t] in Registered(g')
    ensures t in Out(g', n, m) ==> Out(g', n, m)[t] == Out(g, n, m)[t]
    ensures t in In(g', n, m) <==> t in In(g, n, m) && In(g, n, m)[t] in Registered(g')
    ensures t in In(g', n, m) ==> In(g', n, m)[t] == In(g, n, m)[t]
  {
    if t in Out(g', n, m) {
      assert OutEntryOk(g', n, m, t);
      assert Out(g', n, m)[t] in Registered(g);
    }
    if t in Out(g, n, m) && Out(g, n, m)[t] in Registered(g') {
      assert OutEntryOk(g, n, m, t);
    }
    if t in In(g', n, m) {
      assert InEntryOk(g', n, m, t);
      assert In(g', n, m)[t] in Registered(g);
      assert OutEntryOk(g, m, n, t);
    }
    if t in In(g, n, m) && In(g, n, m)[t] in Registered(g') {
      assert InEntryOk(g, n, m, t);
      assert OutEntryOk(g', m, n, t);
    }
  }

  /** Shrinking one `_types` entry keeps the invariant and every registration. */
  lemma ShrinkTypesKeepsConsistent(g: Graph, n: NodeId, t: string, s: set<NodeId>)
    requires Consistent(g) && n < g.nextNode && s <= Types(g, n, t)
    ensures Consistent(PutTypes(g, n, t, s))
    ensures Registered(PutTypes(g, n, t, s)) == Registered(g)
  {
    var g' := PutTypes(g, n, t, s);
    assert forall q :: IsRegistered(g', q) <==> IsRegistered(g, q);
    forall a, b, u | u in Out(g', a, b)
      ensures OutEntryOk(g', a, b, u)
    {
      assert OutEntryOk(g, a, b, u);
    }
    forall a, b, u | u in In(g', a, b)
      ensures InEntryOk(g', a, b, u)
    {
      assert InEntryOk(g, a, b, u);
    }
  }
  /** `_add_rel` lists each endpoint under the other's `_types[type]`, so it keeps
      TypesComplete. */
  lemma AddRelKeepsTypesComplete(g: Graph, r: RelId)
    requires r in g.rels
    ensures TypesComplete(g) ==> TypesComplete(AddRel(g, r))
  {
    var x := g.rels[r];
    var g' := AddRel(g, r);
    if TypesComplete(g) {
      forall n, m, t | t in Out(g', n, m) || t in In(g', n, m)
        ensures m in Types(g', n, t)
      {
        if t == x.rtype && n == x.start && m == x.end {
          assert m in Types(g', n, t);
        } else if t == x.rtype && n == x.end && m == x.start {
          assert m in Types(g', n, t);
        } else {
          assert t in Out(g, n, m) || t in In(g, n, m);
          assert m in Types(g, n, t);
        }
      }
    }
  }
}
