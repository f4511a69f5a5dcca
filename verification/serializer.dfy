/** The traversal serializer (graphlib/serializer.py): turns nodes and relationships into a
    flat list of records, each entity at most once, a relationship always after its two
    endpoints; and `convert_array_to_dict`, which splits such a list into nodes and rels. */
module Serializer {
  import opened Wrappers
  import opened Values
  import opened Graph
  import opened Views
  import Node
  import Props

  // ---------------------------------------------------------------- records

  /** One record of the output list (a JSON object). Optional keys are `None` when absent. */
  datatype Record =
    | NodeRecord(props: PropMap, labels: Option<seq<string>>, matchProps: Option<Value>, updateProps: Option<Value>)
    | RelRecord(start: int, end: int, rtype: string, props: PropMap, matchProps: Option<Value>, updateProps: Option<Value>)

  /** A class attribute that is `None` gives no key. */
  function Present(v: Value): Option<Value> {
    if v == Null then None else Some(v)
  }

  /** The record `_add_node` emits: `labels` only when there are labels, `match` and `update`
      only when they are not `None`. */
  function NodeRecordOf(g: Graph, n: NodeId): (r: Record)
    ensures r.NodeRecord? && r.props == AttrsOf(g, n).props
    ensures r.labels.Some? <==> AttrsOf(g, n).labels != []
    ensures r.labels.Some? ==> r.labels.value == AttrsOf(g, n).labels
    ensures r.matchProps.Some? <==> AttrsOf(g, n).matchProps != Null
    ensures r.updateProps.Some? <==> AttrsOf(g, n).updateProps != Null
  {
    var a := AttrsOf(g, n);
    NodeRecord(Props.Serialize(a.props), if a.labels != [] then Some(a.labels) else None,
               Present(a.matchProps), Present(a.updateProps))
  }

  /** The record `_add_rel` emits, given the positions of its two endpoints. */
  function RelRecordOf(g: Graph, r: RelId, start: nat, end: nat): (x: Record)
    requires r in g.rels
    ensures x.RelRecord? && x.start == start && x.end == end
    ensures x.rtype == g.rels[r].rtype && x.props == g.rels[r].props
    ensures x.matchProps.Some? <==> g.rels[r].matchProps != Null
    ensures x.updateProps.Some? <==> g.rels[r].updateProps != Null
  {
    var rel := g.rels[r];
    RelRecord(start, end, rel.rtype, Props.Serialize(rel.props), Present(rel.matchProps), Present(rel.updateProps))
  }

  // ---------------------------------------------------------------- state

  /** The serializer between calls: where each emitted entity sits, and the output so far.
      A call that returns normally leaves the work stack empty, so it lives in `Serialize`
      only; a call that raises part-way is not modelled. */
  datatype State = State(indexes: map<Item, nat>, items: seq<Record>, index: nat)

  /** `Serializer()`. */
  const Fresh := State(map[], [], 0)

  /** An entity that exists in the graph. */
  predicate Valid(g: Graph, x: Item) {
    match x
    case NodeItem(n) => n < g.nextNode
    case RelItem(r) => r in g.rels
  }

  /** Every relationship record points at two node records placed before it. */
  predicate Linked(items: seq<Record>) {
    forall i :: 0 <= i < |items| && items[i].RelRecord? ==>
      && 0 <= items[i].start < i && items[items[i].start].NodeRecord?
      && 0 <= items[i].end < i && items[items[i].end].NodeRecord?
  }

  /** `x` has been emitted: its record sits at `indexes[x]`; a relationship's endpoints were
      emitted before it and its record points at them. */
  predicate Recorded(g: Graph, s: State, x: Item) {
    && x in s.indexes && s.indexes[x] < |s.items|
    && match x
       case NodeItem(n) => s.items[s.indexes[x]] == NodeRecordOf(g, n)
       case RelItem(r) =>
         && r in g.rels
         && NodeItem(g.rels[r].start) in s.indexes && NodeItem(g.rels[r].end) in s.indexes
         && s.indexes[NodeItem(g.rels[r].start)] < s.indexes[x]
         && s.indexes[NodeItem(g.rels[r].end)] < s.indexes[x]
         && s.items[s.indexes[x]] == RelRecordOf(g, r, s.indexes[NodeItem(g.rels[r].start)], s.indexes[NodeItem(g.rels[r].end)])
  }

  /** The serializer's invariant: `index`, the length of `items` and the number of emitted
      entities agree, no two entities share a position, and every emitted entity is
      recorded where `indexes` says. */
  ghost predicate Wf(g: Graph, s: State) {
    && s.index == |s.items| == |s.indexes|
    && Linked(s.items)
    && (forall x :: x in s.indexes ==> Valid(g, x) && Recorded(g, s, x))
    && (forall x, y :: x in s.indexes && y in s.indexes && s.indexes[x] == s.indexes[y] ==> x == y)
  }

  /** `t` only appended to `s`: earlier records and positions are kept. */
  predicate Grows(s: State, t: State) {
    && s.items <= t.items
    && (forall x :: x in s.indexes ==> x in t.indexes && t.indexes[x] == s.indexes[x])
  }

  lemma RecordedGrows(g: Graph, s: State, t: State, x: Item)
    requires Recorded(g, s, x) && Grows(s, t)
    ensures Recorded(g, t, x)
  {
    assert t.items[s.indexes[x]] == s.items[s.indexes[x]];
  }

  lemma GrowsKeys(s: State, t: State)
    requires Grows(s, t)
    ensures s.indexes.Keys <= t.indexes.Keys
  {
  }

  lemma FreshWf(g: Graph)
    ensures Wf(g, Fresh)
  {
  }

  // ---------------------------------------------------------------- emitting

  /** Files `x` at the next position, with record `rec`. */
  function Put(s: State, x: Item, rec: Record): State {
    State(s.indexes[x := s.index], s.items + [rec], s.index + 1)
  }

  /** `_add_node`. */
  function AddNode(g: Graph, s: State, n: NodeId): (t: State)
    requires Wf(g, s) && n < g.nextNode && NodeItem(n) !in s.indexes
    ensures Wf(g, t) && Grows(s, t)
    ensures t.indexes.Keys == s.indexes.Keys + {NodeItem(n)}
    ensures t.items == s.items + [NodeRecordOf(g, n)] && t.indexes[NodeItem(n)] == |s.items|
  {
    AddNodeFacts(g, s, n);
    Put(s, NodeItem(n), NodeRecordOf(g, n))
  }

  lemma AddNodeFacts(g: Graph, s: State, n: NodeId)
    requires Wf(g, s) && n < g.nextNode && NodeItem(n) !in s.indexes
    ensures var t := Put(s, NodeItem(n), NodeRecordOf(g, n));
      && Wf(g, t) && Grows(s, t)
      && t.indexes.Keys == s.indexes.Keys + {NodeItem(n)}
      && t.items == s.items + [NodeRecordOf(g, n)] && t.indexes[NodeItem(n)] == |s.items|
  {
    var t := Put(s, NodeItem(n), NodeRecordOf(g, n));
    LinkedAppend(s.items, NodeRecordOf(g, n));
    assert Recorded(g, t, NodeItem(n));
    AddFacts(g, s, t, NodeItem(n));
  }

  /** `_add_rel`: both endpoints must already be emitted. */
  function AddRel(g: Graph, s: State, r: RelId): (t: State)
    requires Wf(g, s) && r in g.rels && RelItem(r) !in s.indexes
    requires NodeItem(g.rels[r].start) in s.indexes && NodeItem(g.rels[r].end) in s.indexes
    ensures Wf(g, t) && Grows(s, t)
    ensures t.indexes.Keys == s.indexes.Keys + {RelItem(r)}
    ensures t.items == s.items + [RelRecordOf(g, r, s.indexes[NodeItem(g.rels[r].start)], s.indexes[NodeItem(g.rels[r].end)])]
  {
    AddRelFacts(g, s, r);
    Put(s, RelItem(r), RelRecordOf(g, r, s.indexes[NodeItem(g.rels[r].start)], s.indexes[NodeItem(g.rels[r].end)]))
  }

  lemma AddRelFacts(g: Graph, s: State, r: RelId)
    requires Wf(g, s) && r in g.rels && RelItem(r) !in s.indexes
    requires NodeItem(g.rels[r].start) in s.indexes && NodeItem(g.rels[r].end) in s.indexes
    ensures var t := Put(s, RelItem(r), RelRecordOf(g, r, s.indexes[NodeItem(g.rels[r].start)], s.indexes[NodeItem(g.rels[r].end)]));
      Wf(g, t) && Grows(s, t)
  {
    var rel := g.rels[r];
    var rec := RelRecordOf(g, r, s.indexes[NodeItem(rel.start)], s.indexes[NodeItem(rel.end)]);
    var t := Put(s, RelItem(r), rec);
    assert Recorded(g, s, NodeItem(rel.start)) && Recorded(g, s, NodeItem(rel.end));
    LinkedAppend(s.items, rec);
    assert Recorded(g, t, RelItem(r));
    AddFacts(g, s, t, RelItem(r));
  }

  /** Appending a node record, or a relationship record pointing back at node records, keeps
      the output linked. */
  lemma LinkedAppend(items: seq<Record>, rec: Record)
    requires Linked(items)
    requires rec.RelRecord? ==> 0 <= rec.start < |items| && items[rec.start].NodeRecord?
                                && 0 <= rec.end < |items| && items[rec.end].NodeRecord?
    ensures Linked(items + [rec])
  {
    var t := items + [rec];
    forall i | 0 <= i < |t| && t[i].RelRecord?
      ensures 0 <= t[i].start < i && t[t[i].start].NodeRecord? && 0 <= t[i].end < i && t[t[i].end].NodeRecord?
    {
      if i < |items| {
        assert t[i] == items[i];
      }
    }
  }

  /** Appending one record for a new entity keeps the invariant. */
  lemma AddFacts(g: Graph, s: State, t: State, x: Item)
    requires Wf(g, s) && Valid(g, x) && x !in s.indexes
    requires t == State(s.indexes[x := s.index], t.items, s.index + 1) && |t.items| == |s.items| + 1
    requires s.items <= t.items && Linked(t.items)
    requires Recorded(g, t, x)
    ensures Wf(g, t) && Grows(s, t)
  {
    assert Grows(s, t);
    AddRecorded(g, s, t, x);
    assert forall y :: y in s.indexes ==> Recorded(g, s, y) && s.indexes[y] < s.index;
    AddDistinct(s, t, x);
    assert |t.indexes| == |s.indexes| + 1;
  }

  /** Filing a new entity at the next position keeps positions distinct. */
  lemma AddDistinct(s: State, t: State, x: Item)
    requires x !in s.indexes && t.indexes == s.indexes[x := s.index]
    requires forall y :: y in s.indexes ==> s.indexes[y] < s.index
    requires forall y, z :: y in s.indexes && z in s.indexes && s.indexes[y] == s.indexes[z] ==> y == z
    ensures forall y, z :: y in t.indexes && z in t.indexes && t.indexes[y] == t.indexes[z] ==> y == z
  {
  }

  lemma AddRecorded(g: Graph, s: State, t: State, x: Item)
    requires forall y :: y in s.indexes ==> Valid(g, y) && Recorded(g, s, y)
    requires Valid(g, x) && Recorded(g, t, x) && Grows(s, t)
    requires t.indexes.Keys == s.indexes.Keys + {x}
    ensures forall y :: y in t.indexes ==> Valid(g, y) && Recorded(g, t, y)
  {
    forall y | y in t.indexes
      ensures Valid(g, y) && Recorded(g, t, y)
    {
      if y != x {
        RecordedGrows(g, s, t, y);
      }
    }
  }

  /** `_serialize_rel`: emits a relationship, first emitting whichever endpoint is missing. */
  function SerializeRel(g: Graph, s: State, r: RelId): (t: State)
    requires Wf(g, s) && Allocated(g) && r in g.rels
    ensures Wf(g, t) && Grows(s, t) && RelItem(r) in t.indexes
    ensures RelItem(r) in s.indexes ==> t == s
    ensures RelItem(r) !in s.indexes ==> RelItem(r) in t.indexes.Keys - s.indexes.Keys
    ensures t.indexes.Keys <= s.indexes.Keys + {RelItem(r), NodeItem(g.rels[r].start), NodeItem(g.rels[r].end)}
  {
    if RelItem(r) in s.indexes then s
    else
      var rel := g.rels[r];
      var s1 := EnsureNode(g, s, rel.start);
      var s2 := EnsureNode(g, s1, rel.end);
      assert NodeItem(rel.start) in s2.indexes;
      AddRel(g, s2, r)
  }

  /** On a fresh serializer one relationship yields its start node, its end node and itself,
      pointing at positions 0 and 1; a self-loop yields the node once. */
  lemma FreshRel(g: Graph, r: RelId)
    requires Allocated(g) && r in g.rels
    ensures g.rels[r].start != g.rels[r].end ==>
      SerializeRel(g, Fresh, r).items == [NodeRecordOf(g, g.rels[r].start), NodeRecordOf(g, g.rels[r].end), RelRecordOf(g, r, 0, 1)]
    ensures g.rels[r].start == g.rels[r].end ==>
      SerializeRel(g, Fresh, r).items == [NodeRecordOf(g, g.rels[r].start), RelRecordOf(g, r, 0, 0)]
  {
    FreshWf(g);
    var a, b := g.rels[r].start, g.rels[r].end;
    var s1 := AddNode(g, Fresh, a);
    assert s1.indexes == map[NodeItem(a) := 0];
    if a != b {
      FreshRelApart(g, r, s1);
    } else {
      var t := AddRel(g, s1, r);
      assert t.items == s1.items + [RelRecordOf(g, r, 0, 0)];
      assert SerializeRel(g, Fresh, r) == t;
    }
  }

  lemma FreshRelApart(g: Graph, r: RelId, s1: State)
    requires Allocated(g) && r in g.rels && g.rels[r].start != g.rels[r].end
    requires Wf(g, Fresh) && s1 == AddNode(g, Fresh, g.rels[r].start)
    ensures SerializeRel(g, Fresh, r).items == [NodeRecordOf(g, g.rels[r].start), NodeRecordOf(g, g.rels[r].end), RelRecordOf(g, r, 0, 1)]
  {
    var a, b := g.rels[r].start, g.rels[r].end;
    var s2 := TwoNodes(g, a, b, s1);
    ThirdRecord(g, r, s2);
    assert SerializeRel(g, Fresh, r) == AddRel(g, s2, r);
  }

  /** The state after emitting two distinct nodes on a fresh serializer. */
  function TwoNodes(g: Graph, a: NodeId, b: NodeId, s1: State): (s2: State)
    requires a != b && a < g.nextNode && b < g.nextNode && Wf(g, Fresh) && s1 == AddNode(g, Fresh, a)
    ensures Wf(g, s2) && s2 == AddNode(g, s1, b)
    ensures NodeItem(a) in s2.indexes && NodeItem(b) in s2.indexes
    ensures s2.indexes[NodeItem(a)] == 0 && s2.indexes[NodeItem(b)] == 1
    ensures s2.items == [NodeRecordOf(g, a), NodeRecordOf(g, b)]
  {
    assert NodeItem(b) !in s1.indexes;
    AddNode(g, s1, b)
  }

  lemma ThirdRecord(g: Graph, r: RelId, s2: State)
    requires Wf(g, s2) && r in g.rels && RelItem(r) !in s2.indexes
    requires NodeItem(g.rels[r].start) in s2.indexes && NodeItem(g.rels[r].end) in s2.indexes
    requires s2.indexes[NodeItem(g.rels[r].start)] == 0 && s2.indexes[NodeItem(g.rels[r].end)] == 1
    requires s2.items == [NodeRecordOf(g, g.rels[r].start), NodeRecordOf(g, g.rels[r].end)]
    ensures AddRel(g, s2, r).items == [NodeRecordOf(g, g.rels[r].start), NodeRecordOf(g, g.rels[r].end), RelRecordOf(g, r, 0, 1)]
  {
  }

  // ---------------------------------------------------------------- traversal

  /** A relationship at `stack[i]` can be emitted with every endpoint accounted for: each is
      emitted already or waits below it on the stack. */
  predicate EndsReady(g: Graph, s: State, stack: seq<Item>, i: int)
    requires 0 <= i < |stack| && stack[i].RelItem?
  {
    var r := stack[i].rel;
    && r in g.rels
    && (NodeItem(g.rels[r].start) in s.indexes || NodeItem(g.rels[r].start) in stack[..i])
    && (NodeItem(g.rels[r].end) in s.indexes || NodeItem(g.rels[r].end) in stack[..i])
  }

  /** Every relationship of node `n` is emitted or on the stack. */
  predicate Covered(g: Graph, s: State, stack: seq<Item>, n: NodeId) {
    forall r :: r in Node.AllRels(g, n, None) ==> RelItem(r) in s.indexes || RelItem(r) in stack
  }

  /** Emitting is closed under `node.rels()`: every relationship of an emitted node is emitted
      (and, by `Wf`, so are the endpoints of an emitted relationship). */
  ghost predicate Closed(g: Graph, s: State) {
    forall n :: NodeItem(n) in s.indexes ==> forall r :: r in Node.AllRels(g, n, None) ==> RelItem(r) in s.indexes
  }

  /** Traversal in progress: an emitted node is still on the stack (to be traversed) or has its
      relationships covered, and every relationship on the stack has its endpoints ready. */
  ghost predicate Pending(g: Graph, s: State, stack: seq<Item>) {
    NodesPending(g, s, stack) && RelsPending(g, s, stack)
  }

  ghost predicate NodesPending(g: Graph, s: State, stack: seq<Item>) {
    forall n :: NodeItem(n) in s.indexes ==> NodeItem(n) in stack || Covered(g, s, stack, n)
  }

  predicate RelsPending(g: Graph, s: State, stack: seq<Item>) {
    forall i :: 0 <= i < |stack| && stack[i].RelItem? ==> EndsReady(g, s, stack, i)
  }

  /** Everything the traversal needs of the graph: entities are allocated, and the
      relationships `node.rels()` finds exist. */
  ghost predicate Traversable(g: Graph) {
    Allocated(g) && forall n, r :: r in Node.AllRels(g, n, None) ==> r in g.rels
  }

  lemma ConsistentTraversable(g: Graph)
    requires Consistent(g)
    ensures Traversable(g)
  {
    forall n ensures forall r :: r in Node.AllRels(g, n, None) ==> r in g.rels {
      Node.AllSpec(g, n, None);
    }
  }

  /** `x` is relationship `r` or one of its endpoints. */
  predicate Around(g: Graph, r: RelId, x: Item) {
    x == RelItem(r) || (r in g.rels && (x == NodeItem(g.rels[r].start) || x == NodeItem(g.rels[r].end)))
  }

  /** `x` is one of the relationships `rels` or an endpoint of one. */
  predicate Touches(g: Graph, rels: set<RelId>, x: Item) {
    exists r :: r in rels && Around(g, r, x)
  }

  /** The inner loop of `_serialize_node`: for each relationship of the node, in the order the
      set yields them, pushes its start and end if not emitted, then itself if not emitted. */
  method Discover(g: Graph, s: State, rels: set<RelId>) returns (pushed: seq<Item>)
    requires Wf(g, s) && Allocated(g) && forall r :: r in rels ==> r in g.rels
    ensures |pushed| <= 3 * |rels|
    ensures forall x :: x in pushed ==> x !in s.indexes && Valid(g, x)
    ensures forall r :: r in rels ==> RelItem(r) in s.indexes || RelItem(r) in pushed
    ensures RelsPending(g, s, pushed)
    ensures (forall r :: r in rels ==> RelItem(r) in s.indexes) ==> pushed == []
    ensures forall x :: x in pushed ==> Touches(g, rels, x)
  {
    var left := rels;
    pushed := [];
    while left != {}
      invariant left <= rels
      invariant |pushed| + 3 * |left| <= 3 * |rels|
      invariant forall x :: x in pushed ==> x !in s.indexes && Valid(g, x)
      invariant forall x :: x in pushed ==> Touches(g, rels, x)
      invariant forall r :: r in rels - left ==> RelItem(r) in s.indexes || RelItem(r) in pushed
      invariant RelsPending(g, s, pushed)
      invariant (forall r :: r in rels ==> RelItem(r) in s.indexes) ==> pushed == []
      decreases left
    {
      var r :| r in left;
      var add := DiscoverOne(g, s, r);
      assert forall x :: x in add ==> Touches(g, rels, x);
      RelsAppend(g, s, pushed, add);
      pushed := pushed + add;
      left := left - {r};
    }
  }

  /** What one relationship of the node contributes to the stack. */
  function DiscoverOne(g: Graph, s: State, r: RelId): (add: seq<Item>)
    requires Wf(g, s) && Allocated(g) && r in g.rels
    ensures |add| <= 3
    ensures forall x :: x in add ==> x !in s.indexes && Valid(g, x)
    ensures RelItem(r) in s.indexes || RelItem(r) in add
    ensures RelsPending(g, s, add)
    ensures RelItem(r) in s.indexes ==> add == []
    ensures forall x :: x in add ==> Around(g, r, x)
  {
    if RelItem(r) in s.indexes then
      assert Recorded(g, s, RelItem(r));
      []
    else
      PushRel(g, s, r)
  }

  /** A relationship not emitted yet goes on the stack above whichever endpoints are missing. */
  function PushRel(g: Graph, s: State, r: RelId): (add: seq<Item>)
    requires Allocated(g) && r in g.rels && RelItem(r) !in s.indexes
    ensures 0 < |add| <= 3 && add[|add| - 1] == RelItem(r)
    ensures forall x :: x in add ==> x !in s.indexes && Valid(g, x)
    ensures forall x :: x in add ==> Around(g, r, x)
    ensures RelsPending(g, s, add)
  {
    var rel := g.rels[r];
    var ends := Missing(s, rel.start) + Missing(s, rel.end);
    var add := ends + [RelItem(r)];
    assert add[..|ends|] == ends;
    assert forall x :: x in add ==> x in ends || x == RelItem(r);
    add
  }

  /** A node to push unless it is emitted already. */
  function Missing(s: State, n: NodeId): (m: seq<Item>)
    ensures |m| <= 1 && forall x :: x in m ==> x == NodeItem(n) && x !in s.indexes
    ensures NodeItem(n) in s.indexes || NodeItem(n) in m
    ensures forall i :: 0 <= i < |m| ==> m[i].NodeItem?
  {
    if NodeItem(n) !in s.indexes then [NodeItem(n)] else []
  }

  /** Makes sure node `n` is emitted. */
  function EnsureNode(g: Graph, s: State, n: NodeId): (t: State)
    requires Wf(g, s) && n < g.nextNode
    ensures Wf(g, t) && Grows(s, t) && NodeItem(n) in t.indexes
    ensures t.indexes.Keys <= s.indexes.Keys + {NodeItem(n)}
  {
    if NodeItem(n) in s.indexes then s else AddNode(g, s, n)
  }

  // ---------------------------------------------------------------- termination

  /** Every entity of the graph. */
  function Universe(g: Graph): set<Item> {
    (set n: nat | n < g.nextNode :: NodeItem(n)) + (set r | r in g.rels :: RelItem(r))
  }

  lemma EmittedInUniverse(g: Graph, s: State)
    requires Wf(g, s)
    ensures s.indexes.Keys <= Universe(g)
  {
    forall x | x in s.indexes ensures x in Universe(g) {
      assert Valid(g, x);
    }
  }

  /** Emitting something new brings the serializer closer to having emitted everything. */
  lemma Progress(u: set<Item>, k: set<Item>, k': set<Item>)
    requires k < k' <= u
    ensures |u - k'| < |u - k|
  {
    var d := k' - k;
    assert k' == k + d;
    assert d != {};
    var x :| x in d;
    var a, b := u - k', (u - k) - {x};
    assert b == a + (b - a) && a * (b - a) == {};
  }

  /** How much work a stack entry can still cause while nothing new is emitted: an emitted
      node being traversed again pushes at most three entries per relationship, each of them
      not emitted (and so worth one). */
  function Cost(g: Graph, s: State, x: Item, traverse: bool): nat {
    if traverse && x.NodeItem? && x in s.indexes then 1 + 3 * |Node.AllRels(g, x.node, None)| else 1
  }

  function Weight(g: Graph, s: State, stack: seq<Item>, traverse: bool): nat
    decreases |stack|
  {
    if |stack| == 0 then 0
    else Weight(g, s, stack[..|stack| - 1], traverse) + Cost(g, s, stack[|stack| - 1], traverse)
  }

  lemma {:induction false} WeightConcat(g: Graph, s: State, a: seq<Item>, b: seq<Item>, traverse: bool)
    ensures Weight(g, s, a + b, traverse) == Weight(g, s, a, traverse) + Weight(g, s, b, traverse)
    decreases |b|
  {
    if |b| == 0 {
      assert a + b == a;
    } else {
      assert (a + b)[..|a + b| - 1] == a + b[..|b| - 1];
      WeightConcat(g, s, a, b[..|b| - 1], traverse);
    }
  }

  lemma {:induction false} WeightFresh(g: Graph, s: State, p: seq<Item>, traverse: bool)
    requires forall x :: x in p ==> x !in s.indexes
    ensures Weight(g, s, p, traverse) == |p|
    decreases |p|
  {
    if |p| > 0 {
      WeightFresh(g, s, p[..|p| - 1], traverse);
    }
  }

  // ---------------------------------------------------------------- the loop

  /** The endpoints of a relationship; nothing for a node. */
  function EndsOf(g: Graph, x: Item): (e: set<Item>)
    ensures forall y :: y in e ==> y.NodeItem?
    ensures x.RelItem? && x.rel in g.rels ==> NodeItem(g.rels[x.rel].start) in e && NodeItem(g.rels[x.rel].end) in e
  {
    if x.RelItem? && x.rel in g.rels then {NodeItem(g.rels[x.rel].start), NodeItem(g.rels[x.rel].end)} else {}
  }

  /** Traversing node `x` may push `y`: one of the node's relationships or an endpoint of one. */
  predicate Spawns(g: Graph, x: Item, y: Item) {
    x.NodeItem? && Touches(g, Node.AllRels(g, x.node, None), y)
  }

  /** `S` holds the endpoints of each of its relationships and, when traversing, every
      relationship `rels()` finds for each of its nodes: a set a call cannot leave. */
  ghost predicate Confines(g: Graph, S: set<Item>, traverse: bool) {
    && (forall r :: RelItem(r) in S && r in g.rels ==> NodeItem(g.rels[r].start) in S && NodeItem(g.rels[r].end) in S)
    && (traverse ==> forall n, r :: NodeItem(n) in S && r in Node.AllRels(g, n, None) ==> RelItem(r) in S)
  }

  /** The entities given to `serialize` all lie in `S`. */
  predicate Covers(S: set<Item>, a: Input) {
    forall x :: x in Initial(a) ==> x in S
  }

  /** What a call without traversal can reach: the given entities and the endpoints of the
      given relationships. */
  function Direct(g: Graph, xs: seq<Item>): set<Item> {
    (set x | x in xs) + (set x, y | x in xs && y in EndsOf(g, x) :: y)
  }

  /** So far the call has emitted, and has on its stack, only what lies inside every set it
      cannot leave. */
  ghost predicate Bounded(g: Graph, s: State, a: Input, traverse: bool, t: State, stack: seq<Item>) {
    forall S :: Confines(g, S, traverse) && Covers(S, a) ==> t.indexes.Keys <= s.indexes.Keys + S && forall x :: x in stack ==> x in S
  }

  /** One pop stays inside every set the call cannot leave. */
  lemma BoundSteps(g: Graph, s: State, a: Input, traverse: bool, t: State, stack: seq<Item>, t': State, next: seq<Item>)
    requires Traversable(g) && |stack| > 0
    requires Bounded(g, s, a, traverse, t, stack)
    requires t'.indexes.Keys <= t.indexes.Keys + {stack[|stack| - 1]} + EndsOf(g, stack[|stack| - 1])
    requires forall x :: x in next ==> x in stack || (traverse && Spawns(g, stack[|stack| - 1], x))
    ensures Bounded(g, s, a, traverse, t', next)
  {
    forall S | Confines(g, S, traverse) && Covers(S, a)
      ensures t'.indexes.Keys <= s.indexes.Keys + S && forall x :: x in next ==> x in S
    {
      BoundStep(g, s, traverse, t, stack, t', next, S);
    }
  }

  /** One pop stays inside any set the call cannot leave. */
  lemma BoundStep(g: Graph, s: State, traverse: bool, t: State, stack: seq<Item>, t': State, next: seq<Item>, S: set<Item>)
    requires Traversable(g) && |stack| > 0 && Confines(g, S, traverse)
    requires t.indexes.Keys <= s.indexes.Keys + S && forall x :: x in stack ==> x in S
    requires t'.indexes.Keys <= t.indexes.Keys + {stack[|stack| - 1]} + EndsOf(g, stack[|stack| - 1])
    requires forall x :: x in next ==> x in stack || (traverse && Spawns(g, stack[|stack| - 1], x))
    ensures t'.indexes.Keys <= s.indexes.Keys + S && forall x :: x in next ==> x in S
  {
    var top := stack[|stack| - 1];
    assert top in S;
    forall x | x in next
      ensures x in S
    {
      if x !in stack {
        var r :| r in Node.AllRels(g, top.node, None) && Around(g, r, x);
        assert RelItem(r) in S;
      }
    }
  }

  /** `self.stack.pop()` followed by `_serialize(item, traverse)`. */
  method Step(g: Graph, s: State, stack: seq<Item>, traverse: bool) returns (t: State, next: seq<Item>)
    requires Traversable(g) && Wf(g, s) && |stack| > 0
    requires forall x :: x in stack ==> Valid(g, x)
    ensures Wf(g, t) && Grows(s, t)
    ensures forall x :: x in next ==> Valid(g, x)
    ensures stack[|stack| - 1] in t.indexes
    ensures forall x :: x in stack ==> x in t.indexes || x in next
    ensures t.indexes.Keys == s.indexes.Keys ==> Weight(g, t, next, traverse) < Weight(g, s, stack, traverse)
    ensures traverse && Pending(g, s, stack) ==> Pending(g, t, next)
    ensures stack[|stack| - 1] in s.indexes && (!traverse || Closed(g, s)) ==> t == s && next == stack[..|stack| - 1]
    ensures stack[|stack| - 1].RelItem? ==> t == SerializeRel(g, s, stack[|stack| - 1].rel) && next == stack[..|stack| - 1]
    ensures t.indexes.Keys <= s.indexes.Keys + {stack[|stack| - 1]} + EndsOf(g, stack[|stack| - 1])
    ensures !traverse ==> next == stack[..|stack| - 1]
    ensures forall x :: x in next ==> x in stack || (traverse && Spawns(g, stack[|stack| - 1], x))
  {
    if stack[|stack| - 1].RelItem? {
      t, next := StepRel(g, s, stack, traverse);
    } else {
      t, next := StepNode(g, s, stack, traverse);
    }
  }

  /** `_serialize_rel` on the popped relationship. */
  method StepRel(g: Graph, s: State, stack: seq<Item>, traverse: bool) returns (t: State, next: seq<Item>)
    requires stack != [] && stack[|stack| - 1].RelItem?
    requires Traversable(g) && Wf(g, s) && |stack| > 0
    requires forall x :: x in stack ==> Valid(g, x)
    ensures Wf(g, t) && Grows(s, t)
    ensures forall x :: x in next ==> Valid(g, x)
    ensures stack[|stack| - 1] in t.indexes
    ensures forall x :: x in stack ==> x in t.indexes || x in next
    ensures t.indexes.Keys == s.indexes.Keys ==> Weight(g, t, next, traverse) < Weight(g, s, stack, traverse)
    ensures traverse && Pending(g, s, stack) ==> Pending(g, t, next)
    ensures stack[|stack| - 1] in s.indexes && (!traverse || Closed(g, s)) ==> t == s && next == stack[..|stack| - 1]
    ensures t == SerializeRel(g, s, stack[|stack| - 1].rel) && next == stack[..|stack| - 1]
    ensures t.indexes.Keys <= s.indexes.Keys + {stack[|stack| - 1]} + EndsOf(g, stack[|stack| - 1])
    ensures !traverse ==> next == stack[..|stack| - 1]
    ensures forall x :: x in next ==> x in stack || (traverse && Spawns(g, stack[|stack| - 1], x))
  {
    var rest := stack[..|stack| - 1];
    var x := stack[|stack| - 1];
    assert Valid(g, x);
    assert Weight(g, s, stack, traverse) == Weight(g, s, rest, traverse) + Cost(g, s, x, traverse);
    t := SerializeRel(g, s, x.rel);
    next := rest;
    if x in s.indexes {
      assert t == s;
    } else {
      assert t.indexes.Keys != s.indexes.Keys;
    }
    if traverse && Pending(g, s, stack) {
      PendingAfterRel(g, s, stack, t);
    }
  }

  /** `_serialize_node` on the popped node. */
  method StepNode(g: Graph, s: State, stack: seq<Item>, traverse: bool) returns (t: State, next: seq<Item>)
    requires stack != [] && stack[|stack| - 1].NodeItem?
    requires Traversable(g) && Wf(g, s) && |stack| > 0
    requires forall x :: x in stack ==> Valid(g, x)
    ensures Wf(g, t) && Grows(s, t)
    ensures forall x :: x in next ==> Valid(g, x)
    ensures stack[|stack| - 1] in t.indexes
    ensures forall x :: x in stack ==> x in t.indexes || x in next
    ensures t.indexes.Keys == s.indexes.Keys ==> Weight(g, t, next, traverse) < Weight(g, s, stack, traverse)
    ensures traverse && Pending(g, s, stack) ==> Pending(g, t, next)
    ensures stack[|stack| - 1] in s.indexes && (!traverse || Closed(g, s)) ==> t == s && next == stack[..|stack| - 1]
    ensures t.indexes.Keys <= s.indexes.Keys + {stack[|stack| - 1]} + EndsOf(g, stack[|stack| - 1])
    ensures !traverse ==> next == stack[..|stack| - 1]
    ensures forall x :: x in next ==> x in stack || (traverse && Spawns(g, stack[|stack| - 1], x))
  {
    var rest := stack[..|stack| - 1];
    var x := stack[|stack| - 1];
    var n := x.node;
    assert stack == rest + [x];
    assert Valid(g, x);
    assert Weight(g, s, stack, traverse) == Weight(g, s, rest, traverse) + Cost(g, s, x, traverse);
    t := if x in s.indexes then s else AddNode(g, s, n);
    next := rest;
    if traverse {
      var pushed := Discover(g, t, Node.AllRels(g, n, None));
      next := rest + pushed;
      if t.indexes.Keys == s.indexes.Keys {
        assert t == s;
        WeightConcat(g, s, rest, pushed, traverse);
        WeightFresh(g, s, pushed, traverse);
      }
      if Pending(g, s, stack) {
        PendingAfterNode(g, s, stack, t, pushed);
      }
      if x in s.indexes && Closed(g, s) {
        assert pushed == [];
        assert next == rest;
      }
    }
  }

  /** Emitting the relationship on top of the stack keeps the traversal invariant. */
  lemma PendingAfterRel(g: Graph, s: State, stack: seq<Item>, t: State)
    requires |stack| > 0 && stack[|stack| - 1].RelItem? && stack[|stack| - 1].rel in g.rels
    requires Pending(g, s, stack) && Grows(s, t) && stack[|stack| - 1] in t.indexes
    requires var r := g.rels[stack[|stack| - 1].rel];
      t.indexes.Keys <= s.indexes.Keys + {stack[|stack| - 1], NodeItem(r.start), NodeItem(r.end)}
    ensures Pending(g, t, stack[..|stack| - 1])
  {
    NodesAfterRel(g, s, stack, t);
    RelsAfterPop(g, s, stack, t);
  }

  lemma NodesAfterRel(g: Graph, s: State, stack: seq<Item>, t: State)
    requires |stack| > 0 && stack[|stack| - 1].RelItem? && stack[|stack| - 1].rel in g.rels
    requires NodesPending(g, s, stack) && RelsPending(g, s, stack) && Grows(s, t) && stack[|stack| - 1] in t.indexes
    requires var r := g.rels[stack[|stack| - 1].rel];
      t.indexes.Keys <= s.indexes.Keys + {stack[|stack| - 1], NodeItem(r.start), NodeItem(r.end)}
    ensures NodesPending(g, t, stack[..|stack| - 1])
  {
    var rest := stack[..|stack| - 1];
    var x := stack[|stack| - 1];
    assert stack == rest + [x];
    assert EndsReady(g, s, stack, |stack| - 1);
    forall n | NodeItem(n) in t.indexes
      ensures NodeItem(n) in rest || Covered(g, t, rest, n)
    {
      if NodeItem(n) in s.indexes && NodeItem(n) !in stack {
        assert Covered(g, s, stack, n);
        forall q | q in Node.AllRels(g, n, None)
          ensures RelItem(q) in t.indexes || RelItem(q) in rest
        {
          if RelItem(q) !in s.indexes && RelItem(q) != x {
            assert RelItem(q) in stack;
          }
        }
      }
    }
  }

  /** Popping the top of the stack keeps the endpoints of the relationships below ready. */
  lemma RelsAfterPop(g: Graph, s: State, stack: seq<Item>, t: State)
    requires |stack| > 0 && RelsPending(g, s, stack) && Grows(s, t)
    ensures RelsPending(g, t, stack[..|stack| - 1])
  {
    var rest := stack[..|stack| - 1];
    forall i | 0 <= i < |rest| && rest[i].RelItem?
      ensures EndsReady(g, t, rest, i)
    {
      assert rest[..i] == stack[..i];
      assert EndsReady(g, s, stack, i);
    }
  }

  /** Traversing the node on top of the stack keeps the traversal invariant. */
  lemma PendingAfterNode(g: Graph, s: State, stack: seq<Item>, t: State, pushed: seq<Item>)
    requires |stack| > 0 && stack[|stack| - 1].NodeItem?
    requires Pending(g, s, stack) && Grows(s, t)
    requires t.indexes.Keys <= s.indexes.Keys + {stack[|stack| - 1]}
    requires forall r :: r in Node.AllRels(g, stack[|stack| - 1].node, None) ==> RelItem(r) in t.indexes || RelItem(r) in pushed
    requires RelsPending(g, t, pushed)
    ensures Pending(g, t, stack[..|stack| - 1] + pushed)
  {
    NodesAfterNode(g, s, stack, t, pushed);
    RelsAfterPop(g, s, stack, t);
    RelsAppend(g, t, stack[..|stack| - 1], pushed);
  }

  lemma NodesAfterNode(g: Graph, s: State, stack: seq<Item>, t: State, pushed: seq<Item>)
    requires |stack| > 0 && stack[|stack| - 1].NodeItem?
    requires NodesPending(g, s, stack) && Grows(s, t)
    requires t.indexes.Keys <= s.indexes.Keys + {stack[|stack| - 1]}
    requires forall r :: r in Node.AllRels(g, stack[|stack| - 1].node, None) ==> RelItem(r) in t.indexes || RelItem(r) in pushed
    ensures NodesPending(g, t, stack[..|stack| - 1] + pushed)
  {
    var rest := stack[..|stack| - 1];
    var x := stack[|stack| - 1];
    var next := rest + pushed;
    assert stack == rest + [x];
    forall n | NodeItem(n) in t.indexes
      ensures NodeItem(n) in next || Covered(g, t, next, n)
    {
      if NodeItem(n) != x {
        if NodeItem(n) in stack {
          assert NodeItem(n) in rest;
        } else {
          assert Covered(g, s, stack, n);
          forall q | q in Node.AllRels(g, n, None)
            ensures RelItem(q) in t.indexes || RelItem(q) in next
          {
            if RelItem(q) !in s.indexes {
              assert RelItem(q) in rest;
            }
          }
        }
      }
    }
  }

  /** Pushing entries whose relationships are ready on top of a ready stack. */
  lemma RelsAppend(g: Graph, t: State, rest: seq<Item>, pushed: seq<Item>)
    requires RelsPending(g, t, rest) && RelsPending(g, t, pushed)
    ensures RelsPending(g, t, rest + pushed)
  {
    var next := rest + pushed;
    forall i | 0 <= i < |next| && next[i].RelItem?
      ensures EndsReady(g, t, next, i)
    {
      if i < |rest| {
        assert next[..i] == rest[..i];
        assert EndsReady(g, t, rest, i);
      } else {
        assert next[..i] == rest + pushed[..i - |rest|];
        assert EndsReady(g, t, pushed, i - |rest|);
      }
    }
  }

  /** What `serialize` accepts: one entity, or a list or tuple of them. */
  datatype Input = Entity(item: Item) | Entities(items: seq<Item>) | NotAnEntity

  /** The entities an input puts on the stack, in push order. */
  function Initial(a: Input): seq<Item> {
    match a
    case Entity(x) => [x]
    case Entities(xs) => xs
    case NotAnEntity => []
  }

  /** The input names entities of the graph. */
  predicate ValidInput(g: Graph, a: Input) {
    match a
    case Entity(x) => Valid(g, x)
    case Entities(xs) => forall x :: x in xs ==> Valid(g, x)
    case NotAnEntity => true
  }

  /** Every relationship in `xs` has its endpoints emitted or listed before it. */
  predicate Ready(g: Graph, s: State, xs: seq<Item>) {
    forall i :: 0 <= i < |xs| && xs[i].RelItem? ==> EndsReady(g, s, xs, i)
  }

  /** The traversal starts from a closed state with its relationships' endpoints ready. */
  ghost predicate Closing(g: Graph, s: State, a: Input, traverse: bool) {
    traverse && Closed(g, s) && Ready(g, s, Initial(a))
  }

  /** Everything asked for is emitted already, and a traversal would find nothing new. */
  ghost predicate Quiet(s: State, a: Input, traverse: bool, g: Graph) {
    (forall x :: x in Initial(a) ==> x in s.indexes) && (!traverse || Closed(g, s))
  }

  /** The single-relationship call. */
  predicate SingleRel(g: Graph, a: Input) {
    a.Entity? && a.item.RelItem? && a.item.rel in g.rels
  }

  /** The loop invariant of `serialize`: `t` and `stack` are the state and stack after some
      iterations, starting from `s` with input `a`. */
  ghost predicate Inv(g: Graph, s: State, a: Input, traverse: bool, t: State, stack: seq<Item>) {
    && InvCore(g, s, a, t, stack)
    && (Closing(g, s, a, traverse) ==> Pending(g, t, stack))
    && (Quiet(s, a, traverse, g) ==> t == s && forall x :: x in stack ==> x in s.indexes)
    && (SingleRel(g, a) ==> (stack == Initial(a) && t == s) || (stack == [] && t == SerializeRel(g, s, a.item.rel)))
  }

  ghost predicate InvCore(g: Graph, s: State, a: Input, t: State, stack: seq<Item>) {
    && Traversable(g) && Wf(g, s) && Wf(g, t) && Grows(s, t)
    && (forall x :: x in stack ==> Valid(g, x))
    && (forall x :: x in Initial(a) ==> x in t.indexes || x in stack)
  }

  /** One iteration of the loop keeps the invariant and makes progress: something new is
      emitted, or nothing is and the stack's weight drops. */
  method Advance(g: Graph, s: State, a: Input, traverse: bool, t: State, stack: seq<Item>) returns (t': State, next: seq<Item>)
    requires Inv(g, s, a, traverse, t, stack) && |stack| > 0
    ensures Inv(g, s, a, traverse, t', next)
    ensures t.indexes.Keys < t'.indexes.Keys <= Universe(g)
         || (t'.indexes.Keys == t.indexes.Keys && Weight(g, t', next, traverse) < Weight(g, t, stack, traverse))
    ensures t'.indexes.Keys <= t.indexes.Keys + {stack[|stack| - 1]} + EndsOf(g, stack[|stack| - 1])
    ensures forall x :: x in next ==> x in stack || (traverse && Spawns(g, stack[|stack| - 1], x))
  {
    t', next := Step(g, t, stack, traverse);
    EmittedInUniverse(g, t');
    GrowsKeys(t, t');
    Measure(t.indexes.Keys, t'.indexes.Keys, Universe(g), Weight(g, t', next, traverse), Weight(g, t, stack, traverse));
    CoreStep(g, s, a, t, stack, t', next);
    QuietStep(g, s, a, traverse, t, stack, t', next);
    SingleStep(g, s, a, t, stack, t', next);
  }

  lemma Measure<T>(k: set<T>, k': set<T>, u: set<T>, w': nat, w: nat)
    requires k <= k' <= u
    requires k == k' ==> w' < w
    ensures k < k' <= u || (k' == k && w' < w)
  {
  }

  lemma CoreStep(g: Graph, s: State, a: Input, t: State, stack: seq<Item>, t': State, next: seq<Item>)
    requires InvCore(g, s, a, t, stack)
    requires Wf(g, t') && Grows(t, t')
    requires forall x :: x in next ==> Valid(g, x)
    requires forall x :: x in stack ==> x in t'.indexes || x in next
    ensures InvCore(g, s, a, t', next)
  {
    forall x | x in Initial(a)
      ensures x in t'.indexes || x in next
    {
    }
  }

  lemma QuietStep(g: Graph, s: State, a: Input, traverse: bool, t: State, stack: seq<Item>, t': State, next: seq<Item>)
    requires |stack| > 0
    requires Quiet(s, a, traverse, g) ==> t == s && forall x :: x in stack ==> x in s.indexes
    requires stack[|stack| - 1] in t.indexes && (!traverse || Closed(g, t)) ==> t' == t && next == stack[..|stack| - 1]
    ensures Quiet(s, a, traverse, g) ==> t' == s && forall x :: x in next ==> x in s.indexes
  {
    if Quiet(s, a, traverse, g) {
      assert stack[|stack| - 1] in stack;
      assert forall x :: x in next ==> x in stack;
    }
  }

  lemma SingleStep(g: Graph, s: State, a: Input, t: State, stack: seq<Item>, t': State, next: seq<Item>)
    requires |stack| > 0
    requires SingleRel(g, a) ==> stack == Initial(a) && t == s
    requires Traversable(g) && Wf(g, s) && Wf(g, t) && Valid(g, stack[|stack| - 1])
    requires stack[|stack| - 1].RelItem? ==> t' == SerializeRel(g, t, stack[|stack| - 1].rel) && next == stack[..|stack| - 1]
    ensures SingleRel(g, a) ==> stack == Initial(a) && t == s && next == [] && t' == SerializeRel(g, s, a.item.rel)
  {
  }

  /** `serializer.serialize(item, traverse)`: returns the output so far, which only ever grows;
      raises `TypeError`, with nothing changed, for anything that is not an entity or a list. */
  method Serialize(g: Graph, s: State, a: Input, traverse: bool) returns (r: Result<State>)
    requires Traversable(g) && Wf(g, s)
    requires ValidInput(g, a)
    ensures r.Failure? <==> a.NotAnEntity?
    ensures r.Failure? ==> r.error == TypeError
    ensures r.Success? ==> Wf(g, r.value) && Grows(s, r.value)
    ensures r.Success? ==> forall x :: x in Initial(a) ==> x in r.value.indexes
    ensures r.Success? && traverse && Closed(g, s) && Ready(g, s, Initial(a)) ==> Closed(g, r.value)
    ensures r.Success? && (forall x :: x in Initial(a) ==> x in s.indexes) && (!traverse || Closed(g, s)) ==> r.value == s
    ensures a.Entity? && a.item.RelItem? ==> r == Success(SerializeRel(g, s, a.item.rel))
    ensures r.Success? ==> forall S :: Confines(g, S, traverse) && Covers(S, a) ==> r.value.indexes.Keys <= s.indexes.Keys + S
    ensures r.Success? && !traverse ==> r.value.indexes.Keys == s.indexes.Keys + Direct(g, Initial(a))
  {
    if a.NotAnEntity? {
      return Failure(TypeError);
    }
    var stack := Initial(a);
    var t := s;
    InvStart(g, s, a, traverse);
    while |stack| > 0
      invariant Inv(g, s, a, traverse, t, stack)
      invariant Bounded(g, s, a, traverse, t, stack)
      decreases |Universe(g) - t.indexes.Keys|, Weight(g, t, stack, traverse)
    {
      var t', next := Advance(g, s, a, traverse, t, stack);
      if t.indexes.Keys != t'.indexes.Keys {
        Progress(Universe(g), t.indexes.Keys, t'.indexes.Keys);
      }
      BoundSteps(g, s, a, traverse, t, stack, t', next);
      t, stack := t', next;
    }
    InvFinish(g, s, a, traverse, t);
    if !traverse {
      DirectBound(g, s, a, t);
    }
    return Success(t);
  }

  /** Without traversal the output gains exactly the given entities and the endpoints of the
      given relationships, since those form a set the call cannot leave. */
  lemma DirectBound(g: Graph, s: State, a: Input, t: State)
    requires Wf(g, t) && Grows(s, t)
    requires forall x :: x in Initial(a) ==> x in t.indexes
    requires forall S :: Confines(g, S, false) && Covers(S, a) ==> t.indexes.Keys <= s.indexes.Keys + S
    ensures t.indexes.Keys == s.indexes.Keys + Direct(g, Initial(a))
  {
    var D := Direct(g, Initial(a));
    DirectConfines(g, Initial(a));
    assert Covers(D, a);
    DirectEmitted(g, t, Initial(a));
    GrowsKeys(s, t);
  }

  /** The given entities and their endpoints form a set a call without traversal cannot leave. */
  lemma DirectConfines(g: Graph, xs: seq<Item>)
    ensures Confines(g, Direct(g, xs), false)
  {
    var D := Direct(g, xs);
    forall r | RelItem(r) in D && r in g.rels
      ensures NodeItem(g.rels[r].start) in D && NodeItem(g.rels[r].end) in D
    {
      assert RelItem(r) in xs;
      assert NodeItem(g.rels[r].start) in EndsOf(g, RelItem(r)) && NodeItem(g.rels[r].end) in EndsOf(g, RelItem(r));
    }
  }

  /** Once the given entities are emitted, so are the endpoints of the given relationships. */
  lemma DirectEmitted(g: Graph, t: State, xs: seq<Item>)
    requires Wf(g, t) && forall x :: x in xs ==> x in t.indexes
    ensures Direct(g, xs) <= t.indexes.Keys
  {
    forall y | y in Direct(g, xs)
      ensures y in t.indexes
    {
      if y !in xs {
        var x :| x in xs && y in EndsOf(g, x);
        EndsEmitted(g, t, x);
      }
    }
  }

  /** `serialize(node, traverse=False)` on its own reaches that node and nothing else. */
  lemma DirectOneNode(g: Graph, n: NodeId)
    ensures Direct(g, [NodeItem(n)]) == {NodeItem(n)}
  {
    assert EndsOf(g, NodeItem(n)) == {};
  }

  /** An emitted relationship's endpoints are emitted. */
  lemma EndsEmitted(g: Graph, t: State, x: Item)
    requires Wf(g, t) && x in t.indexes
    ensures EndsOf(g, x) <= t.indexes.Keys
  {
    assert Recorded(g, t, x);
  }


  lemma InvStart(g: Graph, s: State, a: Input, traverse: bool)
    requires Traversable(g) && Wf(g, s) && ValidInput(g, a) && !a.NotAnEntity?
    ensures Inv(g, s, a, traverse, s, Initial(a))
  {
    if Closing(g, s, a, traverse) {
      StartPending(g, s, Initial(a));
    }
  }

  lemma InvFinish(g: Graph, s: State, a: Input, traverse: bool, t: State)
    requires Inv(g, s, a, traverse, t, []) && ValidInput(g, a)
    ensures Wf(g, t) && Grows(s, t)
    ensures forall x :: x in Initial(a) ==> x in t.indexes
    ensures traverse && Closed(g, s) && Ready(g, s, Initial(a)) ==> Closed(g, t)
    ensures (forall x :: x in Initial(a) ==> x in s.indexes) && (!traverse || Closed(g, s)) ==> t == s
    ensures a.Entity? && a.item.RelItem? ==> t == SerializeRel(g, s, a.item.rel)
  {
    if a.Entity? && a.item.RelItem? {
      assert SingleRel(g, a);
    }
  }

  /** From a closed state, a stack whose relationships have their endpoints ready is a valid
      start for the traversal. */
  lemma StartPending(g: Graph, s: State, init: seq<Item>)
    requires Closed(g, s) && Ready(g, s, init)
    ensures Pending(g, s, init)
  {
  }

  // ---------------------------------------------------------------- convert_array_to_dict

  /** The output of `convert_array_to_dict`: `{'nodes': [...], 'rels': [...]}`. */
  datatype Split = Split(nodes: seq<Record>, rels: seq<Record>)

  /** Position `k` of the flat list holds a node record. */
  predicate NodeAt(items: seq<Record>, k: int) {
    0 <= k < |items| && items[k].NodeRecord?
  }

  /** The node records of the flat list, in order. */
  function NodesOf(items: seq<Record>): (r: seq<Record>)
    ensures |r| <= |items|
    ensures forall x :: x in r <==> x in items && x.NodeRecord?
  {
    if items == [] then []
    else
      var init := items[..|items| - 1];
      assert items == init + [items[|items| - 1]];
      NodesOf(init) + (if items[|items| - 1].NodeRecord? then [items[|items| - 1]] else [])
  }

  /** The relationship records of the flat list (a record with a `type`), in order. */
  function RelsOf(items: seq<Record>): (r: seq<Record>)
    ensures |r| <= |items|
    ensures forall x :: x in r <==> x in items && x.RelRecord?
  {
    if items == [] then []
    else
      var init := items[..|items| - 1];
      assert items == init + [items[|items| - 1]];
      RelsOf(init) + (if items[|items| - 1].RelRecord? then [items[|items| - 1]] else [])
  }

  lemma {:induction false} SplitCounts(items: seq<Record>)
    ensures |NodesOf(items)| + |RelsOf(items)| == |items|
  {
    if items != [] {
      SplitCounts(items[..|items| - 1]);
    }
  }

  /** `nmap`: the position of each node record in the flat list, mapped to its position among
      the nodes. */
  function NodeIndex(items: seq<Record>): (m: map<int, nat>)
    ensures forall k :: k in m <==> NodeAt(items, k)
    ensures forall k :: k in m ==> 0 <= k < |items| && m[k] < |NodesOf(items)| && NodesOf(items)[m[k]] == items[k]
    ensures forall k :: k in m ==> m[k] == |NodesOf(items[..k])|
  {
    if items == [] then map[]
    else
      var init := items[..|items| - 1];
      var m := NodeIndex(init);
      assert forall k :: 0 <= k < |init| ==> items[k] == init[k];
      assert items[..|init|] == init;
      forall k | k in m
        ensures items[..k] == init[..k]
      {
      }
      if items[|items| - 1].NodeRecord? then m[|items| - 1 := |NodesOf(init)|] else m
  }

  /** The second loop of `convert_array_to_dict`: each relationship's `start` and `end` are
      looked up in `nmap`, raising `KeyError` for a position that is not a node's. */
  function Remap(rels: seq<Record>, nmap: map<int, nat>): (r: Result<seq<Record>>)
    requires forall x :: x in rels ==> x.RelRecord?
    ensures r.Success? <==> forall x :: x in rels ==> x.start in nmap && x.end in nmap
    ensures r.Failure? ==> r.error == KeyError
    ensures r.Success? ==> |r.value| == |rels|
    ensures r.Success? ==> forall k :: 0 <= k < |rels| ==>
      r.value[k] == rels[k].(start := nmap[rels[k].start], end := nmap[rels[k].end])
  {
    if rels == [] then Success([])
    else
      var x := rels[0];
      assert forall y :: y in rels[1..] ==> y in rels;
      if x.start !in nmap || x.end !in nmap then Failure(KeyError)
      else
        var rest := Remap(rels[1..], nmap);
        if rest.Failure? then
          assert rels == [x] + rels[1..];
          rest
        else
          Success([x.(start := nmap[x.start], end := nmap[x.end])] + rest.value)
  }

  /** Relationship record `now` is `was` with its endpoints renumbered: each now counts the
      node records before the old position, so it points at that very record in `nodes`. */
  predicate Renumbered(items: seq<Record>, nodes: seq<Record>, was: Record, now: Record) {
    && was.RelRecord? && now.RelRecord? && now == was.(start := now.start, end := now.end)
    && NodeAt(items, was.start) && 0 <= now.start < |nodes| && nodes[now.start] == items[was.start]
    && now.start == |NodesOf(items[..was.start])|
    && NodeAt(items, was.end) && 0 <= now.end < |nodes| && nodes[now.end] == items[was.end]
    && now.end == |NodesOf(items[..was.end])|
  }

  /** `convert_array_to_dict(items)`: splits a flat list into node and relationship records,
      renumbering each relationship's endpoints to positions in the node list. */
  function ConvertArrayToDict(items: seq<Record>): (r: Result<Split>)
    ensures r.Success? <==> forall i :: 0 <= i < |items| && items[i].RelRecord? ==>
                              NodeAt(items, items[i].start) && NodeAt(items, items[i].end)
    ensures r.Failure? ==> r.error == KeyError
    ensures r.Success? ==> r.value.nodes == NodesOf(items) && |r.value.rels| == |RelsOf(items)|
    ensures r.Success? ==> forall k :: 0 <= k < |r.value.rels| ==>
      Renumbered(items, r.value.nodes, RelsOf(items)[k], r.value.rels[k])
  {
    var nmap := NodeIndex(items);
    var rels := RelsOf(items);
    RelsResolve(items);
    match Remap(rels, nmap)
    case Failure(e) => Failure(e)
    case Success(rs) =>
      RemapRenumbers(items, rels, rs);
      Success(Split(NodesOf(items), rs))
  }

  /** Equal node records keep their own positions: with two property-less nodes and a
      relationship from the first to the second, the renumbered relationship must point at
      nodes 0 and 1, not at the same record twice. */
  lemma RenumberedEqualNodes()
    ensures var n := NodeRecord(map[], None, None, None);
            var rel := RelRecord(0, 1, "T", map[], None, None);
            && Renumbered([n, n, rel], [n, n], rel, rel)
            && !Renumbered([n, n, rel], [n, n], rel, rel.(start := 0, end := 0))
  {
    var n := NodeRecord(map[], None, None, None);
    var items := [n, n, RelRecord(0, 1, "T", map[], None, None)];
    assert items[..0] == [] && items[..1] == [n];
    assert NodesOf(items[..1]) == [n];
  }

  /** The relationship records all resolve exactly when every relationship of the flat list
      points at node positions. */
  lemma RelsResolve(items: seq<Record>)
    ensures forall x :: x in RelsOf(items) ==> x.RelRecord?
    ensures (forall x :: x in RelsOf(items) ==> x.start in NodeIndex(items) && x.end in NodeIndex(items))
       <==> (forall i :: 0 <= i < |items| && items[i].RelRecord? ==> NodeAt(items, items[i].start) && NodeAt(items, items[i].end))
  {
  }

  lemma RemapRenumbers(items: seq<Record>, rels: seq<Record>, rs: seq<Record>)
    requires forall x :: x in rels ==> x.RelRecord? && x.start in NodeIndex(items) && x.end in NodeIndex(items)
    requires |rs| == |rels|
    requires forall k :: 0 <= k < |rels| ==>
      rs[k] == rels[k].(start := NodeIndex(items)[rels[k].start], end := NodeIndex(items)[rels[k].end])
    ensures forall k :: 0 <= k < |rs| ==> Renumbered(items, NodesOf(items), rels[k], rs[k])
  {
    forall k | 0 <= k < |rs|
      ensures Renumbered(items, NodesOf(items), rels[k], rs[k])
    {
      assert rels[k] in rels;
    }
  }

  /** Whatever a serializer has emitted converts: every relationship record points at node
      records. */
  lemma SerializedConverts(g: Graph, s: State)
    requires Wf(g, s)
    ensures ConvertArrayToDict(s.items).Success?
    ensures |ConvertArrayToDict(s.items).value.nodes| + |ConvertArrayToDict(s.items).value.rels| == |s.items|
  {
    assert Linked(s.items);
    SplitCounts(s.items);
  }
}
