/** The relationship methods of `Node` in `graphlib/graph.py`: relate, unrelate,
    related, rels, degree and neighbors, as pure functions over the arena. */
module Node {
  import opened Wrappers
  import opened Values
  import opened Graph
  import Props

  // ---------------------------------------------------------------------------
  // Direction keywords

  /** The keyword arguments `_parse_direction` reads: `direction=`, `incoming=`, `outgoing=`
      (an absent or zero `direction` counts as not given). */
  datatype DirArgs = DirArgs(direction: Option<int>, incoming: bool, outgoing: bool)

  /** Whether the keywords ask for direction `d`. */
  predicate Wants(a: DirArgs, d: Dir) {
    if a.direction.Some? && a.direction.value != 0 then
      a.direction.value == (if d == Outgoing then 1 else -1)
    else if d == Outgoing then a.outgoing || !a.incoming
    else a.incoming || !a.outgoing
  }

  /** `_parse_direction`: an explicit direction must be 1 or -1; otherwise `incoming` and
      `outgoing` pick one, and both or neither mean "either direction" (None). */
  function ParseDirection(a: DirArgs): (r: Result<Option<Dir>>)
    ensures r.Failure? <==> a.direction.Some? && a.direction.value !in {0, 1, -1}
    ensures r.Failure? ==> r.error == AssertionError
    ensures r.Success? ==> forall d :: Allows(r.value, d) <==> Wants(a, d)
  {
    if a.direction.Some? && a.direction.value != 0 then
      if a.direction.value == 1 then Success(Some(Outgoing))
      else if a.direction.value == -1 then Success(Some(Incoming))
      else Failure(AssertionError)
    else if a.incoming && a.outgoing then Success(None)
    else if a.incoming then Success(Some(Incoming))
    else if a.outgoing then Success(Some(Outgoing))
    else Success(None)
  }

  /** A `type` argument is used only when it is a non-empty string (`if type:`). */
  predicate TypeGiven(t: Option<string>) {
    t.Some? && t.value != ""
  }

  function TypeFilter(t: Option<string>): Option<string> {
    if TypeGiven(t) then t else None
  }

  // ---------------------------------------------------------------------------
  // Index walks (`_rels_for_*`, `_rels`)

  /** The outgoing half of `_rels_for_node_and_type`. */
  function OutAt(g: Graph, self: NodeId, node: NodeId, t: string, dir: Option<Dir>): set<RelId> {
    if Allows(dir, Outgoing) && t in Out(g, self, node) then {Out(g, self, node)[t]} else {}
  }

  /** The incoming half of `_rels_for_node_and_type`. */
  function InAt(g: Graph, self: NodeId, node: NodeId, t: string, dir: Option<Dir>): set<RelId> {
    if Allows(dir, Incoming) && t in In(g, self, node) then {In(g, self, node)[t]} else {}
  }

  /** `_rels_for_node_and_type`. */
  function RelsForNodeAndType(g: Graph, self: NodeId, node: NodeId, t: string, dir: Option<Dir>): set<RelId> {
    OutAt(g, self, node, t, dir) + InAt(g, self, node, t, dir)
  }

  /** `_rels_for_node`. */
  function RelsForNode(g: Graph, self: NodeId, node: NodeId, dir: Option<Dir>): set<RelId> {
    (if Allows(dir, Outgoing) then Out(g, self, node).Values else {})
    + (if Allows(dir, Incoming) then In(g, self, node).Values else {})
  }

  /** `_rels_for_type`: walks the neighbors listed under `_types[t]`. */
  function RelsForType(g: Graph, self: NodeId, t: string, dir: Option<Dir>): set<RelId> {
    set m, r | m in Types(g, self, t) && r in RelsForNodeAndType(g, self, m, t, dir) :: r
  }

  /** `_rels`: every Rel in the outgoing and/or incoming index. */
  function AllRels(g: Graph, self: NodeId, dir: Option<Dir>): set<RelId> {
    (if Allows(dir, Outgoing) then set m, r | m in AdjOf(g, self).outgoing.Keys && r in Out(g, self, m).Values :: r else {})
    + (if Allows(dir, Incoming) then set m, r | m in AdjOf(g, self).incoming.Keys && r in In(g, self, m).Values :: r else {})
  }

  /** An index walk at one (neighbor, type) finds exactly the registered Rels there. */
  lemma NodeAndTypeSpec(g: Graph, self: NodeId, node: NodeId, t: string, dir: Option<Dir>)
    requires Consistent(g)
    ensures RelsForNodeAndType(g, self, node, t, dir) == Selected(g, self, Among({node}), Some(t), dir)
  {
    forall r | r in RelsForNodeAndType(g, self, node, t, dir)
      ensures r in Selected(g, self, Among({node}), Some(t), dir)
    {
      if r in OutAt(g, self, node, t, dir) {
        assert OutEntryOk(g, self, node, t);
      } else {
        assert InEntryOk(g, self, node, t);
      }
    }
    forall r | r in Selected(g, self, Among({node}), Some(t), dir)
      ensures r in RelsForNodeAndType(g, self, node, t, dir)
    {
      SelectedAtFound(g, self, node, t, dir, r);
    }
  }

  /** A registered Rel between `self` and `node` of type `t` sits where the walk looks. */
  lemma SelectedAtFound(g: Graph, self: NodeId, node: NodeId, t: string, dir: Option<Dir>, r: RelId)
    requires Consistent(g) && r in Selected(g, self, Among({node}), Some(t), dir)
    ensures r in RelsForNodeAndType(g, self, node, t, dir)
  {
    var x := g.rels[r];
    if !(Allows(dir, Outgoing) && x.start == self && x.end == node) {
      assert OutEntryOk(g, x.start, x.end, x.rtype);
      assert r in InAt(g, self, node, t, dir);
    } else {
      assert r in OutAt(g, self, node, t, dir);
    }
  }

  lemma NodeSpec(g: Graph, self: NodeId, node: NodeId, dir: Option<Dir>)
    requires Consistent(g)
    ensures RelsForNode(g, self, node, dir) == Selected(g, self, Among({node}), None, dir)
  {
    EntriesRegistered(g);
    forall r | r in RelsForNode(g, self, node, dir)
      ensures r in Selected(g, self, Among({node}), None, dir)
    {
      if Allows(dir, Outgoing) && r in Out(g, self, node).Values {
        var t :| t in Out(g, self, node) && Out(g, self, node)[t] == r;
        assert OutEntryOk(g, self, node, t);
      } else {
        var t :| t in In(g, self, node) && In(g, self, node)[t] == r;
        assert InEntryOk(g, self, node, t);
      }
    }
    forall r | r in Selected(g, self, Among({node}), None, dir)
      ensures r in RelsForNode(g, self, node, dir)
    {
      var x := g.rels[r];
      if Allows(dir, Outgoing) && x.start == self && x.end == node {
        assert Out(g, self, node)[x.rtype] == r;
      } else {
        assert OutEntryOk(g, x.start, x.end, x.rtype);
        assert In(g, self, node)[x.rtype] == r;
      }
    }
  }

  /** Selecting among a set of neighbors is the union of selecting at each of them. */
  lemma SelectedAmong(g: Graph, self: NodeId, P: set<NodeId>, t: Option<string>, dir: Option<Dir>, r: RelId)
    ensures r in Selected(g, self, Among(P), t, dir) <==> exists m :: m in P && r in Selected(g, self, Among({m}), t, dir)
  {
    if r in Selected(g, self, Among(P), t, dir) {
      var x := g.rels[r];
      if Allows(dir, Outgoing) && x.start == self && x.end in P {
        assert r in Selected(g, self, Among({x.end}), t, dir);
      } else {
        assert r in Selected(g, self, Among({x.start}), t, dir);
      }
    }
  }

  lemma TypeSpec(g: Graph, self: NodeId, t: string, dir: Option<Dir>)
    requires Consistent(g)
    ensures RelsForType(g, self, t, dir) == Selected(g, self, Among(Types(g, self, t)), Some(t), dir)
  {
    var P := Types(g, self, t);
    forall r
      ensures r in RelsForType(g, self, t, dir) <==> r in Selected(g, self, Among(P), Some(t), dir)
    {
      SelectedAmong(g, self, P, Some(t), dir, r);
      forall m | m in P
        ensures r in RelsForNodeAndType(g, self, m, t, dir) <==> r in Selected(g, self, Among({m}), Some(t), dir)
      {
        NodeAndTypeSpec(g, self, m, t, dir);
      }
    }
  }

  lemma AllSpec(g: Graph, self: NodeId, dir: Option<Dir>)
    requires Consistent(g)
    ensures AllRels(g, self, dir) == Selected(g, self, AnyNode, None, dir)
  {
    EntriesRegistered(g);
    forall r | r in AllRels(g, self, dir)
      ensures r in Selected(g, self, AnyNode, None, dir)
    {
      if Allows(dir, Outgoing) && exists m :: m in AdjOf(g, self).outgoing.Keys && r in Out(g, self, m).Values {
        var m :| m in AdjOf(g, self).outgoing.Keys && r in Out(g, self, m).Values;
        var t :| t in Out(g, self, m) && Out(g, self, m)[t] == r;
        assert OutEntryOk(g, self, m, t);
      } else {
        var m :| m in AdjOf(g, self).incoming.Keys && r in In(g, self, m).Values;
        var t :| t in In(g, self, m) && In(g, self, m)[t] == r;
        assert InEntryOk(g, self, m, t);
      }
    }
    forall r | r in Selected(g, self, AnyNode, None, dir)
      ensures r in AllRels(g, self, dir)
    {
      var x := g.rels[r];
      if Allows(dir, Outgoing) && x.start == self {
        assert Out(g, self, x.end)[x.rtype] == r;
        assert r in Out(g, self, x.end).Values;
        assert x.end in AdjOf(g, self).outgoing.Keys;
      } else {
        assert OutEntryOk(g, x.start, x.end, x.rtype);
        assert In(g, self, x.start)[x.rtype] == r;
        assert r in In(g, self, x.start).Values;
        assert x.start in AdjOf(g, self).incoming.Keys;
      }
    }
  }
  // ---------------------------------------------------------------------------
  // `_del_rel`

  /** The outgoing step of `_del_rel`: the deleted count and the `total` of kept entries. */
  function DelOut(g: Graph, self: NodeId, node: NodeId, t: string, dir: Option<Dir>): (res: (Graph, nat, nat))
    requires Consistent(g)
    ensures Consistent(res.0)
    ensures res.0.rels == g.rels && res.0.attrs == g.attrs && res.0.nextNode == g.nextNode && res.0.nextRel == g.nextRel
    ensures Registered(res.0) == Registered(g) - OutAt(g, self, node, t, dir)
    ensures res.1 == |OutAt(g, self, node, t, dir)|
    ensures res.2 == (if t in Out(g, self, node) && !Allows(dir, Outgoing) then 1 else 0)
    ensures forall a, b :: In(res.0, a, b) == (if a == node && b == self && res.1 == 1 then In(g, a, b) - {t} else In(g, a, b))
    ensures forall a, b :: a != self || b != node ==> Out(res.0, a, b) == Out(g, a, b)
    ensures forall a, u :: Types(res.0, a, u) <= Types(g, a, u)
  {
    if t in Out(g, self, node) then
      if Allows(dir, Outgoing) then
        var r := Out(g, self, node)[t];
        assert OutEntryOk(g, self, node, t);
        RemoveRelKeepsConsistent(g, r);
        (RemoveRel(g, r), 1, 0)
      else (g, 0, 1)
    else (g, 0, 0)
  }

  /** The incoming step of `_del_rel`. */
  function DelIn(g: Graph, self: NodeId, node: NodeId, t: string, dir: Option<Dir>): (res: (Graph, nat, nat))
    requires Consistent(g)
    ensures Consistent(res.0)
    ensures res.0.rels == g.rels && res.0.attrs == g.attrs && res.0.nextNode == g.nextNode && res.0.nextRel == g.nextRel
    ensures Registered(res.0) == Registered(g) - InAt(g, self, node, t, dir)
    ensures res.1 == |InAt(g, self, node, t, dir)|
    ensures res.2 == (if t in In(g, self, node) && !Allows(dir, Incoming) then 1 else 0)
    ensures forall a, b :: Out(res.0, a, b) == (if a == node && b == self && res.1 == 1 then Out(g, a, b) - {t} else Out(g, a, b))
    ensures forall a, b :: a != self || b != node ==> In(res.0, a, b) == In(g, a, b)
    ensures forall a, u :: Types(res.0, a, u) <= Types(g, a, u)
  {
    if t in In(g, self, node) then
      if Allows(dir, Incoming) then
        var r := In(g, self, node)[t];
        assert InEntryOk(g, self, node, t);
        RemoveRelKeepsConsistent(g, r);
        (RemoveRel(g, r), 1, 0)
      else (g, 0, 1)
    else (g, 0, 0)
  }

  /** After the outgoing step, the incoming step finds what it would have found before,
      except a self-loop the outgoing step already deleted. */
  lemma InAtAfterOut(g: Graph, g1: Graph, self: NodeId, node: NodeId, t: string, dir: Option<Dir>)
    requires Consistent(g) && Consistent(g1) && g1.rels == g.rels
    requires Registered(g1) == Registered(g) - OutAt(g, self, node, t, dir)
    ensures InAt(g1, self, node, t, dir) == InAt(g, self, node, t, dir) - OutAt(g, self, node, t, dir)
  {
    IndexFollowsRegistration(g, g1, self, node, t);
    EntriesRegistered(g);
  }

  /** The last step of `_del_rel`: drop `node` from `self._types[t]` when `total` is 0. */
  function DropType(g: Graph, self: NodeId, node: NodeId, t: string, total: nat): (g': Graph)
    requires Consistent(g) && self < g.nextNode
    ensures Consistent(g') && Registered(g') == Registered(g)
    ensures g'.rels == g.rels && g'.attrs == g.attrs && g'.nextNode == g.nextNode && g'.nextRel == g.nextRel
    ensures forall a, b :: Out(g', a, b) == Out(g, a, b) && In(g', a, b) == In(g, a, b)
    ensures total == 0 ==> node !in Types(g', self, t)
    ensures total != 0 ==> g' == g
    ensures forall a, u :: Types(g', a, u) <= Types(g, a, u)
  {
    if total == 0 then
      ShrinkTypesKeepsConsistent(g, self, t, Types(g, self, t) - {node});
      PutTypes(g, self, t, Types(g, self, t) - {node})
    else g
  }

  /** `_del_rel`: deletes the Rel of type `t` between `self` and `node` in each admitted
      direction, returns how many it deleted, and drops `node` from `self._types[t]` when
      no entry of that type was skipped. */
  function DelRel(g: Graph, self: NodeId, node: NodeId, t: string, dir: Option<Dir>): (res: (Graph, nat))
    requires Consistent(g) && self < g.nextNode
    ensures Consistent(res.0)
    ensures res.0.rels == g.rels && res.0.attrs == g.attrs && res.0.nextNode == g.nextNode && res.0.nextRel == g.nextRel
    ensures Registered(res.0) == Registered(g) - Selected(g, self, Among({node}), Some(t), dir)
    ensures res.1 == |Selected(g, self, Among({node}), Some(t), dir)|
    ensures Selected(res.0, self, Among({node}), Some(t), dir) == {}
    ensures node != self && t !in Out(res.0, self, node) && t !in In(res.0, self, node) ==> node !in Types(res.0, self, t)
    ensures forall a, u :: Types(res.0, a, u) <= Types(g, a, u)
  {
    var b := DelBoth(g, self, node, t, dir);
    var g3 := DropType(b.0, self, node, t, b.2);
    SelectedShrinks(g, g3, self, Among({node}), Some(t), dir);
    NoneLeft(Selected(g, self, Among({node}), Some(t), dir), Registered(g), Registered(g3), Selected(g3, self, Among({node}), Some(t), dir));
    (g3, b.1)
  }

  /** The outgoing then the incoming step of `_del_rel`: how many Rels they deleted and
      how many entries they skipped. */
  function DelBoth(g: Graph, self: NodeId, node: NodeId, t: string, dir: Option<Dir>): (res: (Graph, nat, nat))
    requires Consistent(g)
    ensures Consistent(res.0)
    ensures res.0.rels == g.rels && res.0.attrs == g.attrs && res.0.nextNode == g.nextNode && res.0.nextRel == g.nextRel
    ensures Registered(res.0) == Registered(g) - Selected(g, self, Among({node}), Some(t), dir)
    ensures res.1 == |Selected(g, self, Among({node}), Some(t), dir)|
    ensures node != self && t !in Out(res.0, self, node) && t !in In(res.0, self, node) ==> res.2 == 0
    ensures forall a, u :: Types(res.0, a, u) <= Types(g, a, u)
  {
    var o := DelOut(g, self, node, t, dir);
    var i := DelIn(o.0, self, node, t, dir);
    DelRelCounts(g, o.0, i.0, self, node, t, dir);
    DelRelLeftovers(g, o, i, self, node, t, dir);
    (i.0, o.1 + i.1, o.2 + i.2)
  }

  lemma DelRelCounts(g: Graph, g1: Graph, g2: Graph, self: NodeId, node: NodeId, t: string, dir: Option<Dir>)
    requires Consistent(g) && Consistent(g1) && g1.rels == g.rels
    requires Registered(g1) == Registered(g) - OutAt(g, self, node, t, dir)
    requires Registered(g2) == Registered(g1) - InAt(g1, self, node, t, dir)
    ensures Registered(g2) == Registered(g) - Selected(g, self, Among({node}), Some(t), dir)
    ensures |Selected(g, self, Among({node}), Some(t), dir)| == |OutAt(g, self, node, t, dir)| + |InAt(g1, self, node, t, dir)|
  {
    InAtAfterOut(g, g1, self, node, t, dir);
    NodeAndTypeSpec(g, self, node, t, dir);
    DeleteInTwoSteps(Registered(g), OutAt(g, self, node, t, dir), InAt(g, self, node, t, dir), InAt(g1, self, node, t, dir),
                     Registered(g1), Registered(g2));
  }

  /** Deleting O and then what is left of I deletes O + I, counting each Rel once. */
  lemma DeleteInTwoSteps(rg: set<RelId>, o: set<RelId>, i: set<RelId>, i1: set<RelId>, r1: set<RelId>, r2: set<RelId>)
    requires i1 == i - o && r1 == rg - o && r2 == r1 - i1
    ensures r2 == rg - (o + i)
    ensures |o + i| == |o| + |i1|
  {
    assert o + i1 == o + i;
    assert o * i1 == {};
  }

  /** Away from self-loops, an entry survives `_del_rel` exactly when it was skipped. */
  lemma DelRelLeftovers(g: Graph, o: (Graph, nat, nat), i: (Graph, nat, nat), self: NodeId, node: NodeId, t: string, dir: Option<Dir>)
    requires Consistent(g) && o == DelOut(g, self, node, t, dir) && i == DelIn(o.0, self, node, t, dir)
    ensures node != self && t !in Out(i.0, self, node) && t !in In(i.0, self, node) ==> o.2 + i.2 == 0
  {
  }

  lemma NoneLeft(sel: set<RelId>, rg: set<RelId>, rh: set<RelId>, sel': set<RelId>)
    requires rh == rg - sel && sel' == sel * rh
    ensures sel' == {}
  {
  }

  /** Selection over a state with fewer registrations (same Rels) is the old selection
      restricted to what is still registered. */
  lemma SelectedShrinks(g: Graph, g': Graph, self: NodeId, nb: Nbrs, t: Option<string>, dir: Option<Dir>)
    requires g'.rels == g.rels && Registered(g') <= Registered(g)
    ensures Selected(g', self, nb, t, dir) == Selected(g, self, nb, t, dir) * Registered(g')
  {
    forall r | r in Selected(g', self, nb, t, dir)
      ensures r in Registered(g)
    {
      assert r in Registered(g');
    }
  }
  /** Deleting, from what is left of the registrations after deleting X, the part of Y
      still there, deletes X + Y, and the two counts add up. */
  lemma Accumulate(rg: set<RelId>, x: set<RelId>, y: set<RelId>, rh: set<RelId>, yh: set<RelId>)
    requires x <= rg && y <= rg && rh == rg - x && yh == y * rh
    ensures rh - yh == rg - (x + y)
    ensures |x| + |yh| == |x + y|
  {
    assert x + yh == x + y;
    assert x * yh == {};
  }

  /** The Rels a selection picks whose type is in `ts`. */
  function OfTypes(g: Graph, self: NodeId, nb: Nbrs, ts: set<string>, dir: Option<Dir>): set<RelId> {
    set r | r in g.rels && r in Selected(g, self, nb, None, dir) && g.rels[r].rtype in ts
  }

  /** The type keys of one neighbor's index in direction `d` cover every Rel selected
      between self and that neighbor in that direction. */
  lemma TypeKeysCover(g: Graph, self: NodeId, node: NodeId, d: Dir)
    requires Consistent(g)
    ensures Selected(g, self, Among({node}), None, Some(d))
         == OfTypes(g, self, Among({node}), if d == Outgoing then Out(g, self, node).Keys else In(g, self, node).Keys, Some(d))
  {
    var keys := if d == Outgoing then Out(g, self, node).Keys else In(g, self, node).Keys;
    forall r | r in Selected(g, self, Among({node}), None, Some(d))
      ensures r in OfTypes(g, self, Among({node}), keys, Some(d))
    {
      TypeKeyCovers(g, self, node, d, r);
    }
  }

  lemma TypeKeyCovers(g: Graph, self: NodeId, node: NodeId, d: Dir, r: RelId)
    requires Consistent(g) && r in Selected(g, self, Among({node}), None, Some(d))
    ensures g.rels[r].rtype in (if d == Outgoing then Out(g, self, node).Keys else In(g, self, node).Keys)
  {
    var x := g.rels[r];
    assert OutEntryOk(g, x.start, x.end, x.rtype);
  }

  /** `g'` comes from `g` by deletions only: same Rels, attributes and counters, and no
      `_types` entry grew. */
  ghost predicate Shrinks(g: Graph, g': Graph) {
    && g'.rels == g.rels && g'.attrs == g.attrs && g'.nextNode == g.nextNode && g'.nextRel == g.nextRel
    && forall a, u, m :: m in Types(g', a, u) ==> m in Types(g, a, u)
  }

  /** One pass of the type loop: `_del_rel(node, t, d)` after the types in `done`. */
  function DelTypeStep(g: Graph, h: Graph, count: nat, self: NodeId, node: NodeId, done: set<string>, t: string, d: Dir): (res: (Graph, nat))
    requires Consistent(h) && Shrinks(g, h) && self < g.nextNode
    requires Registered(h) == Registered(g) - OfTypes(g, self, Among({node}), done, Some(d))
    requires count == |OfTypes(g, self, Among({node}), done, Some(d))|
    ensures Consistent(res.0) && Shrinks(g, res.0)
    ensures Registered(res.0) == Registered(g) - OfTypes(g, self, Among({node}), done + {t}, Some(d))
    ensures res.1 == |OfTypes(g, self, Among({node}), done + {t}, Some(d))|
  {
    var res := DelRel(h, self, node, t, Some(d));
    TypeStep(g, h, res.0, self, node, done, t, Some(d));
    (res.0, count + res.1)
  }

  /** `for type in keys: count += self._del_rel(node, type, direction=d)`. */
  method DelTypes(g: Graph, self: NodeId, node: NodeId, keys: set<string>, d: Dir) returns (g': Graph, count: nat)
    requires Consistent(g) && self < g.nextNode
    ensures Consistent(g') && Shrinks(g, g')
    ensures Registered(g') == Registered(g) - OfTypes(g, self, Among({node}), keys, Some(d))
    ensures count == |OfTypes(g, self, Among({node}), keys, Some(d))|
  {
    var todo := keys;
    g', count := g, 0;
    assert keys - todo == {};
    OfTypesNone(g, self, Among({node}), Some(d));
    while todo != {}
      invariant todo <= keys
      invariant Consistent(g') && Shrinks(g, g')
      invariant Registered(g') == Registered(g) - OfTypes(g, self, Among({node}), keys - todo, Some(d))
      invariant count == |OfTypes(g, self, Among({node}), keys - todo, Some(d))|
      decreases |todo|
    {
      var t :| t in todo;
      var res := DelTypeStep(g, g', count, self, node, keys - todo, t, d);
      g', count := res.0, res.1;
      assert keys - (todo - {t}) == (keys - todo) + {t};
      todo := todo - {t};
    }
    assert keys - todo == keys;
  }

  /** `list(self._outgoing[node])` / `list(self._incoming[node])` followed by `_del_rel`
      per type in direction `d`: the loops inside `_del_rels_for_node` and `_del_rels`. */
  method DelTypesAt(g: Graph, self: NodeId, node: NodeId, d: Dir) returns (g': Graph, count: nat)
    requires Consistent(g) && self < g.nextNode
    ensures Consistent(g') && Shrinks(g, g')
    ensures Registered(g') == Registered(g) - Selected(g, self, Among({node}), None, Some(d))
    ensures count == |Selected(g, self, Among({node}), None, Some(d))|
  {
    TypeKeysCover(g, self, node, d);
    g', count := DelTypes(g, self, node, if d == Outgoing then Out(g, self, node).Keys else In(g, self, node).Keys, d);
  }

  /** One `_del_rel` of the type loop extends the deleted set by that type. */
  lemma TypeStep(g: Graph, h: Graph, h': Graph, self: NodeId, node: NodeId, done: set<string>, t: string, dir: Option<Dir>)
    requires h.rels == g.rels && h'.rels == g.rels
    requires Registered(h) == Registered(g) - OfTypes(g, self, Among({node}), done, dir)
    requires Registered(h') == Registered(h) - Selected(h, self, Among({node}), Some(t), dir)
    ensures Registered(h') == Registered(g) - OfTypes(g, self, Among({node}), done + {t}, dir)
    ensures |OfTypes(g, self, Among({node}), done, dir)| + |Selected(h, self, Among({node}), Some(t), dir)|
         == |OfTypes(g, self, Among({node}), done + {t}, dir)|
  {
    var x := OfTypes(g, self, Among({node}), done, dir);
    var y := Selected(g, self, Among({node}), Some(t), dir);
    SelectedShrinks(g, h, self, Among({node}), Some(t), dir);
    Accumulate(Registered(g), x, y, Registered(h), Selected(h, self, Among({node}), Some(t), dir));
    OfTypesAdd(g, self, Among({node}), done, t, dir);
  }

  lemma OfTypesNone(g: Graph, self: NodeId, nb: Nbrs, dir: Option<Dir>)
    ensures OfTypes(g, self, nb, {}, dir) == {}
  {
  }

  lemma OfTypesAdd(g: Graph, self: NodeId, nb: Nbrs, done: set<string>, t: string, dir: Option<Dir>)
    ensures OfTypes(g, self, nb, done + {t}, dir) == OfTypes(g, self, nb, done, dir) + Selected(g, self, nb, Some(t), dir)
  {
  }
  /** Selecting among A + B is selecting among A plus selecting among B. */
  lemma AmongUnion(g: Graph, self: NodeId, a: set<NodeId>, b: set<NodeId>, t: Option<string>, dir: Option<Dir>)
    ensures Selected(g, self, Among(a + b), t, dir) == Selected(g, self, Among(a), t, dir) + Selected(g, self, Among(b), t, dir)
  {
  }

  /** Selecting among no neighbor selects nothing. */
  lemma AmongNone(g: Graph, self: NodeId, t: Option<string>, dir: Option<Dir>)
    ensures Selected(g, self, Among({}), t, dir) == {}
  {
  }

  /** Selecting in either direction is selecting outgoing plus selecting incoming. */
  lemma DirUnion(g: Graph, self: NodeId, nb: Nbrs, t: Option<string>, dir: Option<Dir>)
    ensures Selected(g, self, nb, t, dir)
         == (if Allows(dir, Outgoing) then Selected(g, self, nb, t, Some(Outgoing)) else {})
          + (if Allows(dir, Incoming) then Selected(g, self, nb, t, Some(Incoming)) else {})
  {
  }

  /** One `_del_rel` (or one neighbor's type loop) of a neighbor loop extends the deleted
      set by that neighbor. */
  lemma NodeStep(g: Graph, h: Graph, h': Graph, self: NodeId, done: set<NodeId>, m: NodeId, t: Option<string>, dir: Option<Dir>)
    requires h.rels == g.rels && h'.rels == g.rels
    requires Registered(h) == Registered(g) - Selected(g, self, Among(done), t, dir)
    requires Registered(h') == Registered(h) - Selected(h, self, Among({m}), t, dir)
    ensures Registered(h') == Registered(g) - Selected(g, self, Among(done + {m}), t, dir)
    ensures |Selected(g, self, Among(done), t, dir)| + |Selected(h, self, Among({m}), t, dir)|
         == |Selected(g, self, Among(done + {m}), t, dir)|
  {
    SelectedShrinks(g, h, self, Among({m}), t, dir);
    Accumulate(Registered(g), Selected(g, self, Among(done), t, dir), Selected(g, self, Among({m}), t, dir),
               Registered(h), Selected(h, self, Among({m}), t, dir));
    AmongUnion(g, self, done, {m}, t, dir);
  }

  /** One pass of the neighbor loop of `_del_rels_for_type`. */
  function DelTypeAtStep(g: Graph, h: Graph, count: nat, self: NodeId, done: set<NodeId>, m: NodeId, t: string, dir: Option<Dir>): (res: (Graph, nat))
    requires Consistent(h) && Shrinks(g, h) && self < g.nextNode
    requires Registered(h) == Registered(g) - Selected(g, self, Among(done), Some(t), dir)
    requires count == |Selected(g, self, Among(done), Some(t), dir)|
    ensures Consistent(res.0) && Shrinks(g, res.0)
    ensures Registered(res.0) == Registered(g) - Selected(g, self, Among(done + {m}), Some(t), dir)
    ensures res.1 == |Selected(g, self, Among(done + {m}), Some(t), dir)|
  {
    var res := DelRel(h, self, m, t, dir);
    NodeStep(g, h, res.0, self, done, m, Some(t), dir);
    (res.0, count + res.1)
  }

  /** `_del_rels_for_type`: `_del_rel(node, t, dir)` for each node of a snapshot of
      `self._types[t]`. */
  method DelRelsForType(g: Graph, self: NodeId, t: string, dir: Option<Dir>) returns (g': Graph, count: nat)
    requires Consistent(g) && self < g.nextNode
    ensures Consistent(g') && Shrinks(g, g')
    ensures Registered(g') == Registered(g) - Selected(g, self, Among(Types(g, self, t)), Some(t), dir)
    ensures count == |Selected(g, self, Among(Types(g, self, t)), Some(t), dir)|
  {
    g', count := DelTypeAmong(g, self, Types(g, self, t), t, dir);
  }

  /** The loop of `_del_rels_for_type` over a snapshot `nodes` of the neighbors. */
  method DelTypeAmong(g: Graph, self: NodeId, nodes: set<NodeId>, t: string, dir: Option<Dir>) returns (g': Graph, count: nat)
    requires Consistent(g) && self < g.nextNode
    ensures Consistent(g') && Shrinks(g, g')
    ensures Registered(g') == Registered(g) - Selected(g, self, Among(nodes), Some(t), dir)
    ensures count == |Selected(g, self, Among(nodes), Some(t), dir)|
  {
    var todo := nodes;
    g', count := g, 0;
    assert nodes - todo == {};
    AmongNone(g, self, Some(t), dir);
    while todo != {}
      invariant todo <= nodes
      invariant Consistent(g') && Shrinks(g, g')
      invariant Registered(g') == Registered(g) - Selected(g, self, Among(nodes - todo), Some(t), dir)
      invariant count == |Selected(g, self, Among(nodes - todo), Some(t), dir)|
      decreases |todo|
    {
      var m :| m in todo;
      var res := DelTypeAtStep(g, g', count, self, nodes - todo, m, t, dir);
      g', count := res.0, res.1;
      assert nodes - (todo - {m}) == (nodes - todo) + {m};
      todo := todo - {m};
    }
    assert nodes - todo == nodes;
  }

  /** The neighbor keys of the index in direction `d` cover every Rel selected in that
      direction. */
  lemma NeighborKeysCover(g: Graph, self: NodeId, d: Dir)
    requires Consistent(g)
    ensures Selected(g, self, AnyNode, None, Some(d))
         == Selected(g, self, Among(if d == Outgoing then AdjOf(g, self).outgoing.Keys else AdjOf(g, self).incoming.Keys), None, Some(d))
  {
    forall r | r in Selected(g, self, AnyNode, None, Some(d))
      ensures r in Selected(g, self, Among(if d == Outgoing then AdjOf(g, self).outgoing.Keys else AdjOf(g, self).incoming.Keys), None, Some(d))
    {
      var x := g.rels[r];
      assert OutEntryOk(g, x.start, x.end, x.rtype);
      if d == Outgoing {
        assert x.rtype in Out(g, self, x.end);
      } else {
        assert x.rtype in In(g, self, x.start);
      }
    }
  }

  /** `for node in list(self._outgoing)` (or `_incoming`) running the type loop of each
      neighbor in direction `d`: one half of `_del_rels`. */
  method DelNeighbors(g: Graph, self: NodeId, nodes: set<NodeId>, d: Dir) returns (g': Graph, count: nat)
    requires Consistent(g) && self < g.nextNode
    ensures Consistent(g') && Shrinks(g, g')
    ensures Registered(g') == Registered(g) - Selected(g, self, Among(nodes), None, Some(d))
    ensures count == |Selected(g, self, Among(nodes), None, Some(d))|
  {
    var todo := nodes;
    g', count := g, 0;
    assert nodes - todo == {};
    AmongNone(g, self, None, Some(d));
    while todo != {}
      invariant todo <= nodes
      invariant Consistent(g') && Shrinks(g, g')
      invariant Registered(g') == Registered(g) - Selected(g, self, Among(nodes - todo), None, Some(d))
      invariant count == |Selected(g, self, Among(nodes - todo), None, Some(d))|
      decreases |todo|
    {
      var m :| m in todo;
      var h, c := DelTypesAt(g', self, m, d);
      NodeStep(g, g', h, self, nodes - todo, m, None, Some(d));
      g', count := h, count + c;
      assert nodes - (todo - {m}) == (nodes - todo) + {m};
      todo := todo - {m};
    }
    assert nodes - todo == nodes;
  }
  /** Deleting the outgoing part of a selection and then what is left of its incoming
      part deletes the whole selection. */
  lemma DirSteps(g: Graph, g1: Graph, g2: Graph, self: NodeId, nb: Nbrs, t: Option<string>, dir: Option<Dir>)
    requires g1.rels == g.rels && Registered(g1) <= Registered(g)
    requires Registered(g1) == Registered(g) - (if Allows(dir, Outgoing) then Selected(g, self, nb, t, Some(Outgoing)) else {})
    requires Registered(g2) == Registered(g1) - (if Allows(dir, Incoming) then Selected(g1, self, nb, t, Some(Incoming)) else {})
    ensures Registered(g2) == Registered(g) - Selected(g, self, nb, t, dir)
    ensures |if Allows(dir, Outgoing) then Selected(g, self, nb, t, Some(Outgoing)) else {}|
          + |if Allows(dir, Incoming) then Selected(g1, self, nb, t, Some(Incoming)) else {}|
         == |Selected(g, self, nb, t, dir)|
  {
    SelectedShrinks(g, g1, self, nb, t, Some(Incoming));
    DirUnion(g, self, nb, t, dir);
    Accumulate(Registered(g),
               if Allows(dir, Outgoing) then Selected(g, self, nb, t, Some(Outgoing)) else {},
               if Allows(dir, Incoming) then Selected(g, self, nb, t, Some(Incoming)) else {},
               Registered(g1),
               if Allows(dir, Incoming) then Selected(g1, self, nb, t, Some(Incoming)) else {});
  }

  /** `_del_rels_for_node`: the outgoing type loop, then the incoming one. */
  method DelRelsForNode(g: Graph, self: NodeId, node: NodeId, dir: Option<Dir>) returns (g': Graph, count: nat)
    requires Consistent(g) && self < g.nextNode
    ensures Consistent(g') && Shrinks(g, g')
    ensures Registered(g') == Registered(g) - Selected(g, self, Among({node}), None, dir)
    ensures count == |Selected(g, self, Among({node}), None, dir)|
  {
    var g1, c1 := g, 0;
    if Allows(dir, Outgoing) {
      g1, c1 := DelTypesAt(g, self, node, Outgoing);
    }
    var g2, c2 := g1, 0;
    if Allows(dir, Incoming) {
      g2, c2 := DelTypesAt(g1, self, node, Incoming);
    }
    DirSteps(g, g1, g2, self, Among({node}), None, dir);
    g', count := g2, c1 + c2;
  }

  /** One half of `_del_rels`: every neighbor listed in the index of direction `d`. */
  method DelRelsDir(g: Graph, self: NodeId, d: Dir) returns (g': Graph, count: nat)
    requires Consistent(g) && self < g.nextNode
    ensures Consistent(g') && Shrinks(g, g')
    ensures Registered(g') == Registered(g) - Selected(g, self, AnyNode, None, Some(d))
    ensures count == |Selected(g, self, AnyNode, None, Some(d))|
  {
    NeighborKeysCover(g, self, d);
    g', count := DelNeighbors(g, self, if d == Outgoing then AdjOf(g, self).outgoing.Keys else AdjOf(g, self).incoming.Keys, d);
  }

  /** `_del_rels`: every Rel of the node in the admitted directions. */
  method DelRels(g: Graph, self: NodeId, dir: Option<Dir>) returns (g': Graph, count: nat)
    requires Consistent(g) && self < g.nextNode
    ensures Consistent(g') && Shrinks(g, g')
    ensures Registered(g') == Registered(g) - Selected(g, self, AnyNode, None, dir)
    ensures count == |Selected(g, self, AnyNode, None, dir)|
  {
    var g1, c1 := g, 0;
    if Allows(dir, Outgoing) {
      g1, c1 := DelRelsDir(g, self, Outgoing);
    }
    var g2, c2 := g1, 0;
    if Allows(dir, Incoming) {
      g2, c2 := DelRelsDir(g1, self, Incoming);
    }
    DirSteps(g, g1, g2, self, AnyNode, None, dir);
    g', count := g2, c1 + c2;
  }

  // ---------------------------------------------------------------------------
  // `rels` and `unrelate`

  /** What `rels(node, type, ...)` returns and `unrelate(node, type, ...)` deletes, stated
      over registrations: by neighbor when a node is given (and by type too when one is
      given), else by type among the neighbors `_types` lists, else everything. */
  function Query(g: Graph, self: NodeId, node: Option<NodeId>, t: Option<string>, dir: Option<Dir>): set<RelId> {
    if node.Some? then Selected(g, self, Among({node.value}), TypeFilter(t), dir)
    else if TypeGiven(t) then Selected(g, self, Among(Types(g, self, t.value)), t, dir)
    else Selected(g, self, AnyNode, None, dir)
  }

  /** `rels`: dispatches to the index walks. */
  function Rels(g: Graph, self: NodeId, node: Option<NodeId>, t: Option<string>, args: DirArgs): (r: Result<set<RelId>>)
    requires Consistent(g)
    ensures r.Failure? <==> ParseDirection(args).Failure?
    ensures r.Failure? ==> r.error == AssertionError
    ensures r.Success? ==> r.value == Query(g, self, node, t, ParseDirection(args).value)
  {
    var dir :- ParseDirection(args);
    if node.Some? && TypeGiven(t) then
      NodeAndTypeSpec(g, self, node.value, t.value, dir);
      Success(RelsForNodeAndType(g, self, node.value, t.value, dir))
    else if node.Some? then
      NodeSpec(g, self, node.value, dir);
      Success(RelsForNode(g, self, node.value, dir))
    else if TypeGiven(t) then
      TypeSpec(g, self, t.value, dir);
      Success(RelsForType(g, self, t.value, dir))
    else
      AllSpec(g, self, dir);
      Success(AllRels(g, self, dir))
  }

  /** A selection among fewer neighbors selects no more. */
  lemma AmongMonotone(g: Graph, self: NodeId, a: set<NodeId>, b: set<NodeId>, t: Option<string>, dir: Option<Dir>)
    requires a <= b
    ensures Selected(g, self, Among(a), t, dir) <= Selected(g, self, Among(b), t, dir)
  {
  }

  /** Once a query's Rels are deleted, asking the same query again finds none. */
  lemma QueryEmptied(g: Graph, g': Graph, self: NodeId, node: Option<NodeId>, t: Option<string>, dir: Option<Dir>)
    requires Shrinks(g, g')
    requires Registered(g') == Registered(g) - Query(g, self, node, t, dir)
    ensures Query(g', self, node, t, dir) == {}
  {
    if node.None? && TypeGiven(t) {
      AmongMonotone(g', self, Types(g', self, t.value), Types(g, self, t.value), t, dir);
      SelectedShrinks(g, g', self, Among(Types(g, self, t.value)), t, dir);
    } else if node.Some? {
      SelectedShrinks(g, g', self, Among({node.value}), TypeFilter(t), dir);
    } else {
      SelectedShrinks(g, g', self, AnyNode, None, dir);
    }
  }

  /** `unrelate`: deletes what `rels` with the same arguments would return, and returns how
      many Rels it deleted. */
  method Unrelate(g: Graph, self: NodeId, node: Option<NodeId>, t: Option<string>, args: DirArgs) returns (r: Result<(Graph, nat)>)
    requires Consistent(g) && self < g.nextNode
    ensures r.Failure? <==> ParseDirection(args).Failure?
    ensures r.Failure? ==> r.error == AssertionError
    ensures r.Success? ==> Consistent(r.value.0) && Shrinks(g, r.value.0)
    ensures r.Success? ==> Registered(r.value.0) == Registered(g) - Query(g, self, node, t, ParseDirection(args).value)
    ensures r.Success? ==> r.value.1 == |Query(g, self, node, t, ParseDirection(args).value)|
    ensures r.Success? ==> Query(r.value.0, self, node, t, ParseDirection(args).value) == {}
  {
    var dir :- ParseDirection(args);
    var g', count;
    if node.Some? && TypeGiven(t) {
      var res := DelRel(g, self, node.value, t.value, dir);
      g', count := res.0, res.1;
    } else if node.Some? {
      g', count := DelRelsForNode(g, self, node.value, dir);
    } else if TypeGiven(t) {
      g', count := DelRelsForType(g, self, t.value, dir);
    } else {
      g', count := DelRels(g, self, dir);
    }
    QueryEmptied(g, g', self, node, t, dir);
    r := Success((g', count));
  }
  // ---------------------------------------------------------------------------
  // `relate`

  /** An argument `relate` checks with `isinstance`: of the expected class or not. */
  datatype Arg<T> = Given(value: T) | WrongType

  /** Storing a Rel object under a fresh identity changes no index. */
  lemma FreshRelKeepsConsistent(g: Graph, x: Rel)
    requires Consistent(g) && x.start < g.nextNode && x.end < g.nextNode
    ensures Consistent(g.(rels := g.rels[g.nextRel := x], nextRel := g.nextRel + 1))
    ensures Registered(g.(rels := g.rels[g.nextRel := x], nextRel := g.nextRel + 1)) == Registered(g)
  {
    var g' := g.(rels := g.rels[g.nextRel := x], nextRel := g.nextRel + 1);
    EntriesRegistered(g);
    assert g'.index == g.index;
    assert forall n, t :: Types(g', n, t) == Types(g, n, t);
    assert forall n, m :: Out(g', n, m) == Out(g, n, m) && In(g', n, m) == In(g, n, m);
    assert Allocated(g');
    assert TypesSound(g');
    forall n, m, t | t in Out(g', n, m)
      ensures OutEntryOk(g', n, m, t)
    {
      assert OutEntryOk(g, n, m, t);
    }
    forall n, m, t | t in In(g', n, m)
      ensures InEntryOk(g', n, m, t)
    {
      assert InEntryOk(g, n, m, t);
    }
    assert g.nextRel !in g.rels;
    assert forall q :: q in g'.rels ==> (IsRegistered(g', q) <==> IsRegistered(g, q));
  }

  /** Changing a Rel's properties changes no index. */
  lemma RelPropsKeepConsistent(g: Graph, id: RelId, p: PropMap)
    requires Consistent(g) && id in g.rels
    ensures Consistent(g.(rels := g.rels[id := g.rels[id].(props := p)]))
    ensures Registered(g.(rels := g.rels[id := g.rels[id].(props := p)])) == Registered(g)
  {
    var g' := g.(rels := g.rels[id := g.rels[id].(props := p)]);
    assert g'.index == g.index;
    assert forall n, t :: Types(g', n, t) == Types(g, n, t);
    assert forall n, m :: Out(g', n, m) == Out(g, n, m) && In(g', n, m) == In(g, n, m);
    assert Allocated(g');
    assert TypesSound(g');
    forall n, m, t | t in Out(g', n, m)
      ensures OutEntryOk(g', n, m, t)
    {
      assert OutEntryOk(g, n, m, t);
    }
    forall n, m, t | t in In(g', n, m)
      ensures InEntryOk(g', n, m, t)
    {
      assert InEntryOk(g, n, m, t);
    }
    assert forall q :: IsRegistered(g', q) <==> IsRegistered(g, q);
  }

  /** The start and end `relate` gives the Rel: self -> node for OUTGOING (1), node -> self
      for INCOMING (-1). */
  function Ends(self: NodeId, node: NodeId, dir: int): (NodeId, NodeId) {
    if dir == 1 then (self, node) else (node, self)
  }

  /** `relate(node, type, props, direction, match_props=, update_props=)` for a single node:
      checks its arguments, then either merges `props` into the existing Rel of that type
      and direction or creates and registers a new one. */
  function Relate(g: Graph, self: NodeId, node: Arg<NodeId>, t: Arg<string>, props: PropMap, dir: int,
                  matchProps: Value, updateProps: Value): (r: Result<(Graph, RelId)>)
    requires Consistent(g) && self < g.nextNode
    requires node.Given? ==> node.value < g.nextNode
    ensures r.Failure? <==> node.WrongType? || t.WrongType? || dir !in {1, -1}
    ensures r.Failure? ==> r.error == AssertionError
    ensures r.Success? ==> Relates(g, Ends(self, node.value, dir), t.value, props, matchProps, updateProps, r.value)
    ensures r.Success? && TypesComplete(g) ==> TypesComplete(r.value.0)
  {
    if node.WrongType? || t.WrongType? || !(dir == 1 || dir == -1) then Failure(AssertionError)
    else Success(RelateChecked(g, self, node.value, t.value, props, dir, matchProps, updateProps))
  }

  /** What a successful `relate` between the endpoints `ends` does: afterwards exactly one
      more Rel is registered, the returned one, running `ends` with type `t`; it is the Rel
      already there with `props` merged in, or else a new one allocated with `props` and
      the truthy match/update properties. Nothing else changes. */
  ghost predicate Relates(g: Graph, ends: (NodeId, NodeId), t: string, props: PropMap, matchProps: Value, updateProps: Value,
                          res: (Graph, RelId)) {
    var (s, e) := ends;
    var (g', id) := res;
    && Consistent(g') && g'.attrs == g.attrs && g'.nextNode == g.nextNode
    && Registered(g') == Registered(g) + {id}
    && id in g'.rels && g'.rels[id].start == s && g'.rels[id].end == e && g'.rels[id].rtype == t
    && (t in Out(g, s, e) ==>
          && id == Out(g, s, e)[t] && id in g.rels
          && g'.rels == g.rels[id := g.rels[id].(props := Props.Update(g.rels[id].props, props))]
          && g'.nextRel == g.nextRel && g'.index == g.index)
    && (t !in Out(g, s, e) ==>
          && id == g.nextRel && g'.nextRel == g.nextRel + 1
          && g'.rels == g.rels[g.nextRel := Rel(s, e, t, props, Props.Override(matchProps), Props.Override(updateProps))])
  }

  /** `relate` once its `assert`s have passed. */
  function RelateChecked(g: Graph, self: NodeId, n: NodeId, t: string, props: PropMap, dir: int,
                         matchProps: Value, updateProps: Value): (r: (Graph, RelId))
    requires Consistent(g) && self < g.nextNode && n < g.nextNode && dir in {1, -1}
    ensures Relates(g, Ends(self, n, dir), t, props, matchProps, updateProps, r)
    ensures TypesComplete(g) ==> TypesComplete(r.0)
  {
    var (s, e) := Ends(self, n, dir);
    var existing :=
      if dir == 1 then (if t in Out(g, self, n) then Some(Out(g, self, n)[t]) else None)
      else (if t in In(g, self, n) then Some(In(g, self, n)[t]) else None);
    assert dir == 1 && t in Out(g, self, n) ==> OutEntryOk(g, self, n, t);
    assert dir != 1 && t in In(g, self, n) ==> InEntryOk(g, self, n, t);
    assert dir != 1 && t in Out(g, n, self) ==> OutEntryOk(g, n, self, t);
    if existing.Some? then
      MergeProps(g, s, e, t, props)
    else
      NewRel(g, Rel(s, e, t, props, Props.Override(matchProps), Props.Override(updateProps)))
  }

  /** The existing-Rel branch of `relate`: `if props: rel.update(props)`. */
  function MergeProps(g: Graph, s: NodeId, e: NodeId, t: string, props: PropMap): (r: (Graph, RelId))
    requires Consistent(g) && t in Out(g, s, e)
    ensures Consistent(r.0) && r.0.attrs == g.attrs && r.0.nextNode == g.nextNode && r.0.nextRel == g.nextRel
    ensures r.0.index == g.index && Registered(r.0) == Registered(g)
    ensures r.1 == Out(g, s, e)[t] && r.1 in g.rels && r.1 in Registered(g)
    ensures TypesComplete(g) ==> TypesComplete(r.0)
    ensures r.0.rels == g.rels[r.1 := g.rels[r.1].(props := Props.Update(g.rels[r.1].props, props))]
  {
    var id := Out(g, s, e)[t];
    assert OutEntryOk(g, s, e, t);
    var p := if props != map[] then Props.Update(g.rels[id].props, props) else g.rels[id].props;
    assert p == Props.Update(g.rels[id].props, props);
    RelPropsKeepConsistent(g, id, p);
    SameIndex(g, g.(rels := g.rels[id := g.rels[id].(props := p)]));
    (g.(rels := g.rels[id := g.rels[id].(props := p)]), id)
  }

  /** The new-Rel branch of `relate`: construct the Rel and `_add_rel` it. */
  function NewRel(g: Graph, x: Rel): (r: (Graph, RelId))
    requires Consistent(g) && x.start < g.nextNode && x.end < g.nextNode
    requires x.rtype !in Out(g, x.start, x.end)
    ensures Consistent(r.0) && r.0.attrs == g.attrs && r.0.nextNode == g.nextNode
    ensures r.1 == g.nextRel && r.0.nextRel == g.nextRel + 1 && r.0.rels == g.rels[g.nextRel := x]
    ensures Registered(r.0) == Registered(g) + {r.1}
    ensures TypesComplete(g) ==> TypesComplete(r.0)
  {
    var g1 := g.(rels := g.rels[g.nextRel := x], nextRel := g.nextRel + 1);
    NewRelFacts(g, x, g1);
    (AddRel(g1, g.nextRel), g.nextRel)
  }

  lemma NewRelFacts(g: Graph, x: Rel, g1: Graph)
    requires Consistent(g) && x.start < g.nextNode && x.end < g.nextNode
    requires x.rtype !in Out(g, x.start, x.end)
    requires g1 == g.(rels := g.rels[g.nextRel := x], nextRel := g.nextRel + 1)
    ensures g.nextRel in g1.rels
    ensures Consistent(AddRel(g1, g.nextRel))
    ensures Registered(AddRel(g1, g.nextRel)) == Registered(g) + {g.nextRel}
    ensures TypesComplete(g) ==> TypesComplete(AddRel(g1, g.nextRel))
  {
    FreshRelKeepsConsistent(g, x);
    assert g1.index == g.index;
    SameIndex(g, g1);
    AddRelKeepsTypesComplete(g1, g.nextRel);
    AddRelKeepsConsistent(g1, g.nextRel);
  }

  /** Two states with the same index agree on every index-derived invariant. */
  lemma SameIndex(g: Graph, g': Graph)
    requires g'.index == g.index
    ensures TypesComplete(g) <==> TypesComplete(g')
  {
    assert forall n, m :: Out(g', n, m) == Out(g, n, m) && In(g', n, m) == In(g, n, m);
    assert forall n, t :: Types(g', n, t) == Types(g, n, t);
  }

  /** Relating again along the same endpoints and type, with the same properties, finds the
      Rel just returned and changes nothing. */
  lemma RelateRepeat(g: Graph, ends: (NodeId, NodeId), t: string, props: PropMap, mp: Value, up: Value,
                     res: (Graph, RelId), res': (Graph, RelId))
    requires Relates(g, ends, t, props, mp, up, res)
    requires Relates(res.0, ends, t, props, mp, up, res')
    ensures res' == res
  {
    var (g', id) := res;
    RegisteredSlot(g', id);
    var p := g'.rels[id].props;
    assert p == Props.Update(p, props) by {
      if t in Out(g, ends.0, ends.1) {
        Props.UpdateIdempotent(g.rels[id].props, props);
      } else {
        assert p == props;
      }
    }
    SameProps(res.0, id, res'.0);
  }

  /** A registered Rel sits in its start node's outgoing index. */
  lemma RegisteredSlot(g: Graph, id: RelId)
    requires id in Registered(g)
    ensures id in g.rels && g.rels[id].rtype in Out(g, g.rels[id].start, g.rels[id].end)
    ensures Out(g, g.rels[id].start, g.rels[id].end)[g.rels[id].rtype] == id
  {
  }

  lemma SameProps(g: Graph, id: RelId, g': Graph)
    requires id in g.rels
    requires g'.rels == g.rels[id := g.rels[id].(props := g.rels[id].props)]
    requires g'.attrs == g.attrs && g'.index == g.index && g'.nextNode == g.nextNode && g'.nextRel == g.nextRel
    ensures g' == g
  {
    assert g'.rels == g.rels;
  }

  /** `a.relate(b, t)` twice returns the same Rel and leaves the graph as the first call left it. */
  lemma RelateIdempotent(g: Graph, self: NodeId, node: Arg<NodeId>, t: Arg<string>, props: PropMap, dir: int, mp: Value, up: Value)
    requires Consistent(g) && self < g.nextNode
    requires node.Given? && node.value < g.nextNode && t.Given? && dir in {1, -1}
    ensures Relate(g, self, node, t, props, dir, mp, up).Success?
    ensures Relate(Relate(g, self, node, t, props, dir, mp, up).value.0, self, node, t, props, dir, mp, up)
         == Relate(g, self, node, t, props, dir, mp, up)
  {
    var r := Relate(g, self, node, t, props, dir, mp, up).value;
    var r' := Relate(r.0, self, node, t, props, dir, mp, up).value;
    RelateRepeat(g, Ends(self, node.value, dir), t.value, props, mp, up, r, r');
  }

  /** `a.relate(b, t)` followed by `b.relate(a, t, direction=INCOMING)` finds the same Rel:
      both name the Rel a -> b. */
  lemma RelateMirror(g: Graph, a: NodeId, b: NodeId, t: string, props: PropMap, mp: Value, up: Value)
    requires Consistent(g) && a < g.nextNode && b < g.nextNode
    ensures Relate(g, a, Given(b), Given(t), props, 1, mp, up).Success?
    ensures Relate(Relate(g, a, Given(b), Given(t), props, 1, mp, up).value.0, b, Given(a), Given(t), props, -1, mp, up)
         == Relate(g, a, Given(b), Given(t), props, 1, mp, up)
  {
    var r := Relate(g, a, Given(b), Given(t), props, 1, mp, up).value;
    MirrorFinds(g, a, b, t, props, mp, up, r);
  }

  /** The INCOMING call from `b` after a Rel a -> b has been related. */
  lemma MirrorFinds(g: Graph, a: NodeId, b: NodeId, t: string, props: PropMap, mp: Value, up: Value, r: (Graph, RelId))
    requires Relates(g, (a, b), t, props, mp, up, r) && a < g.nextNode && b < g.nextNode
    ensures Relate(r.0, b, Given(a), Given(t), props, -1, mp, up) == Success(r)
  {
    var r' := Relate(r.0, b, Given(a), Given(t), props, -1, mp, up).value;
    assert Ends(b, a, -1) == (a, b);
    RelateRepeat(g, (a, b), t, props, mp, up, r, r');
  }
  // ---------------------------------------------------------------------------
  // `related`

  /** A dict is truthy exactly when it holds a value. */
  lemma NonEmptyValues(m: map<string, RelId>)
    ensures |m| > 0 <==> m.Values != {}
  {
    if |m| > 0 {
      assert m.Keys != {};
      var k :| k in m.Keys;
      assert m[k] in m.Values;
    }
    if m.Values != {} {
      var v :| v in m.Values;
      var k :| k in m && m[k] == v;
      assert m != map[];
    }
  }

  /** `related(node, type, **kwargs)`: whether the outgoing or incoming index (as admitted)
      holds anything for `node`, of type `type` when one is given. */
  function Related(g: Graph, self: NodeId, node: NodeId, t: Option<string>, args: DirArgs): (r: Result<bool>)
    requires Consistent(g)
    ensures r.Failure? <==> ParseDirection(args).Failure?
    ensures r.Failure? ==> r.error == AssertionError
    ensures r.Success? ==> (r.value <==> Selected(g, self, Among({node}), TypeFilter(t), ParseDirection(args).value) != {})
  {
    var dir :- ParseDirection(args);
    var outHit := Allows(dir, Outgoing) && |Out(g, self, node)| > 0 && (!TypeGiven(t) || t.value in Out(g, self, node));
    var inHit := Allows(dir, Incoming) && |In(g, self, node)| > 0 && (!TypeGiven(t) || t.value in In(g, self, node));
    NonEmptyValues(Out(g, self, node));
    NonEmptyValues(In(g, self, node));
    if TypeGiven(t) then
      NodeAndTypeSpec(g, self, node, t.value, dir);
      Success(outHit || inHit)
    else
      NodeSpec(g, self, node, dir);
      Success(outHit || inHit)
  }

  /** Related exactly when `rels` with the same arguments is non-empty. */
  lemma RelatedIffRels(g: Graph, self: NodeId, node: NodeId, t: Option<string>, args: DirArgs)
    requires Consistent(g) && ParseDirection(args).Success?
    ensures Related(g, self, node, t, args).Success? && Rels(g, self, Some(node), t, args).Success?
    ensures Related(g, self, node, t, args).value <==> Rels(g, self, Some(node), t, args).value != {}
  {
  }

  /** After `a.relate(b, t, direction=d)`, `a.related(b, t, direction=d)` and
      `b.related(a, t, direction=-d)` both hold. */
  lemma RelatedAfterRelate(g: Graph, self: NodeId, node: NodeId, t: string, props: PropMap, dir: int, mp: Value, up: Value)
    requires Consistent(g) && self < g.nextNode && node < g.nextNode && dir in {1, -1}
    ensures Relate(g, self, Given(node), Given(t), props, dir, mp, up).Success?
    ensures var g' := Relate(g, self, Given(node), Given(t), props, dir, mp, up).value.0;
            && Related(g', self, node, Some(t), DirArgs(Some(dir), false, false)) == Success(true)
            && Related(g', node, self, Some(t), DirArgs(Some(-dir), false, false)) == Success(true)
  {
    var r := Relate(g, self, Given(node), Given(t), props, dir, mp, up).value;
    RelatesSelects(g, self, node, t, props, dir, mp, up, r);
    RelatedBySelection(r.0, self, node, Some(t), DirArgs(Some(dir), false, false), r.1);
    RelatedBySelection(r.0, node, self, Some(t), DirArgs(Some(-dir), false, false), r.1);
  }

  /** The Rel `relate` returns is selected from both of its endpoints. */
  lemma RelatesSelects(g: Graph, self: NodeId, node: NodeId, t: string, props: PropMap, dir: int, mp: Value, up: Value, r: (Graph, RelId))
    requires dir in {1, -1} && Relates(g, Ends(self, node, dir), t, props, mp, up, r)
    ensures Consistent(r.0)
    ensures r.1 in Selected(r.0, self, Among({node}), TypeFilter(Some(t)), ParseDirection(DirArgs(Some(dir), false, false)).value)
    ensures r.1 in Selected(r.0, node, Among({self}), TypeFilter(Some(t)), ParseDirection(DirArgs(Some(-dir), false, false)).value)
  {
    assert r.1 in Registered(r.0);
  }

  lemma RelatedBySelection(g: Graph, self: NodeId, node: NodeId, t: Option<string>, args: DirArgs, id: RelId)
    requires Consistent(g) && ParseDirection(args).Success?
    requires id in Selected(g, self, Among({node}), TypeFilter(t), ParseDirection(args).value)
    ensures Related(g, self, node, t, args) == Success(true)
  {
  }
  // ---------------------------------------------------------------------------
  // `neighbors` and `degree`

  /** `neighbors`: the union of every `_types` entry. */
  function Neighbors(g: Graph, n: NodeId): set<NodeId> {
    var ts := AdjOf(g, n).types;
    set t, m | t in ts && m in ts[t] :: m
  }

  /** A node is a neighbor exactly when some `_types` entry lists it. */
  lemma NeighborsListed(g: Graph, n: NodeId)
    ensures forall m :: m in Neighbors(g, n) <==> exists t :: m in Types(g, n, t)
  {
    var ts := AdjOf(g, n).types;
    forall m | m in Neighbors(g, n)
      ensures exists t :: m in Types(g, n, t)
    {
      var t :| t in ts && m in ts[t];
      assert m in Types(g, n, t);
    }
  }

  /** The far end of `x` seen from `n` (`n` itself for a self-loop). */
  function OtherEnd(x: Rel, n: NodeId): NodeId {
    if x.start == n then x.end else x.start
  }

  /** The nodes at the far end of the registered Rels incident to `n`. */
  function Adjacent(g: Graph, n: NodeId): set<NodeId> {
    set r | r in g.rels && r in Selected(g, n, AnyNode, None, None) :: OtherEnd(g.rels[r], n)
  }

  /** Every neighbor `_types` lists is at the far end of a registered Rel, and under
      TypesComplete every such node is listed. */
  lemma NeighborsAreAdjacent(g: Graph, n: NodeId)
    requires Consistent(g)
    ensures Neighbors(g, n) <= Adjacent(g, n)
    ensures TypesComplete(g) ==> Neighbors(g, n) == Adjacent(g, n)
  {
    NeighborsListed(g, n);
    forall m | m in Neighbors(g, n)
      ensures m in Adjacent(g, n)
    {
      var t :| m in Types(g, n, t);
      ListedIsAdjacent(g, n, m, t);
    }
    if TypesComplete(g) {
      forall m | m in Adjacent(g, n)
        ensures m in Neighbors(g, n)
      {
        AdjacentIsListed(g, n, m);
      }
    }
  }

  /** A neighbor listed under type `t` is at the far end of the registered Rel of that type. */
  lemma ListedIsAdjacent(g: Graph, n: NodeId, m: NodeId, t: string)
    requires Consistent(g) && m in Types(g, n, t)
    ensures m in Adjacent(g, n)
  {
    if t in Out(g, n, m) {
      assert OutEntryOk(g, n, m, t);
      var r := Out(g, n, m)[t];
      assert r in Selected(g, n, AnyNode, None, None) && OtherEnd(g.rels[r], n) == m;
    } else {
      assert InEntryOk(g, n, m, t);
      var r := In(g, n, m)[t];
      assert OutEntryOk(g, m, n, t);
      assert r in Selected(g, n, AnyNode, None, None) && OtherEnd(g.rels[r], n) == m;
    }
  }

  /** Under TypesComplete the far end of every registered Rel is listed. */
  lemma AdjacentIsListed(g: Graph, n: NodeId, m: NodeId)
    requires Consistent(g) && TypesComplete(g) && m in Adjacent(g, n)
    ensures m in Neighbors(g, n)
  {
    var r :| r in g.rels && r in Selected(g, n, AnyNode, None, None) && OtherEnd(g.rels[r], n) == m;
    var x := g.rels[r];
    assert OutEntryOk(g, x.start, x.end, x.rtype);
    assert m in Types(g, n, x.rtype);
    assert m in AdjOf(g, n).types[x.rtype];
  }

  /** `degree`: the number of neighbors. */
  function Degree(g: Graph, n: NodeId): nat {
    |Neighbors(g, n)|
  }

  /** The degree never exceeds the number of distinct nodes at the far end of a registered
      Rel, and equals it under TypesComplete. */
  lemma DegreeCountsAdjacent(g: Graph, n: NodeId)
    requires Consistent(g)
    ensures Degree(g, n) <= |Adjacent(g, n)|
    ensures TypesComplete(g) ==> Degree(g, n) == |Adjacent(g, n)|
  {
    var a, b := Neighbors(g, n), Adjacent(g, n);
    NeighborsAreAdjacent(g, n);
    assert b == a + (b - a);
    assert a * (b - a) == {};
  }
  /** `relate` keeps every existing Rel's endpoints and type. */
  lemma RelatesKeepsEnds(g: Graph, ends: (NodeId, NodeId), t: string, props: PropMap, mp: Value, up: Value, res: (Graph, RelId))
    requires Consistent(g) && Relates(g, ends, t, props, mp, up, res)
    ensures forall q :: q in g.rels ==> q in res.0.rels && SameEnds(g.rels[q], res.0.rels[q])
  {
    assert g.nextRel !in g.rels;
  }

  predicate SameEnds(x: Rel, y: Rel) {
    x.start == y.start && x.end == y.end && x.rtype == y.rtype
  }

  /** Registering one more Rel between `a` and `b` adds `b` to `a`'s adjacent nodes and
      nothing else. */
  lemma AdjacentAfterRelate(g: Graph, g': Graph, id: RelId, a: NodeId, b: NodeId)
    requires Registered(g') == Registered(g) + {id}
    requires forall q :: q in g.rels ==> q in g'.rels && SameEnds(g.rels[q], g'.rels[q])
    requires id in g'.rels && ((g'.rels[id].start == a && g'.rels[id].end == b) || (g'.rels[id].start == b && g'.rels[id].end == a))
    ensures Adjacent(g', a) == Adjacent(g, a) + {b}
  {
    assert id in Selected(g', a, AnyNode, None, None);
    assert OtherEnd(g'.rels[id], a) == b;
    forall m | m in Adjacent(g', a)
      ensures m in Adjacent(g, a) + {b}
    {
      var r :| r in g'.rels && r in Selected(g', a, AnyNode, None, None) && OtherEnd(g'.rels[r], a) == m;
      if r != id {
        assert r in Registered(g');
        assert r in Registered(g);
        assert r in Selected(g, a, AnyNode, None, None);
      }
    }
    forall m | m in Adjacent(g, a)
      ensures m in Adjacent(g', a)
    {
      var r :| r in g.rels && r in Selected(g, a, AnyNode, None, None) && OtherEnd(g.rels[r], a) == m;
      assert r in Registered(g');
      assert r in Selected(g', a, AnyNode, None, None);
    }
  }

  /** A node related to `n` in either direction is adjacent to it. */
  lemma RelatedIsAdjacent(g: Graph, n: NodeId, m: NodeId)
    requires Selected(g, n, Among({m}), None, None) != {}
    ensures m in Adjacent(g, n) && n in Adjacent(g, m)
  {
    var q :| q in Selected(g, n, Among({m}), None, None);
    assert q in Selected(g, n, AnyNode, None, None) && OtherEnd(g.rels[q], n) == m;
    assert q in Selected(g, m, AnyNode, None, None) && OtherEnd(g.rels[q], m) == n;
  }

  /** Relating two already related nodes by another type leaves both degrees unchanged
      (under TypesComplete, which `relate` keeps). */
  lemma SecondTypeKeepsDegree(g: Graph, self: NodeId, node: NodeId, t: string, props: PropMap, dir: int, mp: Value, up: Value)
    requires Consistent(g) && TypesComplete(g) && self < g.nextNode && node < g.nextNode && dir in {1, -1}
    requires Related(g, self, node, None, DirArgs(None, false, false)) == Success(true)
    ensures Relate(g, self, Given(node), Given(t), props, dir, mp, up).Success?
    ensures Degree(Relate(g, self, Given(node), Given(t), props, dir, mp, up).value.0, self) == Degree(g, self)
    ensures Degree(Relate(g, self, Given(node), Given(t), props, dir, mp, up).value.0, node) == Degree(g, node)
  {
    var r := Relate(g, self, Given(node), Given(t), props, dir, mp, up).value;
    assert ParseDirection(DirArgs(None, false, false)) == Success(None);
    RelatedIsAdjacent(g, self, node);
    DegreeAfterRelates(g, self, node, t, props, dir, mp, up, r);
  }

  lemma DegreeAfterRelates(g: Graph, self: NodeId, node: NodeId, t: string, props: PropMap, dir: int, mp: Value, up: Value, r: (Graph, RelId))
    requires Consistent(g) && TypesComplete(g) && TypesComplete(r.0)
    requires Relates(g, Ends(self, node, dir), t, props, mp, up, r)
    requires node in Adjacent(g, self) && self in Adjacent(g, node)
    ensures Degree(r.0, self) == Degree(g, self) && Degree(r.0, node) == Degree(g, node)
  {
    RelatesKeepsEnds(g, Ends(self, node, dir), t, props, mp, up, r);
    DegreeCountsAdjacent(g, self);
    DegreeCountsAdjacent(r.0, self);
    DegreeCountsAdjacent(g, node);
    DegreeCountsAdjacent(r.0, node);
    DegreeOneSide(g, r.0, r.1, self, node);
    DegreeOneSide(g, r.0, r.1, node, self);
  }

  /** Registering one more Rel between `a` and an already adjacent `b` keeps `a`'s degree,
      when degrees count adjacent nodes (as they do under TypesComplete). */
  lemma DegreeOneSide(g: Graph, g': Graph, id: RelId, a: NodeId, b: NodeId)
    requires Degree(g, a) == |Adjacent(g, a)| && Degree(g', a) == |Adjacent(g', a)|
    requires Registered(g') == Registered(g) + {id}
    requires forall q :: q in g.rels ==> q in g'.rels && SameEnds(g.rels[q], g'.rels[q])
    requires id in g'.rels && ((g'.rels[id].start == a && g'.rels[id].end == b) || (g'.rels[id].start == b && g'.rels[id].end == a))
    requires b in Adjacent(g, a)
    ensures Degree(g', a) == Degree(g, a)
  {
    AdjacentAfterRelate(g, g', id, a, b);
    assert Adjacent(g', a) == Adjacent(g, a);
  }

  // ---------------------------------------------------------------------------
  // Node creation and the list form of `relate`

  /** `Node(props, labels=, match_props=, update_props=)`: a fresh node with no Rels. */
  function NewNode(g: Graph, props: PropMap, labels: seq<string>, mp: Value, up: Value): (r: (Graph, NodeId))
    requires Consistent(g)
    ensures Consistent(r.0) && r.1 !in g.attrs && r.1 !in g.index
    ensures r.0.rels == g.rels && r.0.index == g.index && Registered(r.0) == Registered(g)
    ensures AttrsOf(r.0, r.1) == NodeAttrs(props, labels, Props.Override(mp), Props.Override(up))
    ensures forall n :: n != r.1 ==> AttrsOf(r.0, n) == AttrsOf(g, n)
    ensures Selected(r.0, r.1, AnyNode, None, None) == {} && Degree(r.0, r.1) == 0
  {
    var id := g.nextNode;
    var g' := g.(attrs := g.attrs[id := NodeAttrs(props, labels, Props.Override(mp), Props.Override(up))], nextNode := id + 1);
    NewNodeFacts(g, g', id);
    (g', id)
  }

  lemma NewNodeFacts(g: Graph, g': Graph, id: NodeId)
    requires Consistent(g) && id == g.nextNode && g'.index == g.index && g'.rels == g.rels
    requires g'.attrs.Keys == g.attrs.Keys + {id} && g'.nextNode == id + 1 && g'.nextRel == g.nextRel
    ensures Consistent(g') && id !in g.attrs && id !in g.index
    ensures Registered(g') == Registered(g)
    ensures Selected(g', id, AnyNode, None, None) == {} && Degree(g', id) == 0
  {
    assert forall n, m :: Out(g', n, m) == Out(g, n, m) && In(g', n, m) == In(g, n, m);
    assert forall n, t :: Types(g', n, t) == Types(g, n, t);
    assert AdjOf(g', id) == NoAdjacency;
    forall n, m, t | t in Out(g', n, m)
      ensures OutEntryOk(g', n, m, t)
    {
      assert OutEntryOk(g, n, m, t);
    }
    forall n, m, t | t in In(g', n, m)
      ensures InEntryOk(g', n, m, t)
    {
      assert InEntryOk(g, n, m, t);
    }
    assert Registered(g') == Registered(g);
    assert Neighbors(g', id) == {};
  }
  /** Whether `relate`'s `assert`s pass for one node. */
  predicate RelateArgsOk(node: Arg<NodeId>, t: Arg<string>, dir: int) {
    node.Given? && t.Given? && dir in {1, -1}
  }

  /** `relate([n0, n1, ...], type, ...)`: relates `self` to each node in turn and returns the
      Rels in order. A failing `assert` stops the loop; Rels made before it stay. */
  function RelateAll(g: Graph, self: NodeId, nodes: seq<Arg<NodeId>>, t: Arg<string>, props: PropMap, dir: int,
                     mp: Value, up: Value): (r: (Graph, Result<seq<RelId>>))
    requires Consistent(g) && self < g.nextNode && NodesBelow(nodes, g.nextNode)
    ensures Consistent(r.0) && r.0.nextNode == g.nextNode
    ensures RelatedAll(g, self, nodes, t, dir, r)
    decreases |nodes|
  {
    if |nodes| == 0 then RelatedNone(g, self, nodes, t, dir); (g, Success([]))
    else if !RelateArgsOk(nodes[0], t, dir) then RelatedBad(g, self, nodes, t, dir); (g, Failure(AssertionError))
    else
        var (g1, id) := RelateOne(g, self, nodes[0].value, t.value, props, dir, mp, up);
        NodesBelowTail(nodes, g.nextNode);
        RelateCons(g, self, nodes, t, dir, g1, id, RelateAll(g1, self, nodes[1..], t, props, dir, mp, up))
  }

  /** Every given node in the list is already allocated. */
  predicate NodesBelow(nodes: seq<Arg<NodeId>>, bound: nat) {
    forall i :: 0 <= i < |nodes| && nodes[i].Given? ==> nodes[i].value < bound
  }

  lemma NodesBelowTail(nodes: seq<Arg<NodeId>>, bound: nat)
    requires |nodes| > 0 && NodesBelow(nodes, bound)
    ensures NodesBelow(nodes[1..], bound)
  {
    assert forall i :: 0 <= i < |nodes| - 1 ==> nodes[1..][i] == nodes[i + 1];
  }

  lemma RelatedNone(g: Graph, self: NodeId, nodes: seq<Arg<NodeId>>, t: Arg<string>, dir: int)
    requires |nodes| == 0
    ensures RelatedAll(g, self, nodes, t, dir, (g, Success([])))
  {
  }

  lemma RelatedBad(g: Graph, self: NodeId, nodes: seq<Arg<NodeId>>, t: Arg<string>, dir: int)
    requires |nodes| > 0 && !RelateArgsOk(nodes[0], t, dir)
    ensures RelatedAll(g, self, nodes, t, dir, (g, Failure(AssertionError)))
  {
  }

  /** Puts the first Rel in front of the rest of the list's outcome. */
  function RelateCons(g: Graph, self: NodeId, nodes: seq<Arg<NodeId>>, t: Arg<string>, dir: int,
                      g1: Graph, id: RelId, rest: (Graph, Result<seq<RelId>>)): (r: (Graph, Result<seq<RelId>>))
    requires |nodes| > 0 && RelateArgsOk(nodes[0], t, dir)
    requires Registered(g1) == Registered(g) + {id} && RelRuns(g1, id, Ends(self, nodes[0].value, dir), t.value)
    requires forall q :: q in g.rels ==> q in g1.rels && SameEnds(g.rels[q], g1.rels[q])
    requires RelatedAll(g1, self, nodes[1..], t, dir, rest)
    ensures r.0 == rest.0 && RelatedAll(g, self, nodes, t, dir, r)
  {
    if rest.1.Failure? then
      var r := (rest.0, Failure(rest.1.error));
      RelateAllFails(g, self, nodes, t, dir, g1, id, rest, r);
      r
    else
      var r := (rest.0, Success([id] + rest.1.value));
      RelateAllStep(g, self, nodes, t, dir, g1, id, rest, r);
      r
  }

  /** Every element of `nodes` before index `k` passes `relate`'s `assert`s. */
  predicate PassesBefore(nodes: seq<Arg<NodeId>>, t: Arg<string>, dir: int, k: int) {
    forall j :: 0 <= j < k && j < |nodes| ==> RelateArgsOk(nodes[j], t, dir)
  }

  /** Some registered Rel of type `t` runs between `self` and `node` in direction `dir`. */
  ghost predicate RelatedTo(g: Graph, self: NodeId, node: Arg<NodeId>, t: Arg<string>, dir: int) {
    node.Given? && t.Given? && exists q :: q in Registered(g) && RelRuns(g, q, Ends(self, node.value, dir), t.value)
  }

  /** Each element up to the first one failing the `assert`s has a Rel to `self`. */
  ghost predicate PrefixRelated(g: Graph, self: NodeId, nodes: seq<Arg<NodeId>>, t: Arg<string>, dir: int) {
    forall i :: 0 <= i < |nodes| && PassesBefore(nodes, t, dir, i + 1) ==> RelatedTo(g, self, nodes[i], t, dir)
  }

  /** What `relate` on a list promises: the Rels already there keep their ends and stay
      registered; every element up to the first one failing the `assert`s gets its Rel, and
      that Rel is still registered afterwards, whether or not a later element fails; it
      succeeds exactly when every element passes, failing with an `AssertionError`
      otherwise; on success the i-th Rel returned runs between `self` and the i-th node, and
      these are the only newly registered Rels. */
  ghost predicate RelatedAll(g: Graph, self: NodeId, nodes: seq<Arg<NodeId>>, t: Arg<string>, dir: int,
                             r: (Graph, Result<seq<RelId>>)) {
    && Registered(g) <= Registered(r.0)
    && PrefixRelated(r.0, self, nodes, t, dir)
    && (forall q :: q in g.rels ==> q in r.0.rels && SameEnds(g.rels[q], r.0.rels[q]))
    && (r.1.Success? <==> forall i :: 0 <= i < |nodes| ==> RelateArgsOk(nodes[i], t, dir))
    && (r.1.Failure? ==> r.1.error == AssertionError)
    && (r.1.Success? ==> |r.1.value| == |nodes| && Registered(r.0) == Registered(g) + (set q | q in r.1.value))
    && (r.1.Success? ==> forall i :: 0 <= i < |nodes| ==> RelRuns(r.0, r.1.value[i], Ends(self, nodes[i].value, dir), t.value))
  }

  /** A `relate` whose `assert`s pass, seen from the Rels: one more is registered, running
      between the two nodes, and every existing Rel keeps its endpoints and type. */
  function RelateOne(g: Graph, self: NodeId, node: NodeId, t: string, props: PropMap, dir: int, mp: Value, up: Value): (r: (Graph, RelId))
    requires Consistent(g) && self < g.nextNode && node < g.nextNode && dir in {1, -1}
    ensures Consistent(r.0) && r.0.nextNode == g.nextNode
    ensures Registered(r.0) == Registered(g) + {r.1} && RelRuns(r.0, r.1, Ends(self, node, dir), t)
    ensures forall q :: q in g.rels ==> q in r.0.rels && SameEnds(g.rels[q], r.0.rels[q])
    ensures Relates(g, Ends(self, node, dir), t, props, mp, up, r)
  {
    var r := RelateChecked(g, self, node, t, props, dir, mp, up);
    RelatesKeepsEnds(g, Ends(self, node, dir), t, props, mp, up, r);
    r
  }

  /** How the first `relate` and the rest of the list combine when the rest succeeds. */
  lemma RelateAllStep(g: Graph, self: NodeId, nodes: seq<Arg<NodeId>>, t: Arg<string>, dir: int,
                      g1: Graph, id: RelId, rest: (Graph, Result<seq<RelId>>), r: (Graph, Result<seq<RelId>>))
    requires |nodes| > 0 && RelateArgsOk(nodes[0], t, dir)
    requires Registered(g1) == Registered(g) + {id} && RelRuns(g1, id, Ends(self, nodes[0].value, dir), t.value)
    requires forall q :: q in g.rels ==> q in g1.rels && SameEnds(g.rels[q], g1.rels[q])
    requires RelatedAll(g1, self, nodes[1..], t, dir, rest) && rest.1.Success?
    requires r == (rest.0, Success([id] + rest.1.value))
    ensures RelatedAll(g, self, nodes, t, dir, r)
  {
    var ids := [id] + rest.1.value;
    assert (set q | q in ids) == {id} + (set q | q in rest.1.value);
    AllPassStep(nodes, t, dir);
    RunsStep(self, nodes, t, dir, g1, id, rest.0, rest.1.value);
    RelatedToPrefix(self, nodes, t, dir, g1, id, rest);
  }

  /** The whole list passes the `assert`s when its head and its tail do. */
  lemma AllPassStep(nodes: seq<Arg<NodeId>>, t: Arg<string>, dir: int)
    requires |nodes| > 0 && RelateArgsOk(nodes[0], t, dir)
    requires forall i :: 0 <= i < |nodes| - 1 ==> RelateArgsOk(nodes[1..][i], t, dir)
    ensures forall i :: 0 <= i < |nodes| ==> RelateArgsOk(nodes[i], t, dir)
  {
    forall i | 0 < i < |nodes|
      ensures RelateArgsOk(nodes[i], t, dir)
    {
      assert nodes[1..][i - 1] == nodes[i];
    }
  }

  /** The head's Rel followed by the tail's Rels runs between `self` and each node in turn. */
  lemma RunsStep(self: NodeId, nodes: seq<Arg<NodeId>>, t: Arg<string>, dir: int,
                 g1: Graph, id: RelId, g2: Graph, more: seq<RelId>)
    requires |nodes| > 0 && RelateArgsOk(nodes[0], t, dir) && |more| == |nodes| - 1
    requires RelRuns(g1, id, Ends(self, nodes[0].value, dir), t.value)
    requires forall q :: q in g1.rels ==> q in g2.rels && SameEnds(g1.rels[q], g2.rels[q])
    requires forall i :: 0 <= i < |nodes| - 1 ==> RelateArgsOk(nodes[1..][i], t, dir)
    requires forall i :: 0 <= i < |nodes| - 1 ==> nodes[1..][i].Given? && RelRuns(g2, more[i], Ends(self, nodes[1..][i].value, dir), t.value)
    ensures forall i :: 0 <= i < |nodes| ==> nodes[i].Given? && RelRuns(g2, ([id] + more)[i], Ends(self, nodes[i].value, dir), t.value)
  {
    var ids := [id] + more;
    assert SameEnds(g1.rels[id], g2.rels[id]);
    forall i | 0 < i < |nodes|
      ensures nodes[i].Given? && RelRuns(g2, ids[i], Ends(self, nodes[i].value, dir), t.value)
    {
      assert nodes[1..][i - 1] == nodes[i];
      assert ids[i] == more[i - 1];
    }
  }

  /** The first element's Rel survives the rest of the list, and so do the Rels the rest
      made: each element up to the first failing one is related afterwards. */
  lemma RelatedToPrefix(self: NodeId, nodes: seq<Arg<NodeId>>, t: Arg<string>, dir: int,
                        g1: Graph, id: RelId, rest: (Graph, Result<seq<RelId>>))
    requires |nodes| > 0 && RelateArgsOk(nodes[0], t, dir)
    requires id in Registered(g1) && RelRuns(g1, id, Ends(self, nodes[0].value, dir), t.value)
    requires RelatedAll(g1, self, nodes[1..], t, dir, rest)
    ensures PrefixRelated(rest.0, self, nodes, t, dir)
  {
    forall i | 0 <= i < |nodes| && PassesBefore(nodes, t, dir, i + 1)
      ensures RelatedTo(rest.0, self, nodes[i], t, dir)
    {
      if i == 0 {
        assert id in g1.rels && SameEnds(g1.rels[id], rest.0.rels[id]);
        assert id in Registered(rest.0) && RelRuns(rest.0, id, Ends(self, nodes[0].value, dir), t.value);
      } else {
        assert nodes[1..][i - 1] == nodes[i];
        forall j | 0 <= j < i && j < |nodes| - 1
          ensures RelateArgsOk(nodes[1..][j], t, dir)
        {
          assert nodes[1..][j] == nodes[j + 1];
        }
        assert PassesBefore(nodes[1..], t, dir, i);
      }
    }
  }

  /** How the first `relate` and the rest of the list combine when the rest fails. */
  lemma RelateAllFails(g: Graph, self: NodeId, nodes: seq<Arg<NodeId>>, t: Arg<string>, dir: int,
                       g1: Graph, id: RelId, rest: (Graph, Result<seq<RelId>>), r: (Graph, Result<seq<RelId>>))
    requires |nodes| > 0 && RelateArgsOk(nodes[0], t, dir)
    requires Registered(g1) == Registered(g) + {id} && RelRuns(g1, id, Ends(self, nodes[0].value, dir), t.value)
    requires forall q :: q in g.rels ==> q in g1.rels && SameEnds(g.rels[q], g1.rels[q])
    requires RelatedAll(g1, self, nodes[1..], t, dir, rest) && rest.1.Failure?
    requires r == (rest.0, Failure(rest.1.error))
    ensures RelatedAll(g, self, nodes, t, dir, r)
  {
    var i :| 0 <= i < |nodes| - 1 && !RelateArgsOk(nodes[1..][i], t, dir);
    assert !RelateArgsOk(nodes[i + 1], t, dir);
    RelatedToPrefix(self, nodes, t, dir, g1, id, rest);
  }

  /** Rel `id` exists in `g` and runs `ends` with type `t`. */
  predicate RelRuns(g: Graph, id: RelId, ends: (NodeId, NodeId), t: string) {
    id in g.rels && g.rels[id].start == ends.0 && g.rels[id].end == ends.1 && g.rels[id].rtype == t
  }
}
