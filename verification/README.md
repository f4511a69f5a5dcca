# graphlib core, modelled in Dafny

graphlib is a small Python library for in-memory property graphs.

- **Nodes** carry a property bag, labels and optional `match`/`update` hints.
- `node.relate(other, type)` creates a directed, typed relationship (a `Rel`). There is at most one `Rel` per (start, end, type). Relating again merges the new properties into the existing one.
- `unrelate`, `related`, `rels`, `degree` and `neighbors` read or edit each node's relationship index. The index has three parts:
  - `_outgoing[node][type]` and `_incoming[node][type]` hold the `Rel` objects;
  - `_types[type]` holds the set of nodes related to this one by that type.
- Query results are `DictSeq` tuples. They can be indexed by position, by a case-insensitive name, or by a list of keys. They also support `filter` and `sort`.
- The `Serializer` walks nodes and relationships into a flat list of JSON records, emitting each entity once and every relationship after its two endpoints. `convert_array_to_dict` splits that list into node and relationship lists.
- The Neo4j module turns such records into Cypher `CREATE`/`MERGE` statements.

The model follows `graphlib/graph.py`, `graphlib/serializer.py` and the pure statement builder of `graphlib/neo4j.py`.

| file | module | what it holds |
|---|---|---|
| `wrappers.dfy` | `Wrappers` | `Option`, `Result` and the Python exception kinds raised by the code (`KeyError`, `TypeError`, `ValueError`, `AssertionError`, `IndexError`) |
| `values.dfy` | `Values` | property values (`None`, bool, int, float, str, list, other object), Python truthiness, property keys |
| `props.dfy` | `Props` | the `Props` property bag |
| `strings.dfy` | `Strings` | lexicographic order, sorted keys, `str(int)` and its inverse, lower-casing, `join` and splitting |
| `graph.dfy` | `Graph` | the whole object graph as one value: node attributes, every node's index, every `Rel` ever created; `_add_rel` / `_remove_rel`; the consistency invariant they preserve |
| `node.dfy` | `Node` | the `Node` methods: direction parsing, the four index walks, every `unrelate` mode, `relate` (single and list), `related`, `rels`, `degree`, `neighbors` |
| `views.dfy` | `Views` | `DictSeq` access, `filter` and `sort`; `Rels.nodes` |
| `serializer.dfy` | `Serializer` | `Serializer.serialize` with its work stack; `convert_array_to_dict` |
| `cypher.dfy` | `Cypher` | `cref`, `stringify`, the property and statement renderers, `clean_props`, `pick`, `parse_node`, `parse_rel`, the dict and array schemas, `parse` |

## How it is modelled

- **Object identity.** Python objects are mutable and compared by identity. The model keeps all of them in one immutable `Graph` value: node ids and relationship ids are allocation counters, and every mutating method returns a new `Graph`.
  - A `Rel` dropped by `unrelate` stays in `rels` and is only removed from the index, just as the Python object lives on.
  - `Registered(g)` is the set of relationships the index currently holds.
  - `Selected(g, self, nodes, type, dir)` states declaratively which registered relationships a query means.
- **Consistency.** `Consistent(g)` says that the two halves of the index mirror each other, that `_types` only lists nodes that really are related, and that every id is allocated. Node operations require it and are proved to preserve it; it is the reachable-state invariant of the object graph.
  - `TypesComplete(g)` (every related node is listed in `_types`) does *not* always hold in the source. `_remove_rel` discards the other node from `_types` even when a relationship of the same type runs the other way. The model therefore proves `neighbors`/`degree` exact only under `TypesComplete`, and proves that `relate` preserves it.
- **Iteration order.** Where the code walks a dict or set, the model either computes the whole set at once or, for the `unrelate` loops, picks elements in an unspecified order (`:|`). Both model Python's unspecified iteration order.
- **Errors.** Exceptions are `Failure(e)` results naming the Python exception class.

## Model

| member | source | states |
|---|---|---|
| Props.Get | graphlib/graph.py:35-36 | `props[key]` yields the stored value, and raises KeyError exactly when the key is absent |
| Props.Set | graphlib/graph.py:38-39 | after `props[key] = v` the key reads back `v`; every other key reads as before; the key set gains exactly `key` |
| Props.Del | graphlib/graph.py:41-42 | `del props[key]` raises KeyError exactly when the key is absent; otherwise only that key disappears and other values are kept |
| Props.SetThenGet | graphlib/graph.py:35-39 | get-after-set law: reading key j after setting k gives v when j is k, else the old reading |
| Props.DelThenGet | graphlib/graph.py:35-42 | after deleting a present key, reading it raises KeyError |
| Props.Update | graphlib/graph.py:50-51 | `update` yields the union of keys, with the new values winning and the old values kept elsewhere |
| Props.UpdateIdempotent | graphlib/graph.py:50-51 | updating twice with the same map equals updating once |
| Props.Serialize | graphlib/graph.py:53-55 | the shallow copy reads the same as the original at every key |
| Strings.NatToStringRoundTrip | graphlib/neo4j.py:40-42 | the decimal text of an index parses back to the index, so `x{index}` names are decodable |
| Strings.NatToStringInjective | graphlib/neo4j.py:40-42 | different indexes give different decimal texts |
| Strings.LeastExists | graphlib/neo4j.py:55-65 | a non-empty set of property names has a lexicographically least element, so `sorted(props.keys())` is well defined |
| Strings.SortedKeys | graphlib/neo4j.py:55-65 | `sorted(keys)` lists exactly the given names in strictly ascending order |
| Strings.LowerIdempotent | graphlib/graph.py:373-374 | lower-casing twice equals lower-casing once, so names stored lower-cased match lower-cased lookups |
| Graph.AddRel | graphlib/graph.py:155-160 | `_add_rel` stores the Rel under `_outgoing[end][type]` of the start node and `_incoming[start][type]` of the end node, and adds each node to the other's `_types[type]`; every other index entry is unchanged |
| Graph.AddRelKeepsConsistent | graphlib/graph.py:155-160 | adding a Rel whose (start, end, type) slot is free keeps the index consistent and registers exactly that Rel |
| Graph.AddRelKeepsTypesComplete | graphlib/graph.py:155-160 | after `_add_rel`, every related pair is still listed in `_types` |
| Graph.RemoveRel | graphlib/graph.py:162-166 | `_remove_rel` deletes both index entries of the Rel and discards each endpoint from the other's `_types[type]`; nothing else changes |
| Graph.RemoveRelKeepsConsistent | graphlib/graph.py:162-166 | removing a registered Rel keeps the index consistent and unregisters exactly that Rel |
| Graph.AddRelRegisters | graphlib/graph.py:155-160 | a relationship is registered after `_add_rel` exactly when it was before or is the added one |
| Graph.RemoveRelUnregisters | graphlib/graph.py:162-166 | a relationship is registered after `_remove_rel` exactly when it was before and is not the removed one |
| Graph.IndexFollowsRegistration | graphlib/graph.py:155-166 | between two consistent states over the same Rels, an index entry exists exactly when its Rel is still registered, and it holds the same Rel |
| Graph.ShrinkTypesKeepsConsistent | graphlib/graph.py:189-191 | shrinking a `_types` set (as `_del_rel` does) keeps the index consistent and the registered set unchanged |
| Node.ParseDirection | graphlib/graph.py:238-257 | an explicit direction other than 0, 1, -1 is an AssertionError; otherwise the chosen filter admits a direction exactly when the `direction`/`incoming`/`outgoing` arguments ask for it |
| Node.NodeAndTypeSpec | graphlib/graph.py:128-139 | `_rels_for_node_and_type` returns exactly the registered Rels between self and the node with that type, in the requested directions |
| Node.NodeSpec | graphlib/graph.py:115-126 | `_rels_for_node` returns exactly the registered Rels between self and the node, in the requested directions |
| Node.TypeSpec | graphlib/graph.py:101-113 | `_rels_for_type` returns exactly the registered Rels of that type between self and the nodes listed in `_types[type]` |
| Node.AllSpec | graphlib/graph.py:141-153 | `_rels` returns exactly the registered Rels of self in the requested directions |
| Node.DelOut | graphlib/graph.py:173-179 | the outgoing half of `_del_rel`: removes the outgoing Rel of that type if the direction allows it, counts it, and keeps the index consistent |
| Node.DelIn | graphlib/graph.py:181-187 | the incoming half of `_del_rel`, after the outgoing half: removes the incoming Rel if allowed, counts it, and keeps the index consistent |
| Node.DelRel | graphlib/graph.py:168-193 | `_del_rel` unregisters exactly the selected Rels between self and node of that type, returns their number and leaves none selected; when no Rel of that type is left between the two distinct nodes, the node leaves `_types[type]` |
| Node.DelRelsForType | graphlib/graph.py:199-206 | `_del_rels_for_type` unregisters and counts exactly the selected Rels of that type to the nodes in `_types[type]` |
| Node.DelTypeAmong | graphlib/graph.py:203-204 | the loop of `_del_rels_for_type` over a snapshot of node ids unregisters and counts the Rels of that type to exactly those nodes |
| Node.DelRelsForNode | graphlib/graph.py:208-220 | `_del_rels_for_node` unregisters and counts exactly the selected Rels between self and the node, in every type and requested direction |
| Node.DelTypes | graphlib/graph.py:212-218 | the loop over the type keys of one direction unregisters and counts exactly the Rels of those types |
| Node.DelRels | graphlib/graph.py:222-236 | `_del_rels` unregisters and counts every selected Rel of self in the requested directions |
| Node.DelNeighbors | graphlib/graph.py:226-234 | the loop over neighbour keys of one direction unregisters and counts exactly the Rels to those neighbours |
| Node.Unrelate | graphlib/graph.py:312-326 | `unrelate` fails with AssertionError exactly when the direction arguments are bad; otherwise it unregisters exactly the Rels `rels()` would return for the same arguments, returns how many, and afterwards that query is empty; the index stays consistent |
| Node.Rels | graphlib/graph.py:350-363 | `rels` fails exactly on bad direction arguments; otherwise it returns the registered Rels selected by node, type and direction, dispatching to the four walks |
| Node.Related | graphlib/graph.py:328-348 | `related` fails exactly on bad direction arguments; otherwise it is true exactly when some registered Rel between self and node, of the given type if one is given, runs in an allowed direction |
| Node.RelatedIffRels | graphlib/graph.py:328-363 | `related(node, ...)` is true exactly when `rels(node, ...)` is non-empty |
| Node.Relate | graphlib/graph.py:272-310 | `relate` fails with AssertionError exactly on a non-Node end, a non-string type or a direction other than 1/-1. Otherwise it registers exactly one more Rel running in the requested direction: the one already in that slot with the new props merged in, or a new Rel holding the props and the truthy match/update hints. The index stays consistent and `_types` stays complete |
| Node.RelateIdempotent | graphlib/graph.py:272-310 | with valid arguments `relate` succeeds, and relating again with the same arguments returns the same Rel and leaves the graph unchanged |
| Node.RelateMirror | graphlib/graph.py:272-310 | `a.relate(b, t)` followed by `b.relate(a, t, direction=INCOMING)` finds and returns the same Rel |
| Node.RelatedAfterRelate | graphlib/graph.py:272-348 | after a successful `relate`, `related` answers true from both ends for that type and direction |
| Node.RelatesSelects | graphlib/graph.py:272-348 | the Rel `relate` returns is selected from self in the requested direction and from the other node in the opposite one |
| Node.RelateAll | graphlib/graph.py:274-281 | `relate` on a list relates each element in turn. It succeeds exactly when every element passes the checks, and fails with AssertionError otherwise. Every element before the first failing one keeps a registered Rel to self afterwards, even when the call fails, so the list form is not atomic. On success the i-th returned Rel runs between self and the i-th node, and these are the only new Rels. Earlier Rels keep their endpoints, and the index stays consistent |
| Node.RelateOne | graphlib/graph.py:283-310 | one element of the list form: after the checks pass, it does what a single `relate` does (exactly one more Rel registered, merged or new, between self and the node) and earlier Rels keep their endpoints |
| Node.NeighborsListed | graphlib/graph.py:265-270 | a node is a neighbour exactly when some `_types[type]` lists it |
| Node.NeighborsAreAdjacent | graphlib/graph.py:265-270 | every neighbour is at the other end of a registered Rel, and when `_types` is complete the neighbours are exactly those nodes |
| Node.DegreeCountsAdjacent | graphlib/graph.py:260-262 | `degree` never exceeds the number of distinct nodes joined to self by registered Rels, and equals it when `_types` is complete |
| Node.SecondTypeKeepsDegree | graphlib/graph.py:260-310 | relating two nodes that are already related, by any type, changes neither node's degree |
| Node.NewNode | graphlib/graph.py:78-96 | a new node gets fresh identity, the given props and labels and the truthy hints; it has no relationships and degree 0; no other node changes |
| Views.KeyIndex | graphlib/graph.py:373-374 | the name map holds exactly the item names, each mapped to the last position carrying it |
| Views.Eq | graphlib/graph.py:376-388 | `==` is false for a non-iterable; it raises TypeError exactly when the other side has no length, or has the same non-zero length but no indexing; otherwise it is true exactly when the other side holds the same items in the same order (an empty sized iterable equals an empty view) |
| Views.Ne | graphlib/graph.py:390-392 | `!=` raises exactly where `==` does and otherwise answers its negation |
| Views.Index | graphlib/graph.py:398-399 | integer access follows Python's negative indexing and raises IndexError outside `[-len, len)` |
| Views.Slice | graphlib/graph.py:398-399 | `[lo:hi]` clips both bounds to the tuple (negative ones counting from the end) and returns exactly the items between them, none when the bounds cross |
| Views.StepSlice | graphlib/graph.py:398-399 | `[lo:hi:step]` raises ValueError exactly for a zero step. Otherwise, with the start and stop adjusted as `slice.indices` does, the j-th item is the one `j` steps from the start, every item taken lies before the stop, and the walk ends at the first step that reaches the stop. It never returns more items than the tuple has |
| Views.StrideAt | graphlib/graph.py:398-399 | the j-th item of a stepped slice is the item `j` steps from the adjusted start, and every such position lies before the adjusted stop |
| Views.StrideEnd | graphlib/graph.py:398-399 | a stepped slice stops at the first step that reaches the adjusted stop |
| Views.StrideLength | graphlib/graph.py:398-399 | a stepped slice takes at most one item per position between start and stop, so never more items than the tuple holds |
| Views.StepOneIsSlice | graphlib/graph.py:398-399 | a step of 1, given or omitted, gives the plain slice |
| Views.StepMinusOneReverses | graphlib/graph.py:398-399 | `[::-1]` returns every item in reverse order |
| Views.SliceSplit | graphlib/graph.py:398-399 | the slices `[:k]` and `[k:]` together give back the whole tuple, for every k |
| Views.Lookup | graphlib/graph.py:400-407 | name access is case-insensitive; it raises KeyError exactly when no item has that name, and otherwise returns an item carrying the name |
| Views.LookupOwnName | graphlib/graph.py:400-407 | looking up an item's own name, in any case, returns that item |
| Views.PickAll | graphlib/graph.py:402-403 | multi-key access succeeds exactly when every key does, and returns the items in key order |
| Views.GetItem | graphlib/graph.py:394-407 | `__getitem__` dispatches on the key's kind. An int follows negative indexing and raises IndexError out of range; a slice returns exactly the stepped slice and raises ValueError for a zero step; a name is looked up case-insensitively; a list of keys returns the item for each key in order, raising when one fails; any other key raises KeyError |
| Views.SelectKeeps | graphlib/graph.py:409-426 | the filtered items are exactly the items satisfying the criterion |
| Views.SelectConcat | graphlib/graph.py:409-426 | filtering distributes over concatenation, so order is preserved |
| Views.SelectIdempotent | graphlib/graph.py:409-426 | filtering twice by the same criterion equals filtering once |
| Views.Filter | graphlib/graph.py:409-426 | `filter` raises TypeError exactly when the key is neither a name nor a function. Otherwise it keeps exactly the items that have the property or that the function accepts, in their original order. When a value is given, the property must equal it under Python's `==`, so `1`, `1.0` and `True` match each other |
| Values.PyEqSymmetric | graphlib/graph.py:418 | the `==` comparison `filter` makes gives the same answer whichever side is the property |
| Values.PyEqReflexive | graphlib/graph.py:418 | every value built without arbitrary objects equals itself, so filtering by a property's own value keeps the item |
| Views.RankLeTotal | graphlib/graph.py:428-440 | the sort order on comparable keys is total |
| Views.RankLeTransitive | graphlib/graph.py:428-440 | the sort order on comparable keys is transitive |
| Views.SortBy | graphlib/graph.py:428-440 | sorting yields a permutation of the items in non-decreasing key order |
| Views.InsertStable | graphlib/graph.py:428-440 | inserting an item puts it ahead of every item with an equal key and keeps their order |
| Views.SortStable | graphlib/graph.py:428-440 | sorting is stable: for every key value, the items with that key keep their original relative order |
| Views.SortSortedUnchanged | graphlib/graph.py:428-440 | sorting an already sorted tuple returns it unchanged |
| Views.Sort | graphlib/graph.py:428-440 | `sort` raises TypeError exactly when the key is not a name or function, or when two or more items have key values Python cannot compare with each other (a `None` or other object, or text mixed with numbers; bools, ints and floats compare numerically). Otherwise it returns a permutation in non-decreasing key order in which items with equal keys keep their original order |
| Views.RelsNodes | graphlib/graph.py:450-451 | `Rels.nodes()` lists the end nodes of the relationships, each exactly once |
| Serializer.AddNode | graphlib/serializer.py:24-38 | `_add_node` appends the node's record at the next position and records that position; earlier output is kept and the serializer invariant holds |
| Serializer.AddRel | graphlib/serializer.py:40-56 | `_add_rel` appends a record pointing at the positions of both endpoints, which were emitted earlier |
| Serializer.NodeRecordOf | graphlib/serializer.py:24-34 | a node record has its props, has `labels` exactly when there are labels, and has `match`/`update` exactly when they are not None |
| Serializer.RelRecordOf | graphlib/serializer.py:40-53 | a relationship record has its endpoints' positions, its type and props, and has `match`/`update` exactly when they are not None |
| Serializer.SerializeRel | graphlib/serializer.py:58-65 | `_serialize_rel` emits a relationship at most once, emitting its missing endpoints first; an already emitted one changes nothing |
| Serializer.FreshRel | graphlib/serializer.py:58-65 | on a fresh serializer a relationship yields start node, end node, then itself pointing at 0 and 1; a self-loop yields the node once |
| Serializer.Discover | graphlib/serializer.py:74-79 | the traversal loop of `_serialize_node` pushes every unemitted relationship of the node, with its unemitted endpoints below it, and pushes nothing but those relationships and their endpoints |
| Serializer.Step | graphlib/serializer.py:68-85 | one pop of the work stack emits the top entity and keeps the serializer invariant. It emits nothing besides that entity and, for a relationship, its endpoints. Without traversal the stack just loses its top; with it, only the node's relationships and their endpoints are pushed. If nothing new was emitted, the stack's remaining work shrinks |
| Serializer.Serialize | graphlib/serializer.py:87-101 | `serialize` raises TypeError exactly for a non-entity. Otherwise every given entity ends up emitted and earlier output is kept. With `traverse`, a closed output (every relationship of an emitted node is emitted) stays closed, provided each relationship among the given entities has its endpoints emitted already or listed before it. Serializing what is already there changes nothing. A single relationship gives exactly `_serialize_rel`. Nothing outside what the call can reach is emitted. Without `traverse` the output gains exactly the given entities and the endpoints of the given relationships. With `traverse` it stays inside every set that holds the given entities and is closed under `rels()` and endpoints, and so inside what `rels()` reaches from them |
| Serializer.SplitCounts | graphlib/serializer.py:110-124 | every record goes to exactly one of the node and relationship lists |
| Serializer.NodeIndex | graphlib/serializer.py:117-126 | `nmap` maps exactly the node positions of the flat list; each maps to the number of node records before it, which is where that record sits in the node list |
| Serializer.RenumberedEqualNodes | graphlib/serializer.py:117-131 | with two equal node records, a relationship from the first to the second is renumbered to 0 and 1, and renumbering both ends to 0 is rejected |
| Serializer.Remap | graphlib/serializer.py:126-129 | remapping raises KeyError exactly when some endpoint is not a node position; otherwise each endpoint is replaced by its `nmap` entry |
| Serializer.ConvertArrayToDict | graphlib/serializer.py:110-133 | conversion succeeds exactly when every relationship points at node positions. It keeps the node records in order, and each relationship record is unchanged except that each endpoint now counts the node records before its old position, so it indexes that very record in the node list |
| Serializer.SerializedConverts | graphlib/serializer.py:87-133 | any serializer output converts without error, and the two lists together have as many records as the output |
| Cypher.Cref | graphlib/neo4j.py:40-42 | a reference is `x` followed by digits that parse back to the index |
| Cypher.CrefInjective | graphlib/neo4j.py:40-42 | distinct indexes give distinct references |
| Cypher.Stringify | graphlib/neo4j.py:45-52 | a list renders bracketed |
| Cypher.StringifyBool | graphlib/neo4j.py:50-51 | as written, every bool renders as `true`, `False` included |
| Cypher.Tokens | graphlib/neo4j.py:55-78 | one token per property, in sorted key order: the prefix, the key, the separator and the stringified value |
| Cypher.DictProps | graphlib/neo4j.py:55-65 | empty exactly for no properties, else ` {` + tokens joined by `, ` + `}` |
| Cypher.KeywordProps | graphlib/neo4j.py:68-78 | empty exactly for no properties, else `ref.key = value` assignments joined by `, ` |
| Strings.SplitJoin | graphlib/neo4j.py:81-85 | joining colon-free labels with `:` and splitting the text at `:` gives the labels back |
| Cypher.LabelsSuffix | graphlib/neo4j.py:81-85 | empty exactly when there are no labels; otherwise `:` followed by text that splits back into the labels when none contains a colon |
| Cypher.OnCreate | graphlib/neo4j.py:88-92 | empty exactly when there are no properties; otherwise ` ON CREATE SET ref =` followed by the whole property map |
| Cypher.OnMatch | graphlib/neo4j.py:95-104 | empty exactly when there are no properties; otherwise ` ON MATCH SET`, then with `replace` the whole map assigned to the reference, without it one `ref.key = value` assignment per property |
| Cypher.RefReadBack | graphlib/neo4j.py:40-42 | a reference name followed by a non-digit reads back as its index from the statement text |
| Cypher.CreateNodeStmt | graphlib/neo4j.py:107-112 | the statement is `CREATE (`, the node's reference, its labels suffix and its property map, then `)`; the reference in it reads back as the index |
| Cypher.MergeNodeStmt | graphlib/neo4j.py:115-124 | the statement is `MERGE (` with the reference, labels and match properties, `)`, then the creation clause and the match clause, both naming the same reference; the reference reads back as the index |
| Cypher.CreateRelStmt | graphlib/neo4j.py:127-134 | the statement is `CREATE (start)-[:type props]->(end)` with no reference for the relationship; both endpoint references read back as their positions |
| Cypher.MergeRelStmt | graphlib/neo4j.py:137-148 | the statement is `MERGE (start)-[ref:type props]->(end)` followed by the creation and match clauses naming `ref`; the start and relationship references read back as their positions |
| Cypher.CheckPropType | graphlib/neo4j.py:183-188 | exactly bool, int, float, str and bytes pass unchanged; anything else fails, with KeyError as written |
| Cypher.CleanValue | graphlib/neo4j.py:208-212 | a value is accepted exactly when it is a primitive or a list of primitives, and is kept unchanged |
| Cypher.CleanProps | graphlib/neo4j.py:191-216 | an empty map gives None. It fails exactly when a non-None entry has a non-string key (TypeError) or an unstorable value. Otherwise it keeps exactly the non-None entries with their values |
| Cypher.Pick | graphlib/neo4j.py:171-180 | picking succeeds exactly when there are no keys or every key is a string present in the properties, and yields exactly those entries |
| Cypher.ParseMatchProps | graphlib/neo4j.py:219-224 | a falsy `match` gives no properties; a list picks those keys; anything else is a ValueError |
| Cypher.ParseUpdateProps | graphlib/neo4j.py:227-232 | a falsy `update` gives all properties; a list picks exactly those keys with their values, raising when one is missing; anything else is a ValueError |
| Cypher.ParseNodeSpec | graphlib/neo4j.py:235-257 | `parse_node` needs a bool `replace` (AssertionError), clean properties and picks that succeed. With a falsy `match` it builds the CREATE statement with all cleaned properties and the labels; otherwise the MERGE statement on the picked match properties, creating with all cleaned properties and updating with the `update` pick |
| Cypher.NodeStatement | graphlib/neo4j.py:247-257 | once the properties are cleaned, the node statement is the CREATE for a falsy `match` and otherwise the MERGE on the match pick with the update pick |
| Cypher.ParseRelSpec | graphlib/neo4j.py:260-291 | `parse_rel` raises TypeError without endpoints and AssertionError for endpoints outside `[0, bound]`, an empty type or a non-bool `replace`. When `match` is False it builds the CREATE statement between the two endpoints with all cleaned properties; otherwise the MERGE statement on the match pick (none for a falsy `match`), creating with all cleaned properties and updating with the `update` pick |
| Cypher.RelStatement | graphlib/neo4j.py:279-291 | once the endpoints are checked and the properties cleaned, the statement is the CREATE when `match` is False and otherwise the MERGE with the match and update picks |
| Cypher.RunAll | graphlib/neo4j.py:302-318 | collecting statements succeeds exactly when every statement does, keeps them in order, and otherwise raises the error of a failing one |
| Cypher.ParseDictSchema | graphlib/neo4j.py:294-320 | the dict schema yields the node statements numbered from 0. The relationship statements follow, numbered from the node count, with endpoints bounded by the last node index |
| Cypher.ParseArraySchema | graphlib/neo4j.py:323-339 | the array schema yields one statement per item, in order; a relationship item may refer to any earlier position, including its own |
| Cypher.Parse | graphlib/neo4j.py:342-347 | a dict goes to the dict schema, a list to the array schema, anything else is a ValueError |

## Left out

- `relate` self-loops: a Rel from a node to itself is stored under both `_outgoing` and `_incoming` of the same node. The model handles it, but no degree or neighbour claim is made for it.
- Node.RelateAll: nested lists (a list element that is itself a list) are not modelled; each element is one node or a non-node. The contract states the ends and type of each Rel, but not the merged props and hints of each step. Those are stated for one element by Node.Relate and Node.RelateOne, and the list applies them element by element.
- `relclass` and subclassing of `Rel`/`Node`: the model has one relationship and one node kind.
- Node.Unrelate: the `requires Consistent(g)` of every node operation is the reachable-state invariant; states the library cannot reach are not considered.
- The `unrelate` loops walk dict keys in Python's iteration order, which the model leaves unspecified (elements are picked with `:|`). The results are order-independent, and only they are stated.
- `DictSeq.match` (a regular-expression search over the name map): regular expressions are not modelled.
- Views.Sort: a list or tuple used as a sort key, and objects defining their own ordering, are treated as incomparable, although Python orders lists element-wise. Floats are finite; NaN and the infinities are not modelled.
- Views.Filter: the `==` of a given value treats an arbitrary object (a dict, a set, an instance) as equal to nothing, although Python compares such objects by their own `__eq__` or by identity. It also treats a list and a tuple alike, and str and bytes alike, which Python does not.
- Views.Eq: the other side's elements are items; a sequence holding other objects, and a dict compared by key lookup, are not modelled.
- Views.ItemKey stands for `str(item).lower()` and is modelled as injective, one lower-case name per entity. This holds in Python for nodes, whose repr shows `id()`. It does not always hold for Rels, whose repr is `Rel(<start>-TYPE-><end>)`. Two Rels between the same nodes whose types differ only in letter case share a name, and so do a removed Rel and one re-created with the same ends and type. In Python the later one shadows the earlier in the name index; the model does not have such collisions.
- `convert_array_to_dict` mutates the input records in place, so the caller's list is changed too. The model returns new records and does not model the aliasing.
- `convert_dict_to_array` is not modelled: as written it unpacks `enumerate` into a tuple and returns its input, so no round trip with `convert_array_to_dict` holds.
- The module-level `serialize` helper, `graphlib/serialize.py` and the batch helpers are thin wrappers or I/O and are not modelled.
- I/O is not modelled: `send_request`, `load`, the command-line entry point and the `stream` printing of `parse`. The model returns the list `parse` appends to when it does not stream.
- Serializer.Serialize: a list holding a non-entity (say `None`) is not modelled. Python raises AttributeError only when that element is popped; the entities emitted before it stay in the output and the rest of the stack is left for the next call.
- Strings.Lower folds ASCII letters only, unlike `str.lower()`. Names are abstract here, so this does not change any claim.
- Cypher.Stringify: `repr` of strings is simplified (no escapes; bytes are not distinguished from str; other objects render as a placeholder), so only the shape of the output is stated.
- Cypher.ParseRelSpec: `int(start)`/`int(end)` are modelled for ints and absent values only; strings convertible by `int` are not.
- Cypher.ParseNodeSpec: a non-string `type`, non-list `labels` and a non-dict `props` are not modelled; property keys of other objects are assumed hashable.
- Cypher.CleanProps: Python reports the first bad entry in dict order. The model reports the non-string key when both kinds of bad entry occur, so only "TypeError or KeyError" is stated for an unstorable value alone.
- Cypher.CheckPropType: the error message is formatted with a named placeholder and a positional argument, so the formatting raises KeyError before the intended TypeError; the model raises KeyError, as the code does.
- Concurrency, Python 2 `unicode` aliasing and `__repr__` are not modelled.
