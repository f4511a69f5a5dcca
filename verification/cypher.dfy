/** The pure half of the Neo4j exporter (graphlib/neo4j.py): cleans and picks property maps,
    decides between CREATE and MERGE, and assembles Cypher statements, one per node and per
    relationship of either input shape. */
module Cypher {
  import opened Wrappers
  import opened Values
  import opened Strings

  /** A property map after `clean_props`: string keys, no `None` values. */
  type CleanMap = map<string, Value>

  // ---------------------------------------------------------------- rendering

  /** `cref(index)`: the reference name of the entity at position `index`. */
  function Cref(index: nat): (r: string)
    ensures |r| > 1 && r[0] == 'x'
    ensures forall i :: 1 <= i < |r| ==> IsDigit(r[i])
    ensures ParseNat(r[1..]) == index
  {
    var digits := NatToString(index);
    NatToStringRoundTrip(index);
    var r := "x" + digits;
    assert r[1..] == digits;
    r
  }

  /** Distinct positions get distinct reference names. */
  lemma CrefInjective(a: nat, b: nat)
    requires Cref(a) == Cref(b)
    ensures a == b
  {
  }

  /** Python's `repr` of an int. */
  function IntToString(i: int): string {
    if i < 0 then "-" + NatToString(-i) else NatToString(i)
  }

  /** `stringify(value)`: lists element-wise inside brackets, strings quoted, every bool as
      `true`, anything else by its Python `repr`. */
  function Stringify(v: Value): (r: string)
    ensures v.List? ==> |r| >= 2 && r[0] == '[' && r[|r| - 1] == ']'
    decreases v
  {
    match v
    case List(xs) =>
      var parts := seq(|xs|, i requires 0 <= i < |xs| => Stringify(xs[i]));
      "[" + Join(", ", parts) + "]"
    case Str(s) => "'" + s + "'"
    case Bool(_) => "true"
    case Int(i) => IntToString(i)
    case Float(text, _) => text
    case Null => "None"
    case Object(_) => "<object>"
  }

  /** The bool branch ignores the value: `False` renders like `True`. */
  lemma StringifyBool(b: bool)
    ensures Stringify(Bool(b)) == Stringify(Bool(true))
  {
  }

  /** One token per key, keys in ascending order: `pre + key + sep + stringify(value)`. */
  function Tokens(p: CleanMap, pre: string, sep: string): (t: seq<string>)
    ensures |t| == |p|
    ensures forall i :: 0 <= i < |t| ==> t[i] == pre + SortedKeys(p.Keys)[i] + sep + Stringify(p[SortedKeys(p.Keys)[i]])
  {
    var ks := SortedKeys(p.Keys);
    assert |p| == |p.Keys|;
    seq(|ks|, i requires 0 <= i < |ks| => pre + ks[i] + sep + Stringify(p[ks[i]]))
  }

  /** `dict_props(props)`: `''` for no properties, else ` {k1: v1, k2: v2}` in key order. */
  function DictProps(p: CleanMap): (r: string)
    ensures r == "" <==> p == map[]
    ensures p != map[] ==> r == " {" + Join(", ", Tokens(p, "", ": ")) + "}"
  {
    if p == map[] then "" else " {" + Join(", ", Tokens(p, "", ": ")) + "}"
  }

  /** `keyword_props(ref, props)`: `''` for no properties, else ` ref.k1 = v1, ref.k2 = v2`. */
  function KeywordProps(ref: string, p: CleanMap): (r: string)
    ensures r == "" <==> p == map[]
    ensures p != map[] ==> r == " " + Join(", ", Tokens(p, ref + ".", " = "))
  {
    if p == map[] then "" else " " + Join(", ", Tokens(p, ref + ".", " = "))
  }

  /** `labels_suffix(labels)`: `''` without labels, else `:A:B`, which splits back into the
      labels when none of them contains a colon. */
  function LabelsSuffix(labels: seq<string>): (r: string)
    ensures r == "" <==> labels == []
    ensures labels != [] ==> r[0] == ':'
    ensures labels != [] && (forall i :: 0 <= i < |labels| ==> ':' !in labels[i]) ==>
      SplitOn(':', r[1..]) == labels
  {
    if labels == [] then ""
    else
      var r := ":" + Join(":", labels);
      assert r[1..] == Join([':'], labels);
      if forall i :: 0 <= i < |labels| ==> ':' !in labels[i] then SplitJoin(':', labels); r else r
  }

  /** `oncreate_stmt(ref, props)`: nothing for no properties, else sets the whole map on
      creation. */
  function OnCreate(ref: string, p: CleanMap): (r: string)
    ensures r == "" <==> p == map[]
    ensures p != map[] ==> r == " ON CREATE SET " + ref + " =" + DictProps(p)
  {
    if p == map[] then "" else " ON CREATE SET " + ref + " =" + DictProps(p)
  }

  /** `onmatch_stmt(ref, props, replace)`: nothing for no properties; else replaces the whole
      map, or assigns key by key. */
  function OnMatch(ref: string, p: CleanMap, replace: bool): (r: string)
    ensures r == "" <==> p == map[]
    ensures p != map[] && replace ==> r == " ON MATCH SET " + ref + " =" + DictProps(p)
    ensures p != map[] && !replace ==> r == " ON MATCH SET" + KeywordProps(ref, p)
  {
    if p == map[] then ""
    else if replace then " ON MATCH SET " + ref + " =" + DictProps(p)
    else " ON MATCH SET" + KeywordProps(ref, p)
  }

  /** `None` and `{}` render alike: both are falsy. */
  function Flat(p: Option<CleanMap>): CleanMap {
    p.GetOr(map[])
  }

  /** Position `at` of `text` holds a reference name that reads back as `index`: an `x`, then
      the digits of `index`, then no further digit. */
  predicate NamesRef(text: string, at: nat, index: nat) {
    at < |text| && text[at] == 'x' && ParseNat(LeadingDigits(text[at + 1..])) == index
  }

  /** `text` ends with a reference name that reads back as `index`, then `)`. */
  predicate EndsWithRef(text: string, index: nat) {
    |text| > |Cref(index)| && NamesRef(text, |text| - |Cref(index)| - 1, index)
  }

  /** A reference name followed by anything but a digit can be read back. */
  lemma RefReadBack(pre: string, index: nat, rest: string)
    requires rest == "" || !IsDigit(rest[0])
    ensures NamesRef(pre + Cref(index) + rest, |pre|, index)
  {
    var text := pre + Cref(index) + rest;
    var digits := Cref(index)[1..];
    assert text[|pre|] == 'x';
    assert text[|pre| + 1..] == digits + rest;
    LeadingDigitsOf(digits, rest);
  }

  /** The properties text starts with a space when there is one. */
  lemma DictPropsLead(p: CleanMap)
    ensures DictProps(p) == "" || DictProps(p)[0] == ' '
  {
  }

  /** Three pieces, each empty or not starting with a digit, the last one non-empty: their
      concatenation does not start with a digit. */
  lemma LeadNotDigit(a: string, b: string, c: string)
    requires a == "" || !IsDigit(a[0])
    requires b == "" || !IsDigit(b[0])
    requires c != "" && !IsDigit(c[0])
    ensures !IsDigit((a + b + c)[0])
  {
    if a == "" {
      assert a + b + c == b + c;
    }
  }

  /** A node pattern `kw (ref labels props)` followed by `more`: the reference reads back. */
  lemma NodePatternRef(kw: string, index: nat, l: string, d: string, more: string)
    requires l == "" || !IsDigit(l[0])
    requires d == "" || !IsDigit(d[0])
    ensures NamesRef(kw + Cref(index) + l + d + ")" + more, |kw|, index)
  {
    LeadNotDigit(l, d, ")" + more);
    RefReadBack(kw, index, l + d + (")" + more));
    assert kw + Cref(index) + l + d + ")" + more == kw + Cref(index) + (l + d + (")" + more));
  }

  /** The reference of a CREATE node statement reads back as its index. */
  lemma CreateNodeRef(index: nat, p: CleanMap, labels: seq<string>)
    ensures NamesRef("CREATE (" + Cref(index) + LabelsSuffix(labels) + DictProps(p) + ")", 8, index)
  {
    DictPropsLead(p);
    NodePatternRef("CREATE (", index, LabelsSuffix(labels), DictProps(p), "");
    assert "CREATE (" + Cref(index) + LabelsSuffix(labels) + DictProps(p) + ")" + ""
        == "CREATE (" + Cref(index) + LabelsSuffix(labels) + DictProps(p) + ")";
  }

  /** The reference of a MERGE node statement reads back as its index. */
  lemma MergeNodeRef(index: nat, p: CleanMap, labels: seq<string>, clauses: string)
    ensures NamesRef("MERGE (" + Cref(index) + LabelsSuffix(labels) + DictProps(p) + ")" + clauses, 7, index)
  {
    DictPropsLead(p);
    NodePatternRef("MERGE (", index, LabelsSuffix(labels), DictProps(p), clauses);
  }

  /** `create_node_stmt(index, props, labels)`: `CREATE (ref:labels {props})`, whose reference
      reads back as `index`. */
  function CreateNodeStmt(index: nat, p: CleanMap, labels: seq<string>): (r: string)
    ensures r == "CREATE (" + Cref(index) + LabelsSuffix(labels) + DictProps(p) + ")"
    ensures NamesRef(r, 8, index)
  {
    CreateNodeRef(index, p, labels);
    "CREATE (" + Cref(index) + LabelsSuffix(labels) + DictProps(p) + ")"
  }

  /** `merge_node_stmt(index, props, cprops, uprops, labels, replace)`: matches on `p`, then
      the creation and match clauses; the reference reads back as `index`. */
  function MergeNodeStmt(index: nat, p: CleanMap, cp: CleanMap, up: CleanMap, labels: seq<string>, replace: bool): (r: string)
    ensures r == "MERGE (" + Cref(index) + LabelsSuffix(labels) + DictProps(p) + ")"
                 + (OnCreate(Cref(index), cp) + OnMatch(Cref(index), up, replace))
    ensures NamesRef(r, 7, index)
  {
    var clauses := OnCreate(Cref(index), cp) + OnMatch(Cref(index), up, replace);
    MergeNodeRef(index, p, labels, clauses);
    "MERGE (" + Cref(index) + LabelsSuffix(labels) + DictProps(p) + ")" + clauses
  }

  /** Regrouping a concatenation after its second piece. */
  lemma Regroup8(a: string, b: string, c: string, d: string, e: string, f: string, g: string, h: string)
    ensures a + b + c + d + e + f + g + h == a + b + (c + d + e + f + g + h)
  {
  }

  /** A closing reference name, as in `(end)`, reads back. */
  lemma EndRef(pre: string, index: nat)
    ensures EndsWithRef(pre + Cref(index) + ")", index)
  {
    RefReadBack(pre, index, ")");
  }

  /** Both endpoint references of a CREATE relationship statement read back. */
  lemma CreateRelRefs(n1: nat, rtype: string, n2: nat, d: string)
    ensures var t := "CREATE (" + Cref(n1) + ")-[:" + rtype + d + "]->(" + Cref(n2) + ")";
      NamesRef(t, 8, n1) && EndsWithRef(t, n2)
  {
    RefReadBack("CREATE (", n1, ")-[:" + rtype + d + "]->(" + Cref(n2) + ")");
    Regroup8("CREATE (", Cref(n1), ")-[:", rtype, d, "]->(", Cref(n2), ")");
    EndRef("CREATE (" + Cref(n1) + ")-[:" + rtype + d + "]->(", n2);
  }

  /** `create_rel_stmt(index, n1, rtype, n2, props)`: `CREATE (start)-[:type {props}]->(end)`;
      the relationship gets no reference name, and both endpoint references read back. */
  function CreateRelStmt(n1: nat, rtype: string, n2: nat, p: CleanMap): (r: string)
    ensures r == "CREATE (" + Cref(n1) + ")-[:" + rtype + DictProps(p) + "]->(" + Cref(n2) + ")"
    ensures NamesRef(r, 8, n1)
    ensures EndsWithRef(r, n2)
  {
    CreateRelRefs(n1, rtype, n2, DictProps(p));
    "CREATE (" + Cref(n1) + ")-[:" + rtype + DictProps(p) + "]->(" + Cref(n2) + ")"
  }

  /** The start and relationship references of a MERGE relationship statement read back. */
  lemma MergeRelRefs(index: nat, n1: nat, tail: string)
    requires tail != "" && tail[0] == ':'
    ensures var t := "MERGE (" + Cref(n1) + ")-[" + Cref(index) + tail;
      NamesRef(t, 7, n1) && NamesRef(t, 10 + |Cref(n1)|, index)
  {
    RefReadBack("MERGE (", n1, ")-[" + Cref(index) + tail);
    assert "MERGE (" + Cref(n1) + ")-[" + Cref(index) + tail == "MERGE (" + Cref(n1) + (")-[" + Cref(index) + tail);
    RefReadBack("MERGE (" + Cref(n1) + ")-[", index, tail);
  }

  /** `merge_rel_stmt(index, n1, rtype, n2, props, cprops, uprops, replace)`: the relationship
      is named by `cref(index)`, which the creation and match clauses refer to; the start and
      relationship references read back. */
  function MergeRelStmt(index: nat, n1: nat, rtype: string, n2: nat, p: CleanMap, cp: CleanMap, up: CleanMap, replace: bool): (r: string)
    ensures r == "MERGE (" + Cref(n1) + ")-[" + Cref(index)
                 + (":" + rtype + DictProps(p) + "]->(" + Cref(n2) + ")" + OnCreate(Cref(index), cp) + OnMatch(Cref(index), up, replace))
    ensures NamesRef(r, 7, n1)
    ensures NamesRef(r, 10 + |Cref(n1)|, index)
  {
    var tail := ":" + rtype + DictProps(p) + "]->(" + Cref(n2) + ")" + OnCreate(Cref(index), cp) + OnMatch(Cref(index), up, replace);
    MergeRelRefs(index, n1, tail);
    "MERGE (" + Cref(n1) + ")-[" + Cref(index) + tail
  }

  // ---------------------------------------------------------------- cleaning and picking

  /** The value types Neo4j stores: bool, int, float, str and bytes. */
  predicate Primitive(v: Value) {
    v.Bool? || v.Int? || v.Float? || v.Str?
  }

  /** A value `clean_props` accepts: a primitive, or a list or tuple of primitives. */
  predicate Storable(v: Value) {
    if v.List? then forall x :: x in v.items ==> Primitive(x) else Primitive(v)
  }

  /** `check_prop_type(value)`. Its error message is built with a named placeholder and a
      positional argument, so the formatting itself raises `KeyError` before the intended
      `TypeError`. */
  function CheckPropType(v: Value): (r: Result<Value>)
    ensures r.Success? <==> Primitive(v)
    ensures r.Success? ==> r.value == v
    ensures r.Failure? ==> r.error == KeyError
  {
    if Primitive(v) then Success(v) else Failure(KeyError)
  }

  /** One value of `clean_props`: a list is checked element by element (the first bad element
      raises), anything else as a whole. */
  function CleanValue(v: Value): (r: Result<Value>)
    ensures r.Success? <==> Storable(v)
    ensures r.Success? ==> r.value == v
  {
    if v.List? then CleanList(v.items, 0) else CheckPropType(v)
  }

  function CleanList(xs: seq<Value>, i: nat): (r: Result<Value>)
    requires i <= |xs|
    ensures r.Success? <==> forall j :: i <= j < |xs| ==> Primitive(xs[j])
    ensures r.Success? ==> r.value == List(xs)
    decreases |xs| - i
  {
    if i == |xs| then Success(List(xs))
    else match CheckPropType(xs[i])
      case Failure(e) => Failure(e)
      case Success(_) => CleanList(xs, i + 1)
  }

  /** An entry `clean_props` keeps. */
  predicate Kept(p: PropMap, k: Key) {
    k in p && p[k] != Null
  }

  /** An entry `clean_props` rejects: a kept entry with a non-string key or a value Neo4j
      cannot store. */
  predicate Rejected(p: PropMap, k: Key) {
    Kept(p, k) && (k.OtherKey? || !Storable(p[k]))
  }

  /** The map `clean_props` builds when nothing is rejected. */
  function KeptMap(p: PropMap): (c: CleanMap)
    ensures forall s :: s in c <==> Kept(p, Name(s))
    ensures forall s :: s in c ==> Name(s) in p && c[s] == p[Name(s)]
  {
    map k | k in p.Keys && k.Name? && p[k] != Null :: k.name := p[k]
  }

  /** `clean_props(props)`: `None` for an empty map; otherwise the entries whose value is not
      `None`, failing on a non-string key (`TypeError`) or a value Neo4j cannot store. Python
      walks the dict in insertion order, which a map does not keep: when both kinds of bad
      entry are present the model reports the non-string key. */
  function CleanProps(p: PropMap): (r: Result<Option<CleanMap>>)
    ensures r == Success(None) <==> p == map[]
    ensures r.Failure? <==> exists k :: Rejected(p, k)
    ensures r.Failure? ==> r.error == TypeError || r.error == KeyError
    ensures (exists k :: Rejected(p, k) && k.OtherKey?) ==> r == Failure(TypeError)
    ensures r.Success? && r.value.Some? ==> forall s :: s in r.value.value <==> Kept(p, Name(s))
    ensures r.Success? && r.value.Some? ==> forall s :: s in r.value.value ==> Name(s) in p && r.value.value[s] == p[Name(s)]
  {
    if p == map[] then Success(None)
    else if exists k :: k in p && Rejected(p, k) && k.OtherKey? then Failure(TypeError)
    else if exists k :: k in p && Rejected(p, k) then
      var k :| k in p && Rejected(p, k);
      assert CleanValue(p[k]).Failure?;
      Failure(KeyError)
    else Success(Some(KeptMap(p)))
  }

  /** `pick(props, keys)`: the listed keys with their values. A key that is not in the map
      raises `KeyError`; looking a key up in `None`, or looking up an unhashable list, raises
      `TypeError`. */
  function Pick(p: Option<CleanMap>, keys: seq<Value>): (r: Result<CleanMap>)
    ensures r.Success? <==> keys == [] || (p.Some? && forall k :: k in keys ==> k.Str? && k.s in p.value)
    ensures r.Failure? ==> r.error == TypeError || r.error == KeyError
    ensures r.Failure? && p.Some? && (forall k :: k in keys ==> !k.List?) ==> r.error == KeyError
    ensures r.Success? ==> forall s :: s in r.value <==> Str(s) in keys
    ensures r.Success? ==> forall s :: s in r.value ==> p.Some? && s in p.value && r.value[s] == p.value[s]
    decreases |keys|
  {
    if keys == [] then Success(map[])
    else
      var k := keys[0];
      assert k in keys;
      assert forall x :: x in keys <==> x == k || x in keys[1..];
      if p.None? || k.List? then Failure(TypeError)
      else if !(k.Str? && k.s in p.value) then Failure(KeyError)
      else match Pick(p, keys[1..])
        case Failure(e) => Failure(e)
        case Success(rest) => Success(rest[k.s := p.value[k.s]])
  }

  /** A `match` or `update` argument that picks successfully: a falsy one asks for nothing,
      a truthy one must be a list of keys of the cleaned map. */
  predicate Picks(arg: Value, p: Option<CleanMap>) {
    !Truthy(arg) || (arg.List? && p.Some? && forall k :: k in arg.items ==> k.Str? && k.s in p.value)
  }

  /** `parse_match_props(match, props)`. */
  function ParseMatchProps(arg: Value, p: Option<CleanMap>): (r: Result<CleanMap>)
    ensures r.Success? <==> Picks(arg, p)
    ensures r.Failure? && Truthy(arg) && !arg.List? ==> r.error == ValueError
    ensures r.Success? ==> (r.value == map[] <==> !Truthy(arg))
    ensures r.Success? ==> forall s :: s in r.value ==> p.Some? && s in p.value && r.value[s] == p.value[s]
  {
    if !Truthy(arg) then Success(map[])
    else if arg.List? then
      assert arg.items[0] in arg.items;
      Pick(p, arg.items)
    else Failure(ValueError)
  }

  /** `parse_update_props(update, props)`: a falsy argument keeps all of `props`. */
  function ParseUpdateProps(arg: Value, p: Option<CleanMap>): (r: Result<Option<CleanMap>>)
    ensures r.Success? <==> Picks(arg, p)
    ensures r.Failure? && Truthy(arg) && !arg.List? ==> r.error == ValueError
    ensures r.Success? && !Truthy(arg) ==> r.value == p
    ensures r.Success? && Truthy(arg) ==> r.value.Some? && forall s :: s in r.value.value <==> Str(s) in arg.items
    ensures r.Success? && Truthy(arg) ==>
      forall s :: s in r.value.value ==> p.Some? && s in p.value && r.value.value[s] == p.value[s]
  {
    if !Truthy(arg) then Success(p)
    else if arg.List? then
      match Pick(p, arg.items)
      case Failure(e) => Failure(e)
      case Success(m) => Success(Some(m))
    else Failure(ValueError)
  }

  // ---------------------------------------------------------------- nodes and relationships

  /** One object of the input (a Python dict), with the defaults `dict.get` supplies. */
  datatype Entry = Entry(
    isRel: bool,          // `'type' in item`
    start: Option<int>,   // `int(item['start'])`; `None` when absent
    end: Option<int>,     // `int(item['end'])`; `None` when absent
    rtype: string,        // `item.get('type')`; `""` when absent or `None`
    props: PropMap,       // `item.get('props', {})`; an absent or `None` map is empty
    matchArg: Value,      // `item.get('match')`: `Null` when absent
    updateArg: Value,     // `item.get('update')`: `Null` when absent
    replace: Value,       // `item.get('replace', False)`
    labels: seq<string>)  // `item.get('labels')`; `[]` when absent

  /** What `props` becomes once cleaned. */
  function Cleaned(e: Entry): Option<CleanMap>
    requires CleanProps(e.props).Success?
  {
    CleanProps(e.props).value
  }

  /** `parse_node(index, node)`: CREATE unless the node asks to match on some properties,
      in which case MERGE on exactly those. */
  function ParseNode(index: nat, e: Entry): Result<string>
  {
    if !e.replace.Bool? then Failure(AssertionError)
    else match CleanProps(e.props)
      case Failure(err) => Failure(err)
      case Success(p) => NodeStatement(index, e, p)
  }

  /** What `parse_node` promises: when it fails, and which statement it builds. */
  lemma ParseNodeSpec(index: nat, e: Entry)
    ensures ParseNode(index, e).Success? <==>
      && e.replace.Bool? && CleanProps(e.props).Success?
      && Picks(e.matchArg, Cleaned(e))
      && (Truthy(e.matchArg) ==> Picks(e.updateArg, Cleaned(e)))
    ensures !e.replace.Bool? ==> ParseNode(index, e) == Failure(AssertionError)
    ensures ParseNode(index, e).Success? && !Truthy(e.matchArg) ==>
      ParseNode(index, e).value == CreateNodeStmt(index, Flat(Cleaned(e)), e.labels)
    ensures ParseNode(index, e).Success? && Truthy(e.matchArg) ==>
      ParseNode(index, e).value == MergeNodeStmt(index, ParseMatchProps(e.matchArg, Cleaned(e)).value,
        Flat(Cleaned(e)), Flat(ParseUpdateProps(e.updateArg, Cleaned(e)).value), e.labels, e.replace.b)
  {
  }

  /** The rest of `parse_node`, once `props` is cleaned into `p`: CREATE with all of `p` when
      `match` is falsy, else MERGE on the picked keys, creating with all of `p` and updating
      with the `update` pick. */
  function NodeStatement(index: nat, e: Entry, p: Option<CleanMap>): (r: Result<string>)
    requires e.replace.Bool?
    ensures r.Success? <==> Picks(e.matchArg, p) && (Truthy(e.matchArg) ==> Picks(e.updateArg, p))
    ensures r.Success? && !Truthy(e.matchArg) ==> r.value == CreateNodeStmt(index, Flat(p), e.labels)
    ensures r.Success? && Truthy(e.matchArg) ==>
      r.value == MergeNodeStmt(index, ParseMatchProps(e.matchArg, p).value, Flat(p),
                               Flat(ParseUpdateProps(e.updateArg, p).value), e.labels, e.replace.b)
  {
    match ParseMatchProps(e.matchArg, p)
    case Failure(err) => Failure(err)
    case Success(mp) =>
      if e.matchArg == Bool(false) || mp == map[] then
        Success(CreateNodeStmt(index, Flat(p), e.labels))
      else match ParseUpdateProps(e.updateArg, p)
        case Failure(err) => Failure(err)
        case Success(up) => Success(MergeNodeStmt(index, mp, Flat(p), Flat(up), e.labels, e.replace.b))
  }

  /** Both endpoints are given and lie within `[0, bound]`. */
  predicate InBounds(e: Entry, bound: int) {
    e.start.Some? && e.end.Some? && 0 <= e.start.value <= bound && 0 <= e.end.value <= bound
  }

  /** `parse_rel(index, rel, bound)`: endpoints within `[0, bound]`, a non-empty type and a bool
      `replace`; CREATE only when `match` is `False`, MERGE otherwise. */
  function ParseRel(index: nat, e: Entry, bound: int): Result<string>
  {
    if e.start.None? || e.end.None? then Failure(TypeError)
    else if !InBounds(e, bound) || e.rtype == "" || !e.replace.Bool? then Failure(AssertionError)
    else match CleanProps(e.props)
      case Failure(err) => Failure(err)
      case Success(p) => RelStatement(index, e, e.start.value, e.end.value, p)
  }

  /** What `parse_rel` promises: when it fails, and which statement it builds. */
  lemma ParseRelSpec(index: nat, e: Entry, bound: int)
    ensures ParseRel(index, e, bound).Success? <==>
      && InBounds(e, bound) && e.rtype != "" && e.replace.Bool? && CleanProps(e.props).Success?
      && (e.matchArg != Bool(false) ==> Picks(e.matchArg, Cleaned(e)) && Picks(e.updateArg, Cleaned(e)))
    ensures e.start.None? || e.end.None? ==> ParseRel(index, e, bound) == Failure(TypeError)
    ensures e.start.Some? && e.end.Some? && !InBounds(e, bound) ==> ParseRel(index, e, bound) == Failure(AssertionError)
    ensures ParseRel(index, e, bound).Success? && e.matchArg == Bool(false) ==>
      ParseRel(index, e, bound).value == CreateRelStmt(e.start.value, e.rtype, e.end.value, Flat(Cleaned(e)))
    ensures ParseRel(index, e, bound).Success? && e.matchArg != Bool(false) ==>
      ParseRel(index, e, bound).value == MergeRelStmt(index, e.start.value, e.rtype, e.end.value,
        ParseMatchProps(e.matchArg, Cleaned(e)).value, Flat(Cleaned(e)),
        Flat(ParseUpdateProps(e.updateArg, Cleaned(e)).value), e.replace.b)
  {
  }

  /** The rest of `parse_rel`, once the endpoints are checked and `props` is cleaned into `p`:
      CREATE only when `match` is `False`; else MERGE on the picked keys (none for a falsy
      `match`), creating with all of `p` and updating with the `update` pick. */
  function RelStatement(index: nat, e: Entry, n1: nat, n2: nat, p: Option<CleanMap>): (r: Result<string>)
    requires e.replace.Bool?
    ensures r.Success? <==> e.matchArg != Bool(false) ==> Picks(e.matchArg, p) && Picks(e.updateArg, p)
    ensures r.Success? && e.matchArg == Bool(false) ==> r.value == CreateRelStmt(n1, e.rtype, n2, Flat(p))
    ensures r.Success? && e.matchArg != Bool(false) ==>
      r.value == MergeRelStmt(index, n1, e.rtype, n2, ParseMatchProps(e.matchArg, p).value, Flat(p),
                              Flat(ParseUpdateProps(e.updateArg, p).value), e.replace.b)
  {
    if e.matchArg == Bool(false) then Success(CreateRelStmt(n1, e.rtype, n2, Flat(p)))
    else
      match (if Truthy(e.matchArg) then ParseMatchProps(e.matchArg, p) else Success(map[]))
      case Failure(err) => Failure(err)
      case Success(mp) =>
        match ParseUpdateProps(e.updateArg, p)
        case Failure(err) => Failure(err)
        case Success(up) => Success(MergeRelStmt(index, n1, e.rtype, n2, mp, Flat(p), Flat(up), e.replace.b))
  }

  // ---------------------------------------------------------------- schemas

  /** The statements of a run of builders, in order, as the parse appends them to its list;
      the first failing builder's exception ends the parse. */
  function RunAll(rs: seq<Result<string>>): (r: Result<seq<string>>)
    ensures r.Success? <==> forall k :: 0 <= k < |rs| ==> rs[k].Success?
    ensures r.Success? ==> |r.value| == |rs| && forall k :: 0 <= k < |rs| ==> r.value[k] == rs[k].value
    ensures r.Failure? ==> exists k :: 0 <= k < |rs| && rs[k].Failure? && r.error == rs[k].error
                                      && forall i :: 0 <= i < k ==> rs[i].Success?
    decreases |rs|
  {
    if rs == [] then Success([])
    else match rs[0]
      case Failure(e) => Failure(e)
      case Success(stmt) =>
        var rest := RunAll(rs[1..]);
        if rest.Failure? then
          var k :| 0 <= k < |rs[1..]| && rs[1..][k].Failure? && rest.error == rs[1..][k].error
                   && forall i :: 0 <= i < k ==> rs[1..][i].Success?;
          assert rs[k + 1].Failure?;
          assert forall i :: 0 <= i < k + 1 ==> rs[i].Success? by {
            forall i | 0 <= i < k + 1 ensures rs[i].Success? {
              if i > 0 {
                assert rs[i] == rs[1..][i - 1];
              }
            }
          }
          rest
        else
          assert forall k :: 1 <= k < |rs| ==> rs[k] == rs[1..][k - 1];
          Success([stmt] + rest.value)
  }

  /** The node statements of `_parse_dict_schema`: numbered `0..n-1`. */
  function NodeResults(nodes: seq<Entry>): (rs: seq<Result<string>>)
    ensures |rs| == |nodes|
    ensures forall i :: 0 <= i < |nodes| ==> rs[i] == ParseNode(i, nodes[i])
  {
    seq(|nodes|, i requires 0 <= i < |nodes| => ParseNode(i, nodes[i]))
  }

  /** The relationship statements of `_parse_dict_schema`: numbered from `offset`, the number
      of nodes, and bounded by the last node position `offset - 1`. */
  function RelResults(rels: seq<Entry>, offset: nat): (rs: seq<Result<string>>)
    ensures |rs| == |rels|
    ensures forall j :: 0 <= j < |rels| ==> rs[j] == ParseRel(offset + j, rels[j], offset - 1)
  {
    seq(|rels|, j requires 0 <= j < |rels| => ParseRel(offset + j, rels[j], offset - 1))
  }

  /** `_parse_array_schema`: an item with a `type` is a relationship bounded by its own
      position, any other item a node. */
  function ArrayResults(items: seq<Entry>): (rs: seq<Result<string>>)
    ensures |rs| == |items|
    ensures forall i :: 0 <= i < |items| ==>
      rs[i] == if items[i].isRel then ParseRel(i, items[i], i) else ParseNode(i, items[i])
  {
    seq(|items|, i requires 0 <= i < |items| => if items[i].isRel then ParseRel(i, items[i], i) else ParseNode(i, items[i]))
  }

  /** The input of `parse`: a dict with `nodes` and `rels` lists (missing ones empty), a list
      or tuple of items, or anything else. */
  datatype Data = DictData(nodes: seq<Entry>, rels: seq<Entry>) | ArrayData(items: seq<Entry>) | OtherData

  /** The node statements of `_parse_dict_schema`, the first failure ending the parse. */
  function NodeStatements(nodes: seq<Entry>): (r: Result<seq<string>>)
    ensures r.Success? <==> forall i :: 0 <= i < |nodes| ==> ParseNode(i, nodes[i]).Success?
    ensures r.Success? ==> |r.value| == |nodes| && forall i :: 0 <= i < |nodes| ==> r.value[i] == ParseNode(i, nodes[i]).value
  {
    RunAll(NodeResults(nodes))
  }

  /** The relationship statements of `_parse_dict_schema`, the first failure ending the parse. */
  function RelStatements(rels: seq<Entry>, offset: nat): (r: Result<seq<string>>)
    ensures r.Success? <==> forall j :: 0 <= j < |rels| ==> ParseRel(offset + j, rels[j], offset - 1).Success?
    ensures r.Success? ==> |r.value| == |rels| && forall j :: 0 <= j < |rels| ==>
      r.value[j] == ParseRel(offset + j, rels[j], offset - 1).value
  {
    RunAll(RelResults(rels, offset))
  }

  /** `_parse_dict_schema(data)` without streaming: every node statement, then every
      relationship statement. */
  function ParseDictSchema(nodes: seq<Entry>, rels: seq<Entry>): (r: Result<seq<string>>)
    ensures r.Success? <==>
      && (forall i :: 0 <= i < |nodes| ==> ParseNode(i, nodes[i]).Success?)
      && (forall j :: 0 <= j < |rels| ==> ParseRel(|nodes| + j, rels[j], |nodes| - 1).Success?)
    ensures r.Success? ==> |r.value| == |nodes| + |rels|
    ensures r.Success? ==> forall i :: 0 <= i < |nodes| ==> r.value[i] == ParseNode(i, nodes[i]).value
    ensures r.Success? ==> forall j :: 0 <= j < |rels| ==>
      r.value[|nodes| + j] == ParseRel(|nodes| + j, rels[j], |nodes| - 1).value
  {
    match NodeStatements(nodes)
    case Failure(e) => Failure(e)
    case Success(a) =>
      match RelStatements(rels, |nodes|)
      case Failure(e) => Failure(e)
      case Success(b) =>
        AppendIndex(a, b);
        Success(a + b)
  }

  /** Where the two halves of a concatenation sit. */
  lemma AppendIndex(a: seq<string>, b: seq<string>)
    ensures forall i :: 0 <= i < |a| ==> (a + b)[i] == a[i]
    ensures forall j :: 0 <= j < |b| ==> (a + b)[|a| + j] == b[j]
  {
  }

  /** `_parse_array_schema(data)` without streaming. */
  function ParseArraySchema(items: seq<Entry>): (r: Result<seq<string>>)
    ensures r.Success? <==> forall i :: 0 <= i < |items| ==>
      if items[i].isRel then ParseRel(i, items[i], i).Success? else ParseNode(i, items[i]).Success?
    ensures r.Success? ==> |r.value| == |items| && forall i :: 0 <= i < |items| ==>
      r.value[i] == if items[i].isRel then ParseRel(i, items[i], i).value else ParseNode(i, items[i]).value
  {
    RunAll(ArrayResults(items))
  }

  /** `parse(data)` without streaming: the statements of either input shape, `ValueError` for
      any other input. */
  function Parse(data: Data): (r: Result<seq<string>>)
    ensures data.OtherData? ==> r == Failure(ValueError)
    ensures data.DictData? ==> r == ParseDictSchema(data.nodes, data.rels)
    ensures data.ArrayData? ==> r == ParseArraySchema(data.items)
  {
    match data
    case DictData(nodes, rels) => ParseDictSchema(nodes, rels)
    case ArrayData(items) => ParseArraySchema(items)
    case OtherData => Failure(ValueError)
  }
}
