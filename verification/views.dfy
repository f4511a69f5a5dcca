/** The immutable ordered containers that queries return: `DictSeq` and its subclasses
    `Rels` and `Nodes` (graphlib/graph.py). A view is a sequence of graph entities that can
    also be indexed by a case-insensitive name. */
module Views {
  import opened Wrappers
  import opened Values
  import opened Graph
  import opened Strings

  /** An element of a view: a node or a relationship of the graph. */
  datatype Item = NodeItem(node: NodeId) | RelItem(rel: RelId)

  /** The property bag of an item. */
  function PropsOf(g: Graph, it: Item): PropMap {
    match it
    case NodeItem(n) => AttrsOf(g, n).props
    case RelItem(r) => if r in g.rels then g.rels[r].props else map[]
  }

  // ---------------------------------------------------------------- names

  /** The name a view files an item under. Python uses `str(item)`, which for a node shows its
      object identity and for a Rel shows its ends and type; here it is a fixed text built from
      the entity's id, distinct for distinct entities. */
  function ItemKey(it: Item): string {
    match it
    case NodeItem(n) => "node(" + NatToString(n) + ")"
    case RelItem(r) => "rel(" + NatToString(r) + ")"
  }

  /** Distinct entities have distinct names. */
  lemma ItemKeyInjective(a: Item, b: Item)
    requires ItemKey(a) == ItemKey(b)
    ensures a == b
  {
    var k := ItemKey(a);
    assert k[0] == ItemKey(b)[0];
    match a
    case NodeItem(n) =>
      var m := b.node;
      assert NatToString(n) == k[5..|k| - 1] == NatToString(m);
      NatToStringInjective(n, m);
    case RelItem(r) =>
      var q := b.rel;
      assert NatToString(r) == k[4..|k| - 1] == NatToString(q);
      NatToStringInjective(r, q);
  }

  /** Names are already lower-case, so the `.lower()` applied when the index is built
      changes nothing. */
  lemma ItemKeyIsLower(it: Item)
    ensures Lower(ItemKey(it)) == ItemKey(it)
  {
    var k := ItemKey(it);
    forall i | 0 <= i < |k| ensures LowerChar(k[i]) == k[i] {
      match it
      case NodeItem(n) =>
        if 5 <= i < |k| - 1 {
          assert k[i] == NatToString(n)[i - 5];
        }
      case RelItem(r) =>
        if 4 <= i < |k| - 1 {
          assert k[i] == NatToString(r)[i - 4];
        }
    }
  }

  /** The names a view files its items under, lower-cased as the index stores them. */
  function Names(s: seq<Item>): (r: seq<string>)
    ensures |r| == |s| && forall j :: 0 <= j < |s| ==> r[j] == Lower(ItemKey(s[j]))
  {
    seq(|s|, j requires 0 <= j < |s| => Lower(ItemKey(s[j])))
  }

  /** The index a view builds when constructed: name to position. The dict is filled in
      order, so a name occurring twice maps to its last position. */
  function KeyIndex(names: seq<string>): (r: map<string, nat>)
    ensures forall k :: k in r <==> k in names
    ensures forall k :: k in r ==> r[k] < |names| && names[r[k]] == k
    ensures forall k, j :: k in r && r[k] < j < |names| ==> names[j] != k
    decreases |names|
  {
    if |names| == 0 then map[]
    else
      var init := KeyIndex(names[..|names| - 1]);
      assert forall j :: 0 <= j < |names| - 1 ==> names[..|names| - 1][j] == names[j];
      assert names == names[..|names| - 1] + [names[|names| - 1]];
      init[names[|names| - 1] := |names| - 1]
  }

  // ---------------------------------------------------------------- equality

  /** The right-hand side of `view == other`, by what it supports: nothing iterable (`None`,
      a number), a sequence of items with length and indexing (a tuple, a list, another
      view), an iterable with a length but no indexing (a set), or an iterable without a
      length (a generator). */
  datatype Other = NotIterable | Indexable(items: seq<Item>) | SizedOnly(n: nat) | Unsized

  /** `other` equals a view of `s`: the same items in the same order, or an empty sized
      iterable against an empty view (the comparison loop never indexes it). */
  predicate SameItems(s: seq<Item>, other: Other) {
    other == Indexable(s) || (other.SizedOnly? && other.n == 0 && |s| == 0)
  }

  /** `other` lacks an operation `==` needs: a length, or indexing once there is an item to
      compare. */
  predicate LacksSupport(s: seq<Item>, other: Other) {
    other.Unsized? || (other.SizedOnly? && other.n == |s| && |s| > 0)
  }

  /** `view == other`: false for a non-iterable `other`, otherwise same length and the same
      item at every position; `TypeError` when `other` has no length or no indexing. */
  method Eq(s: seq<Item>, other: Other) returns (r: Result<bool>)
    ensures r.Failure? <==> LacksSupport(s, other)
    ensures r.Failure? ==> r.error == TypeError
    ensures r.Success? ==> (r.value <==> SameItems(s, other))
  {
    if other.NotIterable? {
      return Success(false);
    }
    if other.Unsized? {
      return Failure(TypeError);
    }
    var n := if other.Indexable? then |other.items| else other.n;
    if |s| != n {
      return Success(false);
    }
    var i := 0;
    while i < |s|
      invariant 0 <= i <= |s|
      invariant other.Indexable? ==> s[..i] == other.items[..i]
      invariant other.SizedOnly? ==> i == 0
    {
      if other.SizedOnly? {
        return Failure(TypeError);
      }
      var o := other.items;
      if o[i] != s[i] {
        return Success(false);
      }
      assert s[..i + 1] == s[..i] + [s[i]];
      assert o[..i + 1] == o[..i] + [o[i]];
      i := i + 1;
    }
    if other.Indexable? {
      assert s == s[..i] && other.items == other.items[..i];
    }
    return Success(true);
  }

  /** `view != other` is the negation of `==`, and raises where `==` does. */
  method Ne(s: seq<Item>, other: Other) returns (r: Result<bool>)
    ensures r.Failure? <==> LacksSupport(s, other)
    ensures r.Failure? ==> r.error == TypeError
    ensures r.Success? ==> (r.value <==> !SameItems(s, other))
  {
    var eq := Eq(s, other);
    if eq.Failure? {
      return Failure(eq.error);
    }
    r := Success(!eq.value);
  }

  // ---------------------------------------------------------------- subscripts

  /** One key of a multi-key subscript. */
  datatype Single = Pos(i: int) | Label(key: string)

  /** The argument of `view[key]`. */
  datatype Subscript =
    | At(i: int)                              // an int
    | Range(lo: Option<int>, hi: Option<int>, step: Option<int>) // a slice
    | Named(key: string)                      // a str or bytes
    | Several(keys: seq<Single>)              // any other iterable
    | Unsupported                             // anything else (a float, None, ...)

  /** What a subscript yields: one item, or a tuple of them. */
  datatype Got = One(item: Item) | Many(items: seq<Item>)

  /** Tuple indexing: negative positions count from the end. */
  function Index(s: seq<Item>, i: int): (r: Result<Item>)
    ensures r.Success? <==> -|s| <= i < |s|
    ensures r.Failure? ==> r.error == IndexError
    ensures r.Success? ==> r.value == s[i % |s|]
  {
    if 0 <= i < |s| then Success(s[i])
    else if -|s| <= i < 0 then Success(s[|s| + i])
    else Failure(IndexError)
  }

  /** Where a slice bound lands: negative bounds count from the end, and every bound is
      clipped to the sequence. */
  function Clip(i: int, n: nat): (r: nat)
    ensures r <= n
    ensures 0 <= i <= n ==> r == i
    ensures i < 0 <= i + n ==> r == i + n
  {
    if i < 0 then (if i + n < 0 then 0 else i + n)
    else if i > n then n else i
  }

  /** `view[lo:hi]`: a contiguous run of the view, empty when the bounds cross. */
  function Slice(s: seq<Item>, lo: Option<int>, hi: Option<int>): (r: seq<Item>)
    ensures var a, b := if lo.Some? then Clip(lo.value, |s|) else 0,
                        if hi.Some? then Clip(hi.value, |s|) else |s|;
            |r| == (if a < b then b - a else 0) &&
            forall j :: 0 <= j < |r| ==> r[j] == s[a + j]
  {
    var a := if lo.Some? then Clip(lo.value, |s|) else 0;
    var b := if hi.Some? then Clip(hi.value, |s|) else |s|;
    if a < b then s[a..b] else []
  }

  /** Where a bound of a slice with a step lands: negative bounds count from the end, and the
      bound is clipped to `[0, n]` for a forward step and to `[-1, n - 1]` for a backward one. */
  function Adjust(i: int, n: nat, backward: bool): (r: int)
    ensures backward ==> -1 <= r <= n - 1
    ensures !backward ==> r == Clip(i, n)
    ensures 0 <= i < n ==> r == i
    ensures -(n as int) <= i < 0 ==> r == i + n
  {
    var lower := if backward then -1 else 0;
    var upper := if backward then n - 1 else n;
    if i < 0 then (if i + n < lower then lower else i + n)
    else if i > upper then upper else i
  }

  /** Whether a stride from `i` towards `stop` takes another item. */
  predicate Before(i: int, stop: int, step: int) {
    (step > 0 && i < stop) || (step < 0 && i > stop)
  }

  /** The items at `i`, `i + step`, `i + 2 * step`, ... before reaching `stop`. */
  function Stride(s: seq<Item>, i: int, stop: int, step: int): (r: seq<Item>)
    requires step != 0
    requires step > 0 ==> 0 <= i && stop <= |s|
    requires step < 0 ==> i <= |s| - 1 && -1 <= stop
    ensures |r| == 0 <==> !Before(i, stop, step)
    decreases if step > 0 then stop - i else i - stop
  {
    if Before(i, stop, step) then [s[i]] + Stride(s, i + step, stop, step) else []
  }

  /** The `j`-th item of a stride is the one `j` steps from its start, and every step it
      takes stays short of `stop`. */
  lemma {:induction false} StrideAt(s: seq<Item>, i: int, stop: int, step: int)
    requires step != 0
    requires step > 0 ==> 0 <= i && stop <= |s|
    requires step < 0 ==> i <= |s| - 1 && -1 <= stop
    ensures var r := Stride(s, i, stop, step);
            forall j :: 0 <= j < |r| ==> Before(i + j * step, stop, step) && 0 <= i + j * step < |s| && r[j] == s[i + j * step]
    decreases if step > 0 then stop - i else i - stop
  {
    var r := Stride(s, i, stop, step);
    if Before(i, stop, step) {
      StrideAt(s, i + step, stop, step);
      var rest := Stride(s, i + step, stop, step);
      assert r == [s[i]] + rest;
      forall j | 0 <= j < |r|
        ensures Before(i + j * step, stop, step) && 0 <= i + j * step < |s| && r[j] == s[i + j * step]
      {
        if j > 0 {
          assert j * step == step + (j - 1) * step;
          assert r[j] == rest[j - 1];
        }
      }
    }
  }

  /** A stride ends at the first step that reaches `stop`. */
  lemma {:induction false} StrideEnd(s: seq<Item>, i: int, stop: int, step: int)
    requires step != 0
    requires step > 0 ==> 0 <= i && stop <= |s|
    requires step < 0 ==> i <= |s| - 1 && -1 <= stop
    ensures !Before(i + |Stride(s, i, stop, step)| * step, stop, step)
    decreases if step > 0 then stop - i else i - stop
  {
    if Before(i, stop, step) {
      StrideEnd(s, i + step, stop, step);
      var n := |Stride(s, i + step, stop, step)|;
      assert |Stride(s, i, stop, step)| == n + 1;
      assert (n + 1) * step == step + n * step;
    }
  }

  /** Where a slice with step `st` starts: `lo` adjusted, or else the near end of the walk. */
  function StartOf(lo: Option<int>, n: nat, st: int): (r: int)
    ensures st > 0 ==> 0 <= r <= n
    ensures st < 0 ==> -1 <= r <= n - 1
  {
    if lo.Some? then Adjust(lo.value, n, st < 0) else if st < 0 then n - 1 else 0
  }

  /** Where a slice with step `st` stops: `hi` adjusted, or else just past the far end. */
  function StopOf(hi: Option<int>, n: nat, st: int): (r: int)
    ensures st > 0 ==> 0 <= r <= n
    ensures st < 0 ==> -1 <= r <= n - 1
  {
    if hi.Some? then Adjust(hi.value, n, st < 0) else if st < 0 then -1 else n
  }

  /** `view[lo:hi:step]`: every `step`-th item from `lo` towards `hi`, walking backwards for a
      negative step; a zero step raises `ValueError`. The `j`-th item taken is the one `j`
      steps from the start, and the walk ends at the first step that reaches `hi`. */
  function StepSlice(s: seq<Item>, lo: Option<int>, hi: Option<int>, step: Option<int>): (r: Result<seq<Item>>)
    ensures r.Failure? <==> step == Some(0)
    ensures r.Failure? ==> r.error == ValueError
    ensures r.Success? ==> forall x :: x in r.value ==> x in s
    ensures r.Success? ==> |r.value| <= |s|
    ensures r.Success? ==>
      var st := step.GetOr(1);
      var a, b := StartOf(lo, |s|, st), StopOf(hi, |s|, st);
      && (forall j :: 0 <= j < |r.value| ==> Before(a + j * st, b, st) && 0 <= a + j * st < |s| && r.value[j] == s[a + j * st])
      && !Before(a + |r.value| * st, b, st)
  {
    var st := step.GetOr(1);
    if st == 0 then Failure(ValueError)
    else
      var a, b := StartOf(lo, |s|, st), StopOf(hi, |s|, st);
      var r := Stride(s, a, b, st);
      StrideAt(s, a, b, st);
      StrideEnd(s, a, b, st);
      StrideLength(s, a, b, st);
      Success(r)
  }

  /** A stride takes at most one item for each position between its start and `stop`. */
  lemma {:induction false} StrideLength(s: seq<Item>, i: int, stop: int, step: int)
    requires step != 0
    requires step > 0 ==> 0 <= i && stop <= |s|
    requires step < 0 ==> i <= |s| - 1 && -1 <= stop
    ensures |Stride(s, i, stop, step)| <= if !Before(i, stop, step) then 0 else if step > 0 then stop - i else i - stop
    ensures |Stride(s, i, stop, step)| <= |s|
    decreases if step > 0 then stop - i else i - stop
  {
    if Before(i, stop, step) {
      StrideLength(s, i + step, stop, step);
    }
  }

  /** A forward stride of one is a contiguous run. */
  lemma {:induction false} StrideOne(s: seq<Item>, a: int, b: int)
    requires 0 <= a && b <= |s|
    ensures Stride(s, a, b, 1) == if a < b then s[a..b] else []
    decreases b - a
  {
    if a < b {
      StrideOne(s, a + 1, b);
      assert s[a..b] == [s[a]] + s[a + 1..b];
    }
  }

  /** A backward stride of one from `i` takes `i + 1` items. */
  lemma {:induction false} StrideBackLength(s: seq<Item>, i: int)
    requires -1 <= i <= |s| - 1
    ensures |Stride(s, i, -1, -1)| == i + 1
    decreases i + 1
  {
    if i > -1 {
      StrideBackLength(s, i - 1);
    }
  }

  /** A step of one, given or not, is the plain slice. */
  lemma StepOneIsSlice(s: seq<Item>, lo: Option<int>, hi: Option<int>, step: Option<int>)
    requires step == None || step == Some(1)
    ensures StepSlice(s, lo, hi, step) == Success(Slice(s, lo, hi))
  {
    var a := if lo.Some? then Clip(lo.value, |s|) else 0;
    var b := if hi.Some? then Clip(hi.value, |s|) else |s|;
    StrideOne(s, a, b);
  }

  /** A step of minus one walks the whole view backwards. */
  lemma StepMinusOneReverses(s: seq<Item>)
    ensures var r := StepSlice(s, None, None, Some(-1));
            r.Success? && |r.value| == |s| && forall j :: 0 <= j < |s| ==> r.value[j] == s[|s| - 1 - j]
  {
    StrideBackLength(s, |s| - 1);
    StrideAt(s, |s| - 1, -1, -1);
  }

  /** Cutting a view at any point and putting the halves back together gives the view. */
  lemma SliceSplit(s: seq<Item>, k: int)
    ensures Slice(s, None, Some(k)) + Slice(s, Some(k), None) == s
  {
    var c := Clip(k, |s|);
    if c == 0 {
      assert Slice(s, Some(k), None) == s[0..|s|];
    } else if c == |s| {
      assert Slice(s, None, Some(k)) == s[0..|s|];
    } else {
      assert s[0..c] + s[c..|s|] == s;
    }
  }

  /** `view[name]`: the item whose name matches `name` case-insensitively. */
  function Lookup(s: seq<Item>, name: string): (r: Result<Item>)
    ensures r.Success? <==> exists j :: 0 <= j < |s| && ItemKey(s[j]) == Lower(name)
    ensures r.Failure? ==> r.error == KeyError
    ensures r.Success? ==> r.value in s && ItemKey(r.value) == Lower(name)
  {
    var index := KeyIndex(Names(s));
    assert forall j :: 0 <= j < |s| ==> Lower(ItemKey(s[j])) == ItemKey(s[j]) by {
      forall j | 0 <= j < |s| ensures Lower(ItemKey(s[j])) == ItemKey(s[j]) {
        ItemKeyIsLower(s[j]);
      }
    }
    var key := Lower(name);
    if key in index then Success(s[index[key]]) else Failure(KeyError)
  }

  /** Every item can be fetched back by its own name, in any letter case. */
  lemma LookupOwnName(s: seq<Item>, j: int, name: string)
    requires 0 <= j < |s| && Lower(name) == ItemKey(s[j])
    ensures Lookup(s, name) == Success(s[j])
  {
    var r := Lookup(s, name);
    ItemKeyInjective(r.value, s[j]);
  }

  /** One key of a multi-key subscript. */
  function PickOne(s: seq<Item>, k: Single): (r: Result<Item>)
    ensures k.Pos? ==> r == Index(s, k.i)
    ensures k.Label? ==> r == Lookup(s, k.key)
  {
    match k
    case Pos(i) => Index(s, i)
    case Label(name) => Lookup(s, name)
  }

  /** `view[[k0, k1, ...]]`: each key in turn; the first one that fails raises. */
  function PickAll(s: seq<Item>, keys: seq<Single>): (r: Result<seq<Item>>)
    ensures r.Success? <==> forall i :: 0 <= i < |keys| ==> PickOne(s, keys[i]).Success?
    ensures r.Success? ==> |r.value| == |keys| && forall i :: 0 <= i < |keys| ==> r.value[i] == PickOne(s, keys[i]).value
    ensures r.Failure? ==> exists i :: 0 <= i < |keys| && PickOne(s, keys[i]) == Failure(r.error)
    decreases |keys|
  {
    if |keys| == 0 then Success([])
    else
      var first := PickOne(s, keys[0]);
      if first.Failure? then Failure(first.error)
      else
        var rest := PickAll(s, keys[1..]);
        assert forall i :: 1 <= i < |keys| ==> keys[1..][i - 1] == keys[i];
        if rest.Failure? then Failure(rest.error)
        else Success([first.value] + rest.value)
  }

  /** `view[key]` for each kind of key. */
  function GetItem(s: seq<Item>, key: Subscript): (r: Result<Got>)
    ensures key.At? ==> (r.Success? <==> -|s| <= key.i < |s|)
    ensures key.At? && r.Success? ==> r.value == One(s[key.i % |s|])
    ensures key.Named? ==> (r.Success? <==> exists j :: 0 <= j < |s| && ItemKey(s[j]) == Lower(key.key))
    ensures key.Named? && r.Success? ==> r.value.One? && r.value.item in s && ItemKey(r.value.item) == Lower(key.key)
    ensures key.Range? ==> (r.Success? <==> key.step != Some(0))
    ensures key.Range? && r.Success? ==> r.value == Many(StepSlice(s, key.lo, key.hi, key.step).value)
    ensures key.Range? && key.step.GetOr(1) == 1 ==> r == Success(Many(Slice(s, key.lo, key.hi)))
    ensures key.Several? ==> (r.Success? <==> forall i :: 0 <= i < |key.keys| ==> PickOne(s, key.keys[i]).Success?)
    ensures key.Several? && r.Success? ==>
      r.value.Many? && |r.value.items| == |key.keys| &&
      (forall i :: 0 <= i < |key.keys| ==> r.value.items[i] == PickOne(s, key.keys[i]).value)
    ensures key.Unsupported? ==> r == Failure(KeyError)
    ensures r.Failure? ==> r.error in {IndexError, KeyError, ValueError}
  {
    match key
    case At(i) =>
      var x :- Index(s, i);
      Success(One(x))
    case Range(lo, hi, step) =>
      if step.GetOr(1) == 1 then StepOneIsSlice(s, lo, hi, step); Success(Many(Slice(s, lo, hi)))
      else
        var xs :- StepSlice(s, lo, hi, step);
        Success(Many(xs))
    case Named(name) =>
      var x :- Lookup(s, name);
      Success(One(x))
    case Several(keys) =>
      var xs :- PickAll(s, keys);
      Success(Many(xs))
    case Unsupported => Failure(KeyError)
  }

  // ---------------------------------------------------------------- filter

  /** The argument of `view.filter(...)`: a property name with an optional value to compare
      against (`Null` when none is given), a predicate function, or something else. */
  datatype Criterion = HasProp(key: string, value: Value) | Where(f: Item -> bool) | NotAFunction

  /** Whether `filter` keeps `it`. */
  predicate Keeps(g: Graph, c: Criterion, it: Item) {
    match c
    case HasProp(key, value) =>
      Name(key) in PropsOf(g, it) && (value == Null || PyEq(PropsOf(g, it)[Name(key)], value))
    case Where(f) => f(it)
    case NotAFunction => false
  }

  /** The items of `s` that `c` keeps, in their original order. */
  function Select(g: Graph, s: seq<Item>, c: Criterion): (r: seq<Item>)
    ensures |r| <= |s|
    decreases |s|
  {
    if |s| == 0 then []
    else (if Keeps(g, c, s[0]) then [s[0]] else []) + Select(g, s[1..], c)
  }

  /** `filter` keeps exactly the items the criterion accepts. */
  lemma {:induction false} SelectKeeps(g: Graph, s: seq<Item>, c: Criterion)
    ensures forall x :: x in Select(g, s, c) <==> x in s && Keeps(g, c, x)
    decreases |s|
  {
    if |s| > 0 {
      SelectKeeps(g, s[1..], c);
      assert s == [s[0]] + s[1..];
    }
  }

  /** Filtering distributes over concatenation: the kept items stay in order. */
  lemma {:induction false} SelectConcat(g: Graph, a: seq<Item>, b: seq<Item>, c: Criterion)
    ensures Select(g, a + b, c) == Select(g, a, c) + Select(g, b, c)
    decreases |a|
  {
    if |a| > 0 {
      var head := if Keeps(g, c, a[0]) then [a[0]] else [];
      assert (a + b)[0] == a[0];
      assert (a + b)[1..] == a[1..] + b;
      SelectConcat(g, a[1..], b, c);
      calc {
        Select(g, a + b, c);
        head + Select(g, a[1..] + b, c);
        head + (Select(g, a[1..], c) + Select(g, b, c));
        (head + Select(g, a[1..], c)) + Select(g, b, c);
      }
    } else {
      assert a + b == b;
    }
  }

  /** Filtering twice by the same criterion is filtering once. */
  lemma {:induction false} SelectIdempotent(g: Graph, s: seq<Item>, c: Criterion)
    ensures Select(g, Select(g, s, c), c) == Select(g, s, c)
    decreases |s|
  {
    if |s| > 0 {
      var head := if Keeps(g, c, s[0]) then [s[0]] else [];
      SelectConcat(g, head, Select(g, s[1..], c), c);
      SelectIdempotent(g, s[1..], c);
    }
  }

  /** `view.filter(key, value=None)` or `view.filter(func)`. */
  function Filter(g: Graph, s: seq<Item>, c: Criterion): (r: Result<seq<Item>>)
    ensures r.Failure? <==> c.NotAFunction?
    ensures r.Failure? ==> r.error == TypeError
    ensures r.Success? ==> forall x :: x in r.value <==> x in s && Keeps(g, c, x)
    ensures r.Success? ==> r.value == Select(g, s, c)
  {
    if c.NotAFunction? then Failure(TypeError) else SelectKeeps(g, s, c); Success(Select(g, s, c))
  }

  // ---------------------------------------------------------------- sort

  /** The argument of `view.sort(...)`: a property name, a key function (from an item to the
      value it sorts by), or something else. */
  datatype SortKey = ByProp(key: string) | ByFunction(f: Item -> Value) | NotAFunction

  /** A sort key Python can compare: numbers (`bool`, `int` and `float` alike) with numbers,
      text with text. */
  datatype Rank = Num(x: real) | Text(t: string)

  /** How Python compares a value, when it can. */
  function RankOf(v: Value): (r: Option<Rank>)
    ensures r.Some? <==> v.Int? || v.Bool? || v.Float? || v.Str?
    ensures r.Some? ==> (r.value.Text? <==> v.Str?)
  {
    match v
    case Int(i) => Some(Num(i as real))
    case Bool(b) => Some(Num(if b then 1.0 else 0.0))
    case Float(_, x) => Some(Num(x))
    case Str(t) => Some(Text(t))
    case _ => None
  }

  /** `n.props.get(key)`: the value, or `None` when absent. */
  function PropValue(g: Graph, key: string, it: Item): Value {
    var p := PropsOf(g, it);
    if Name(key) in p then p[Name(key)] else Null
  }

  /** The value an item sorts by. */
  function KeyOf(g: Graph, k: SortKey, it: Item): Value {
    match k
    case ByProp(key) => PropValue(g, key, it)
    case ByFunction(f) => f(it)
    case NotAFunction => Null
  }

  /** The sort key of an item. */
  function RankFor(g: Graph, k: SortKey, it: Item): Rank {
    RankOf(KeyOf(g, k, it)).GetOr(Num(0.0))
  }

  /** The order `sorted` uses on comparable keys (numbers before text, which only matters
      for keys Python would refuse to compare). */
  predicate RankLe(a: Rank, b: Rank) {
    match (a, b)
    case (Num(x), Num(y)) => x <= y
    case (Text(x), Text(y)) => !LexLess(y, x)
    case (Num(_), Text(_)) => true
    case (Text(_), Num(_)) => false
  }

  lemma RankLeReflexive(a: Rank)
    ensures RankLe(a, a)
  {
    if a.Text? {
      LexLessIrreflexive(a.t);
    }
  }

  lemma RankLeTotal(a: Rank, b: Rank)
    ensures RankLe(a, b) || RankLe(b, a)
  {
    if a.Text? && b.Text? && LexLess(b.t, a.t) {
      LexLessAsymmetric(b.t, a.t);
    }
  }

  lemma RankLeTransitive(a: Rank, b: Rank, c: Rank)
    requires RankLe(a, b) && RankLe(b, c)
    ensures RankLe(a, c)
  {
    if a.Text? && b.Text? && c.Text? && a.t != b.t {
      LexLessTotal(a.t, b.t);
      if LexLess(c.t, a.t) {
        LexLessTransitive(c.t, a.t, b.t);
      }
    }
  }

  /** `s` is in ascending order of sort keys. */
  predicate SortedBy(g: Graph, k: SortKey, s: seq<Item>) {
    forall i :: 0 < i < |s| ==> RankLe(RankFor(g, k, s[i - 1]), RankFor(g, k, s[i]))
  }

  /** The items of `s` whose sort key is `rk`, in the order `s` has them. */
  function OfRank(g: Graph, k: SortKey, s: seq<Item>, rk: Rank): seq<Item>
    decreases |s|
  {
    if |s| == 0 then []
    else (if RankFor(g, k, s[0]) == rk then [s[0]] else []) + OfRank(g, k, s[1..], rk)
  }

  /** Inserts `x` before the first item whose key is not below it. */
  function Insert(g: Graph, k: SortKey, x: Item, s: seq<Item>): (r: seq<Item>)
    requires SortedBy(g, k, s)
    ensures SortedBy(g, k, r)
    ensures multiset(r) == multiset(s) + multiset{x}
    ensures r[0] == x || (|s| > 0 && r[0] == s[0])
    decreases |s|
  {
    if |s| == 0 || RankLe(RankFor(g, k, x), RankFor(g, k, s[0])) then [x] + s
    else
      RankLeTotal(RankFor(g, k, x), RankFor(g, k, s[0]));
      var rest := Insert(g, k, x, s[1..]);
      assert s == [s[0]] + s[1..];
      [s[0]] + rest
  }

  lemma SortedTail(g: Graph, k: SortKey, s: seq<Item>)
    requires |s| > 0 && SortedBy(g, k, s)
    ensures SortedBy(g, k, s[1..])
  {
    forall i | 0 < i < |s| - 1
      ensures RankLe(RankFor(g, k, s[1..][i - 1]), RankFor(g, k, s[1..][i]))
    {
      assert s[1..][i - 1] == s[i] && s[1..][i] == s[i + 1];
    }
  }

  /** The items of `[x]` whose sort key is `rk`. */
  function Head(g: Graph, k: SortKey, x: Item, rk: Rank): seq<Item> {
    if RankFor(g, k, x) == rk then [x] else []
  }

  lemma OfRankCons(g: Graph, k: SortKey, x: Item, s: seq<Item>, rk: Rank)
    ensures OfRank(g, k, [x] + s, rk) == Head(g, k, x, rk) + OfRank(g, k, s, rk)
  {
    assert ([x] + s)[1..] == s;
  }

  /** At most one of two heads is non-empty, so they commute. */
  lemma SwapHeads(h0: seq<Item>, hx: seq<Item>, t: seq<Item>)
    requires h0 == [] || hx == []
    ensures h0 + (hx + t) == hx + (h0 + t)
  {
  }

  /** Inserting `x` puts it ahead of every item with the same key. */
  lemma {:induction false} InsertStable(g: Graph, k: SortKey, x: Item, s: seq<Item>, rk: Rank)
    requires SortedBy(g, k, s)
    ensures OfRank(g, k, Insert(g, k, x, s), rk) == Head(g, k, x, rk) + OfRank(g, k, s, rk)
    decreases |s|
  {
    if |s| == 0 || RankLe(RankFor(g, k, x), RankFor(g, k, s[0])) {
      assert Insert(g, k, x, s) == [x] + s;
      OfRankCons(g, k, x, s, rk);
    } else {
      var rx, r0 := RankFor(g, k, x), RankFor(g, k, s[0]);
      RankLeReflexive(rx);
      assert rx != r0;
      SortedTail(g, k, s);
      var tail := s[1..];
      var rest := Insert(g, k, x, tail);
      assert Insert(g, k, x, s) == [s[0]] + rest;
      InsertStable(g, k, x, tail, rk);
      OfRankCons(g, k, s[0], rest, rk);
      OfRankCons(g, k, s[0], tail, rk);
      assert s == [s[0]] + tail;
      SwapHeads(Head(g, k, s[0], rk), Head(g, k, x, rk), OfRank(g, k, tail, rk));
    }
  }

  /** Insertion sort; Python's `sorted` is stable, and so is this. */
  function SortBy(g: Graph, k: SortKey, s: seq<Item>): (r: seq<Item>)
    ensures SortedBy(g, k, r)
    ensures multiset(r) == multiset(s)
    decreases |s|
  {
    if |s| == 0 then []
    else
      assert s == [s[0]] + s[1..];
      Insert(g, k, s[0], SortBy(g, k, s[1..]))
  }

  /** Stability: items with equal keys keep their relative order. */
  lemma {:induction false} SortStable(g: Graph, k: SortKey, s: seq<Item>)
    ensures forall rk :: OfRank(g, k, SortBy(g, k, s), rk) == OfRank(g, k, s, rk)
    decreases |s|
  {
    if |s| > 0 {
      SortStable(g, k, s[1..]);
      forall rk
        ensures OfRank(g, k, SortBy(g, k, s), rk) == OfRank(g, k, s, rk)
      {
        InsertStable(g, k, s[0], SortBy(g, k, s[1..]), rk);
      }
    }
  }

  /** Sorting an already sorted view leaves it as it is. */
  lemma {:induction false} SortSortedUnchanged(g: Graph, k: SortKey, s: seq<Item>)
    requires SortedBy(g, k, s)
    ensures SortBy(g, k, s) == s
    decreases |s|
  {
    if |s| > 0 {
      SortSortedUnchanged(g, k, s[1..]);
      assert s == [s[0]] + s[1..];
    }
  }

  /** Python can order the items' keys: numbers only, or text only. A missing property is
      `None`, which Python does not order. */
  predicate Comparable(g: Graph, k: SortKey, s: seq<Item>) {
    !k.NotAFunction? &&
    (forall x :: x in s ==> RankOf(KeyOf(g, k, x)).Some?) &&
    ((forall x :: x in s ==> !KeyOf(g, k, x).Str?) ||
     (forall x :: x in s ==> KeyOf(g, k, x).Str?))
  }

  /** `view.sort(key)`: a new view ordered by the key, stably, or `TypeError` when the
      argument is not usable or `sorted` would have to compare keys Python cannot order. */
  function Sort(g: Graph, s: seq<Item>, k: SortKey): (r: Result<seq<Item>>)
    ensures r.Success? <==> !k.NotAFunction? && (|s| <= 1 || Comparable(g, k, s))
    ensures r.Failure? ==> r.error == TypeError
    ensures r.Success? ==> SortedBy(g, k, r.value) && multiset(r.value) == multiset(s)
    ensures r.Success? ==> forall rk :: OfRank(g, k, r.value, rk) == OfRank(g, k, s, rk)
  {
    if k.NotAFunction? then Failure(TypeError)
    else if |s| <= 1 then Success(s)
    else if Comparable(g, k, s) then SortStable(g, k, s); Success(SortBy(g, k, s))
    else Failure(TypeError)
  }

  // ---------------------------------------------------------------- Rels.nodes

  /** No item occurs twice. */
  predicate Distinct(s: seq<Item>) {
    forall i, j :: 0 <= i < j < |s| ==> s[i] != s[j]
  }

  /** `rels.nodes()`: the distinct end nodes of the relationships, in the unspecified order
      of a Python set. */
  method RelsNodes(g: Graph, rels: seq<RelId>) returns (r: seq<Item>)
    requires forall i :: 0 <= i < |rels| ==> rels[i] in g.rels
    ensures Distinct(r)
    ensures forall x :: x in r <==> exists i :: 0 <= i < |rels| && x == NodeItem(g.rels[rels[i]].end)
  {
    var ends := set i | 0 <= i < |rels| :: g.rels[rels[i]].end;
    var left := ends;
    r := [];
    while left != {}
      invariant left <= ends
      invariant Distinct(r)
      invariant forall x :: x in r <==> x.NodeItem? && x.node in ends - left
      decreases left
    {
      var n :| n in left;
      r := r + [NodeItem(n)];
      left := left - {n};
    }
  }
}
