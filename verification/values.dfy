/** Property values and property bags as the Python code sees them. */
module Values {

  /** A Python value stored in a property bag or in a serialized record. */
  datatype Value =
    | Null                  // None
    | Bool(b: bool)
    | Int(i: int)
    | Float(repr: string, val: real)  // a finite float: the text Python's repr gives it, and its value
    | Str(s: string)        // str (and bytes)
    | List(items: seq<Value>)  // list or tuple
    | Object(truthy: bool)  // any other object (a dict, a set, an instance) with its truth value

  /** Python truthiness (`if value:`). */
  predicate Truthy(v: Value) {
    match v
    case Null => false
    case Bool(b) => b
    case Int(i) => i != 0
    case Float(_, x) => x != 0.0
    case Str(s) => s != ""
    case List(xs) => xs != []
    case Object(t) => t
  }

  /** Whether a value is a number: `bool` counts as one in Python arithmetic. */
  predicate IsNumber(v: Value) {
    v.Bool? || v.Int? || v.Float?
  }

  /** The number a `bool`, `int` or `float` stands for. */
  function NumberOf(v: Value): real
    requires IsNumber(v)
  {
    match v
    case Bool(b) => if b then 1.0 else 0.0
    case Int(i) => i as real
    case Float(_, x) => x
  }

  /** Python's `==` between two values: numbers compare by value whatever their type
      (`True == 1 == 1.0`), strings by text, lists item by item, and `None` equals only
      `None`. An arbitrary object is taken to equal nothing. */
  predicate PyEq(a: Value, b: Value)
    decreases a
  {
    if IsNumber(a) || IsNumber(b) then IsNumber(a) && IsNumber(b) && NumberOf(a) == NumberOf(b)
    else match (a, b)
      case (Null, Null) => true
      case (Str(x), Str(y)) => x == y
      case (List(xs), List(ys)) => |xs| == |ys| && forall i :: 0 <= i < |xs| ==> PyEq(xs[i], ys[i])
      case _ => false
  }

  /** `==` does not depend on which side is asked. */
  lemma {:induction false} PyEqSymmetric(a: Value, b: Value)
    ensures PyEq(a, b) <==> PyEq(b, a)
    decreases a
  {
    if a.List? && b.List? && |a.items| == |b.items| {
      forall i | 0 <= i < |a.items|
        ensures PyEq(a.items[i], b.items[i]) <==> PyEq(b.items[i], a.items[i])
      {
        PyEqSymmetric(a.items[i], b.items[i]);
      }
    }
  }

  /** A value built without arbitrary objects. */
  predicate Plain(v: Value)
    decreases v
  {
    match v
    case Object(_) => false
    case List(xs) => forall i :: 0 <= i < |xs| ==> Plain(xs[i])
    case _ => true
  }

  /** Every value without arbitrary objects equals itself. */
  lemma {:induction false} PyEqReflexive(v: Value)
    requires Plain(v)
    ensures PyEq(v, v)
    decreases v
  {
    if v.List? {
      forall i | 0 <= i < |v.items|
        ensures PyEq(v.items[i], v.items[i])
      {
        PyEqReflexive(v.items[i]);
      }
    }
  }

  /** Equal values of different numeric types: `1.0 == 1`, `True == 1`, `[1.0] == [1]`. */
  lemma PyEqAcrossTypes()
    ensures PyEq(Float("1.0", 1.0), Int(1)) && PyEq(Bool(true), Int(1)) && PyEq(Float("-0.0", 0.0), Float("0.0", 0.0))
    ensures PyEq(List([Float("1.0", 1.0)]), List([Int(1)]))
    ensures !PyEq(Str("1"), Int(1)) && !PyEq(Null, Int(0)) && !PyEq(List([]), Null)
  {
    assert PyEq(Float("1.0", 1.0), Int(1));
  }

  /** A dict key: Python property keys need not be strings. */
  datatype Key = Name(name: string) | OtherKey(code: int)

  /** The property mapping of a node or relationship. */
  type PropMap = map<Key, Value>
}
