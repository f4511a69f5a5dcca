/** The `Props` base class: dict-like access to an entity's property mapping. */
module Props {
  import opened Wrappers
  import opened Values

  /** `props[key]`: fails with KeyError on an absent key. */
  function Get(p: PropMap, k: Key): (r: Result<Value>)
    ensures r.Failure? <==> k !in p
    ensures r.Failure? ==> r.error == KeyError
    ensures r.Success? ==> r.value == p[k]
  {
    if k in p then Success(p[k]) else Failure(KeyError)
  }

  /** `props[key] = value`: binds `k`, leaves every other key as it was. */
  function Set(p: PropMap, k: Key, v: Value): (r: PropMap)
    ensures r.Keys == p.Keys + {k}
    ensures Get(r, k) == Success(v)
    ensures forall j :: j != k && j in p ==> Get(r, j) == Get(p, j)
  {
    p[k := v]
  }

  /** `del props[key]`: fails with KeyError on an absent key, otherwise drops only `k`. */
  function Del(p: PropMap, k: Key): (r: Result<PropMap>)
    ensures r.Failure? <==> k !in p
    ensures r.Failure? ==> r.error == KeyError
    ensures r.Success? ==> r.value.Keys == p.Keys - {k} && !Contains(r.value, k)
    ensures r.Success? ==> forall j :: j in r.value ==> r.value[j] == p[j]
  {
    if k in p then Success(p - {k}) else Failure(KeyError)
  }

  /** `key in props`. */
  predicate Contains(p: PropMap, k: Key) {
    k in p
  }

  /** `update(props)`: merges `u` into `p`; on a colliding key the value from `u` wins. */
  function Update(p: PropMap, u: PropMap): (r: PropMap)
    ensures r.Keys == p.Keys + u.Keys
    ensures forall k :: k in u ==> r[k] == u[k]
    ensures forall k :: k in p && k !in u ==> r[k] == p[k]
  {
    p + u
  }

  /** `serialize()`: a copy of the mapping; values are immutable here, so later updates
      to the entity cannot reach the copy. */
  function Serialize(p: PropMap): (r: PropMap)
    ensures forall k :: Get(r, k) == Get(p, k)
  {
    p
  }

  /** Reading a key just written returns the value written, whatever was there before. */
  lemma SetThenGet(p: PropMap, k: Key, v: Value, j: Key)
    ensures Get(Set(p, k, v), j) == if j == k then Success(v) else Get(p, j)
  {
  }

  /** After a successful delete the key is absent and reading it fails. */
  lemma DelThenGet(p: PropMap, k: Key)
    requires k in p
    ensures Del(p, k).Success? && Get(Del(p, k).value, k) == Failure(KeyError)
  {
  }
  /** `match_props` / `update_props` passed to the constructor override the class default
      (None) only when truthy. */
  function Override(v: Value): (r: Value)
    ensures Truthy(v) ==> r == v
    ensures !Truthy(v) ==> r == Null
  {
    if Truthy(v) then v else Null
  }

  /** Merging the same properties twice is merging them once. */
  lemma UpdateIdempotent(p: PropMap, u: PropMap)
    ensures Update(Update(p, u), u) == Update(p, u)
  {
  }
}
