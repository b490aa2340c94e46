/** The URL parameter set: a map from parameter name to its ordered list of
    values, with the accessors `Get`, `Set` and `SetMulti`. Go mutates the map
    in place; here each update returns the new map. */
module URLParams {
  import opened Wrappers

  /** Parameter name to values, in the order they were supplied. */
  type Params = map<string, seq<string>>

  /** The first value stored for `key`, or "" when the key is absent or has
      no values. */
  function Get(u: Params, key: string): (r: string)
    ensures Lookup(u, key) == None ==> r == ""
    ensures Lookup(u, key) == Some([]) ==> r == ""
    ensures key in u && |u[key]| > 0 ==> r == u[key][0]
  {
    var vs := if key in u then u[key] else [];
    if |vs| == 0 then "" else vs[0]
  }

  /** Replaces every value of `key` by the single value `value`. */
  function Set(u: Params, key: string, value: string): (r: Params)
    ensures Lookup(r, key) == Some([value])
    ensures forall k | k != key :: Lookup(r, k) == Lookup(u, k)
    ensures r.Keys == u.Keys + {key}
  {
    u[key := [value]]
  }

  /** Replaces every value of `key` by `values`, keeping their order. */
  function SetMulti(u: Params, key: string, values: seq<string>): (r: Params)
    ensures Lookup(r, key) == Some(values)
    ensures forall k | k != key :: Lookup(r, k) == Lookup(u, k)
    ensures r.Keys == u.Keys + {key}
  {
    u[key := values]
  }

  /** Reading a key right after setting it yields the value set. */
  lemma GetAfterSet(u: Params, key: string, value: string)
    ensures Get(Set(u, key, value), key) == value
    ensures forall k | k != key :: Get(Set(u, key, value), k) == Get(u, k)
  {
  }

  /** Setting the same value twice is the same as setting it once. */
  lemma SetIdempotent(u: Params, key: string, value: string)
    ensures Set(Set(u, key, value), key, value) == Set(u, key, value)
  {
  }

  /** After `SetMulti`, `Get` sees the first of the new values, or "". */
  lemma GetAfterSetMulti(u: Params, key: string, values: seq<string>)
    ensures |values| > 0 ==> Get(SetMulti(u, key, values), key) == values[0]
    ensures |values| == 0 ==> Get(SetMulti(u, key, values), key) == ""
    ensures forall k | k != key :: Get(SetMulti(u, key, values), k) == Get(u, k)
  {
  }

  /** `Set` is `SetMulti` with a one-element list. */
  lemma SetIsSingletonSetMulti(u: Params, key: string, value: string)
    ensures Set(u, key, value) == SetMulti(u, key, [value])
  {
  }
}
