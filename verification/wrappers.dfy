/** Small failure-carrying datatypes shared by the other modules. */
module Wrappers {

  /** An optional value; `None` stands for "no entry". */
  datatype Option<+T> = None | Some(value: T)

  /** The outcome of an operation that can fail with an error value. */
  datatype Result<+R, +E> = Success(value: R) | Failure(error: E)

  /** The entry of `m` at `k`, or `None` when `k` is absent. */
  function Lookup<K, V>(m: map<K, V>, k: K): Option<V>
  {
    if k in m then Some(m[k]) else None
  }
}
