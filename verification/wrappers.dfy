/** Python's `Optional[T]`: `None` or a present value. */
module Wrappers {

  datatype Option<+T> = None | Some(value: T)

  /** `d.get(k)` on a Dafny map. */
  function Lookup<K, V>(m: map<K, V>, k: K): Option<V>
  {
    if k in m then Some(m[k]) else None
  }

  /** Python cannot tell a present `None` from an absent value: both read as `None`. */
  function Flatten<T>(o: Option<Option<T>>): Option<T>
  {
    match o
    case None => None
    case Some(inner) => inner
  }
}
