/** Values shared by every module: Python's `None`-or-value, written as an Option. */
module Common {

  datatype Option<+T> = None | Some(value: T)

  /** `d.get(key)` on a Python dict. */
  function Get<K, V>(m: map<K, V>, key: K): (r: Option<V>)
    ensures r.Some? <==> key in m
    ensures r.Some? ==> r.value == m[key]
  {
    if key in m then Some(m[key]) else None
  }
}
