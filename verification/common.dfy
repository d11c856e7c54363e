/** Small shared vocabulary: optional values and Python's `dict.get(key, default)`. */
module Common {

  /** A value that may be missing (Python's `None`). */
  datatype Option<+T> = None | Some(value: T)

  /** `m.get(key, default)`: the stored value when the key is present, otherwise the default. */
  function GetOr<K, V>(m: map<K, V>, key: K, default: V): (v: V)
    ensures key in m ==> v == m[key]
    ensures key !in m ==> v == default
  {
    if key in m then m[key] else default
  }
}
