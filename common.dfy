/** Small shared vocabulary: optional values and bytes. */
module Common {

  /** Python's `None` / a value. */
  datatype Option<T> = None | Some(value: T)

  /** One octet of a `bytes` object. */
  newtype byte = x: int | 0 <= x < 256

  lemma AppendAssoc<T>(a: seq<T>, b: seq<T>, c: seq<T>)
    ensures (a + b) + c == a + (b + c)
  {
  }
}
