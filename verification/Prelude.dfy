/** The optional value used wherever the program has a pointer that may be nil. */
module Prelude {
  datatype Option<+T> = None | Some(value: T)

  /** What the k-th call to the outside world answers: success, or an error whose
      effect may nevertheless have been carried out. */
  datatype Reply = Ok | Err(applied: bool)

  function Find<V>(m: map<string, V>, k: string): Option<V> {
    if k in m then Some(m[k]) else None
  }
}
