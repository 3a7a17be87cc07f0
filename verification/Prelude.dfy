/** Small value types shared by the modules of this project. */
module Prelude {
  datatype Option<+T> = None | Some(value: T)

  /** A value or an error; `:-` propagates the error. */
  datatype Result<+T, +E> = Ok(value: T) | Err(error: E) {
    predicate IsFailure() { Err? }

    function PropagateFailure<U>(): Result<U, E>
      requires Err?
    {
      Err(error)
    }

    function Extract(): T
      requires Ok?
    {
      value
    }
  }

  const LLRP_MSG_ID_MAX: nat := 4294967295

  /** The message ID after `id`: 1 follows the largest. */
  function NextId(id: nat): nat {
    if id < LLRP_MSG_ID_MAX then id + 1 else 1
  }

  lemma MapMinus<K, V>(m: map<K, V>, k: K)
    requires k in m
    ensures |m - {k}| == |m| - 1
  {
    assert (m - {k}).Keys == m.Keys - {k};
    assert |(m - {k}).Keys| == |m - {k}|;
  }
}
