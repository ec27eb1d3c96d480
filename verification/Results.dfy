/** What every module shares: the kernel's `Option` and `Result` values, calls that may panic,
    and bytes. */
module Results {
  datatype Option<+T> = None | Some(value: T)

  datatype Result<+T> = Ok(value: T) | Err(error: string)

  /** What a call that returns an optional value comes to when it may also panic. */
  datatype Attempt<+T> = Nothing | Panic | Got(value: T)

  type Byte = b: nat | b < 256

  predicate Distinct<T(==)>(s: seq<T>) { forall i, j :: 0 <= i < j < |s| ==> s[i] != s[j] }
}
