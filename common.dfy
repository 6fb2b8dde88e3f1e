/** Small shared vocabulary: bytes, optional values and results. */
module Common {

  /** An unsigned 8-bit value, as held by Swift's `UInt8`, Java's `byte` (read unsigned) and a `Uint8Array` cell. */
  type byte = b: int | 0 <= b < 256

  /** A value that may be absent: a missing call option, a failed decoding. */
  datatype Option<+T> = None | Some(value: T)

  /** The outcome of an operation that can fail with an error of type E. */
  datatype Result<+T, +E> = Ok(value: T) | Err(error: E)

  /** True when no element of s occurs twice. */
  predicate Distinct<T(==)>(s: seq<T>)
  {
    forall i, j :: 0 <= i < j < |s| ==> s[i] != s[j]
  }

  /** Every element of s, as a set. */
  function Elements<T>(s: seq<T>): set<T>
  {
    set x | x in s
  }

  /** True when p is a prefix of s. */
  predicate StartsWith<T(==)>(s: seq<T>, p: seq<T>)
  {
    |p| <= |s| && s[..|p|] == p
  }
}
