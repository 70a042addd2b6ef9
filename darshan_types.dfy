/**
 * Types shared by the Darshan modules modelled here: the record identifier,
 * the fixed-width C integers the log formats use, and the usual
 * Option/Result wrappers for absent values and error returns.
 */
module DarshanTypes {

  /** `darshan_record_id`: an unsigned 64-bit identifier. */
  type RecordId = x: int | 0 <= x < 0x1_0000_0000_0000_0000

  /** A C `int` on the platforms Darshan supports. */
  type Int32 = x: int | -0x8000_0000 <= x < 0x8000_0000

  /** `int64_t`, the width of every integer counter slot. */
  type Int64 = x: int | -0x8000_0000_0000_0000 <= x < 0x8000_0000_0000_0000

  /** The modulus of `size_t` (an unsigned 64-bit integer). */
  const SizeTModulus: int := 0x1_0000_0000_0000_0000

  datatype Option<T> = None | Some(value: T)

  datatype Result<T, E> = Success(value: T) | Failure(error: E)
}
