/** Types shared by every component of the model. */
module Common {

  datatype Option<+T> = None | Some(value: T)

  datatype Result<+T, +E> = Ok(value: T) | Err(error: E)

  type byte = b: int | 0 <= b < 256

  const U16_MAX := 0xFFFF
  const U32_MAX := 0xFFFF_FFFF
  const U64_MAX := 0xFFFF_FFFF_FFFF_FFFF
  const I64_MAX := 0x7FFF_FFFF_FFFF_FFFF

  type u32 = n: int | 0 <= n <= U32_MAX
  type i64 = n: int | -I64_MAX - 1 <= n <= I64_MAX
  type u64 = n: int | 0 <= n <= U64_MAX

  /** A Rust `as i64` cast of a `u64`. */
  function AsI64(n: u64): i64 { if n <= I64_MAX then n else n - U64_MAX - 1 }

  /** A Rust `as u64` cast of an `i64`. */
  function AsU64(n: i64): u64 { if n >= 0 then n else n + U64_MAX + 1 }

  /** Text is the sequence of its bytes, one `char` per byte. */
  predicate IsSpace(c: char) {
    c == ' ' || '\t' <= c <= '\r'
  }

  /** `text.trim().is_empty()`. */
  predicate Blank(s: string) {
    forall i :: 0 <= i < |s| ==> IsSpace(s[i])
  }

  function Min(a: int, b: int): int {
    if a <= b then a else b
  }

  // ---- Checks made in order ------------------------------------------------

  datatype Check<+E> = Check(passed: bool, error: E)

  /** The error of the first check not passed. */
  function FirstFailure<E>(checks: seq<Check<E>>, from: nat): Option<E>
    decreases |checks| - from
  {
    if from >= |checks| then None
    else if !checks[from].passed then Some(checks[from].error)
    else FirstFailure(checks, from + 1)
  }
}
