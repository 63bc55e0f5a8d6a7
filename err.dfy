/**
 * Syscall error codes and their encoding into a single return register:
 * a success value travels as itself, an error code `e` as the two's
 * complement of `-e`.
 */
module SyscallErr {
  import opened Common

  /** The width of the return register. */
  const WORD: int := 0x1_0000_0000_0000_0000
  const ISIZE_MIN: int := -0x8000_0000_0000_0000

  /** `Error(pub usize)`: a numeric error code. */
  type Error = usize

  const INVALID_ADDRESS: Error := 1
  const NO_SUCH_PROCESS: Error := 2
  const OUT_OF_VIRTUAL_MEMORY: Error := 3
  const OUT_OF_MEMORY: Error := 4
  const INVALID_ALLOC: Error := 5
  const INVALID_UTF8: Error := 6
  const NOT_FOUND: Error := 7
  const ALREADY_EXISTS: Error := 8
  const NOT_A_DIRECTORY: Error := 9
  const NOT_A_FILE: Error := 10
  const FILESYSTEM_ERROR: Error := 11
  const PERMISSION_DENIED: Error := 12
  const UNEXPECTED_EOF: Error := 13
  const INTERRUPTED: Error := 14
  const WRITE_ZERO: Error := 15
  const BAD_FILE_DESCRIPTOR: Error := 16
  const INVALID_FLAGS: Error := 17

  /** `x as isize`: the same 64 bits read as a signed number. */
  function AsIsize(x: usize): (r: int)
    ensures ISIZE_MIN <= r <= ISIZE_MAX
    ensures (r - x) % WORD == 0
  {
    if x <= ISIZE_MAX then x else x - WORD
  }

  /** `x as usize`: the same 64 bits read as an unsigned number. */
  function AsUsize(x: int): (r: usize)
    requires ISIZE_MIN <= x <= ISIZE_MAX
    ensures AsIsize(r) == x
  {
    if x < 0 then x + WORD else x
  }

  /** Wrapping signed negation: `-isize::MIN` wraps back to `isize::MIN`. */
  function NegIsize(x: int): (r: int)
    requires ISIZE_MIN <= x <= ISIZE_MAX
    ensures ISIZE_MIN <= r <= ISIZE_MAX
    ensures x != ISIZE_MIN ==> r == -x
  {
    if x == ISIZE_MIN then ISIZE_MIN else -x
  }

  /** Splits a raw return value into a success value or an error code. */
  function Decode(result: usize): (r: Result<usize, Error>)
    ensures r.Err? <==> ISIZE_MAX + 1 < result
    ensures r.Err? ==> r.error == WORD - result && 0 < r.error <= ISIZE_MAX
    ensures r.Ok? ==> r.value == result
  {
    var error := NegIsize(AsIsize(result));
    if error > 0 then Err(error) else Ok(result)
  }

  /** Packs a success value or an error code into one return value. */
  function Encode(v: Result<usize, Error>): (r: usize)
    ensures v.Ok? ==> r == v.value
    ensures v.Err? && 0 < v.error <= ISIZE_MAX ==> r == WORD - v.error
  {
    match v
    case Ok(x) => x
    case Err(e) => AsUsize(NegIsize(AsIsize(e)))
  }

  /** An error code up to `isize::MAX` survives the round trip. */
  lemma ErrRoundTrip(e: Error)
    requires 0 < e <= ISIZE_MAX
    ensures Decode(Encode(Err(e))) == Err(e)
  {
  }

  /** A success value survives the round trip exactly when it is not in the error range. */
  lemma OkRoundTrip(v: usize)
    ensures Decode(Encode(Ok(v))) == Ok(v) <==> v <= ISIZE_MAX + 1
  {
  }

  /** The human-readable name of an error code. */
  function AsStr(e: Error): (s: string)
    ensures s == "unknown error" <==> !(1 <= e <= 17)
  {
    match e
    case 1 => "invalid address"
    case 2 => "no such process"
    case 3 => "out of virtual memory"
    case 4 => "out of memory"
    case 5 => "invalid alloc"
    case 6 => "invalid utf8"
    case 7 => "not found"
    case 8 => "already exists"
    case 9 => "not a directory"
    case 10 => "not a file"
    case 11 => "internal filesystem error"
    case 12 => "permission denied"
    case 13 => "unexpected end of file"
    case 14 => "interrupted"
    case 15 => "wrote nothing"
    case 16 => "bad file descriptor"
    case 17 => "invalid flags"
    case _ => "unknown error"
  }

  /** Distinct known codes have distinct names. */
  lemma AsStrInjective(a: Error, b: Error)
    requires 1 <= a <= 17 && 1 <= b <= 17 && a != b
    ensures AsStr(a) != AsStr(b)
  {
  }
}
