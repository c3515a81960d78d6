/** The crate root helpers of src/lib.rs: turning libcmt return codes into
    `io::Result`, the length of a host buffer, and paths as C strings. */
module CmtLib {
  import opened Prelude

  /** The message-carrying `io::ErrorKind::InvalidInput` errors the binding builds. */
  datatype InputError =
    | InvalidHex                          // "invalid hex: …" (any hex crate failure)
    | AddressLength(got: nat)             // "address must be 40 hex chars (20 bytes), got {}"
    | U256TooLong                         // "u256 hex too long (>32 bytes)"
    | ByteCount(expected: nat, got: nat)  // "expected {n} bytes, got {}"
    | InteriorNul                         // "path contains interior null"

  /** `std::io::Error` as the binding produces it: either an input error or a raw OS error code. */
  datatype IoError = InvalidInput(reason: InputError) | Os(code: int32)

  /** `std::io::Result<T>`; failure-compatible so that `:-` plays the part of Rust's `?`. */
  datatype IoResult<+T> = Ok(value: T) | Err(error: IoError) {
    predicate IsFailure() { Err? }

    function PropagateFailure<U>(): IoResult<U>
      requires Err?
    {
      Err(error)
    }

    function Extract(): T
      requires Ok?
    {
      value
    }
  }

  const I32Min: int32 := -0x8000_0000

  /** `-rc` on an `i32` as a release build computes it: two's-complement
      negation, the `i32` that adds to `rc` to a multiple of 2^32. Only
      `i32::MIN` has no true negation and wraps to itself. */
  function WrappingNeg(rc: int32): (n: int32)
    ensures (n + rc) % 0x1_0000_0000 == 0
    ensures rc != I32Min ==> n == -rc
    ensures rc == I32Min ==> n == I32Min
  {
    if rc == I32Min then rc else -rc
  }

  /** `to_io_result`: 0 is success; any other code is the OS error `-rc`,
      from which the original code can be read back. */
  function ToIoResult(rc: int32): (r: IoResult<()>)
    ensures r.Ok? <==> rc == 0
    ensures r.Err? ==> r.error.Os? && WrappingNeg(r.error.code) == rc
    ensures r.Err? && I32Min < rc < 0 ==> r.error.code > 0
  {
    if rc == 0 then Ok(()) else Err(Os(WrappingNeg(rc)))
  }

  /** `cmt_buf_t`: a region given by its begin and end addresses. */
  datatype CBuf = CBuf(begin: uint64, end: uint64)

  /** `buffer_len`: `end - begin` with a saturating subtraction. */
  function BufferLen(buf: CBuf): (n: uint64)
    ensures buf.begin <= buf.end ==> buf.begin + n == buf.end
    ensures buf.end < buf.begin ==> n == 0
    ensures n <= buf.end
  {
    if buf.begin <= buf.end then buf.end - buf.begin else 0
  }

  /** The bytes of a Rust `CString` before its terminator; `CString::new` admits no NUL among them. */
  type NulFree = s: seq<byte> | 0 !in s

  datatype CString = CString(bytes: NulFree) {
    /** What C sees through `as_ptr()`: the bytes and one terminating NUL. */
    function WithNul(): seq<byte> { bytes + [0] }
  }

  /** C's `strlen`: the number of bytes before the first NUL. */
  function Strlen(s: seq<byte>): (n: nat)
    ensures n <= |s|
  {
    if s == [] || s[0] == 0 then 0 else 1 + Strlen(s[1..])
  }

  /** `path_to_cstring`, with the `OsStr` given by its bytes. */
  function PathToCString(path: seq<byte>): (r: IoResult<CString>)
    ensures r.Ok? <==> 0 !in path
    ensures r.Ok? ==> r.value.bytes == path
    ensures r.Err? ==> r.error == InvalidInput(InteriorNul)
  {
    if 0 in path then Err(InvalidInput(InteriorNul)) else Ok(CString(path))
  }

  /** A path accepted by `path_to_cstring` reaches C whole: `strlen` of the
      terminated string is the path's length and the bytes before it are the path. */
  lemma {:induction false} PathReachesC(path: seq<byte>)
    requires PathToCString(path).Ok?
    ensures var c := PathToCString(path).value.WithNul();
      Strlen(c) == |path| && c[..Strlen(c)] == path
  {
    var c := PathToCString(path).value.WithNul();
    StrlenOfTerminated(path);
    assert c[..|path|] == path;
  }

  lemma {:induction false} StrlenOfTerminated(s: seq<byte>)
    requires 0 !in s
    ensures Strlen(s + [0]) == |s|
  {
    if s != [] {
      assert (s + [0])[1..] == s[1..] + [0];
      StrlenOfTerminated(s[1..]);
    }
  }
}
