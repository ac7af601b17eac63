/**
 * The byte cursor every parser of format.py advances (an `io.BytesIO`).
 * The cursor is threaded through as a position `pos` into the buffer `buf`;
 * a read returns what it read together with the new position.
 *
 * Two kinds of read occur in the source and behave differently at the end
 * of the buffer: `struct.unpack` over `b.read(n)` raises when fewer than `n`
 * bytes are left (modelled as the error `Truncated`), while a bare
 * `b.read(n)` silently returns whatever is left, once its count has been
 * converted to a C `Py_ssize_t` (a count above PY_SSIZE_T_MAX raises
 * `OverflowError`, modelled as the error `Overflow`).
 */
module Stream {
  import opened Bytes

  datatype Option<+T> = None | Some(value: T)

  datatype Error =
    | Truncated                                  // struct.unpack given fewer bytes than its format
    | UnexpectedMagic(expected: u64, found: u64) // the `assert magic == MAGIC_TYPE` failing
    | MissingPayload                             // `payload.size` read on a goodbye (None) header
    | UnterminatedName                           // the filename loop at end of stream (never terminates)
    | ChunkUnavailable                           // the chunk resolver could not supply a chunk
    | Overflow                                   // a read count too large for a 64-bit `Py_ssize_t`

  datatype Result<+T> = Ok(value: T) | Err(error: Error) {
    predicate IsFailure() {
      Err?
    }

    function PropagateFailure<U>(): Result<U>
      requires Err?
    {
      Err(error)
    }

    function Extract(): T
      requires Ok?
    {
      value
    }
  }

  /** The largest count `BytesIO.read` accepts on a 64-bit build: 2^63 - 1. */
  const PY_SSIZE_T_MAX: int := 0x7FFF_FFFF_FFFF_FFFF

  function Min(a: int, b: int): (m: int) {
    if a <= b then a else b
  }

  /**
   * `b.read(n)` fed to `struct.unpack`: the `n` bytes at `pos`, which the
   * callers decode in place, must all be there, or the read is `Truncated`.
   * The result is the position after them.
   */
  function ReadExact(buf: seq<byte>, pos: nat, n: nat): (r: Result<nat>)
    requires pos <= |buf|
    ensures r.Ok? <==> pos + n <= |buf|
    ensures r.Ok? ==> r.value == pos + n
    ensures r.Err? ==> r.error == Truncated
  {
    if n <= |buf| - pos then Ok(pos + n) else Err(Truncated)
  }

  /** `struct.unpack("<Q", b.read(8))[0]`. */
  function ReadU64(buf: seq<byte>, pos: nat): (r: Result<(u64, nat)>)
    requires pos <= |buf|
    ensures r.Ok? <==> pos + 8 <= |buf|
    ensures r.Ok? ==> r.value == (U64At(buf, pos), pos + 8)
  {
    var next :- ReadExact(buf, pos, 8);
    Ok((U64At(buf, pos), next))
  }

  /**
   * A bare `b.read(n)`: it fails only when `n` does not fit a `Py_ssize_t`;
   * otherwise it returns the next `n` bytes, fewer when the buffer ends
   * first, and everything left when `n` is negative.
   */
  function ReadSome(buf: seq<byte>, pos: nat, n: int): (r: Result<(seq<byte>, nat)>)
    requires pos <= |buf|
    ensures r.Ok? <==> n <= PY_SSIZE_T_MAX
    ensures r.Err? ==> r.error == Overflow
    ensures r.Ok? ==> pos <= r.value.1 <= |buf| && r.value.0 == buf[pos..r.value.1]
    ensures r.Ok? && n >= 0 ==> |r.value.0| == Min(n, |buf| - pos)
    ensures r.Ok? && n < 0 ==> r.value.1 == |buf|
  {
    if n > PY_SSIZE_T_MAX then Err(Overflow)
    else
      var end := if n < 0 || |buf| - pos < n then |buf| else pos + n;
      Ok((buf[pos..end], end))
  }
}
