/** Bytes, cursors and buffers: the vocabulary shared by every encoder and decoder. */
module Wire {

  type byte = b: int | 0 <= b < 256

  type bytes = seq<byte>

  type u32 = n: int | 0 <= n < TWO_32

  const TWO_32: int := 0x1_0000_0000
  const TWO_64: int := 0x1_0000_0000_0000_0000

  /** The runtime's decoding errors. `RemainderByZero` stands for the panic of `len % 0`. */
  datatype DecodeError =
    | UnexpectedEof
    | InvalidUtf8
    | InvalidBool(b: byte)
    | UnknownEnumVariant(index: nat)
    | UnknownUnionVariant(index: nat)
    | Leb128Overflow
    | InvalidWireType(wireType: nat)
    | InvalidLength
    | RemainderByZero

  /** The outcome of a decoder together with where it leaves the cursor, on success and on failure. */
  datatype Parse<+T> = Ok(value: T, rest: bytes) | Err(error: DecodeError, rest: bytes) {
    predicate IsFailure() { Err? }

    function PropagateFailure<U>(): Parse<U>
      requires Err?
    {
      Err(error, rest)
    }

    function Extract(): (T, bytes)
      requires Ok?
    {
      (value, rest)
    }
  }

  datatype Option<+T> = None | Some(value: T)

  /** What remains of `whole` is a suffix of it: decoding only ever moves the cursor forward. */
  ghost predicate Suffix(rest: bytes, whole: bytes)
  {
    |rest| <= |whole| && rest == whole[|whole| - |rest|..]
  }

  function Min(a: nat, b: nat): nat { if a < b then a else b }

  /** Calls numbered as they were made: those from `from` on, in order. */
  predicate Consecutive(calls: seq<nat>, from: nat)
  {
    forall i :: 0 <= i < |calls| ==> calls[i] == from + i
  }

  /** The growable output vector that encoders append to. */
  class Buffer {
    var data: bytes

    constructor ()
      ensures data == []
    {
      data := [];
    }

    method Push(b: byte)
      modifies this
      ensures data == old(data) + [b]
    {
      data := data + [b];
    }

    method Extend(s: bytes)
      modifies this
      ensures data == old(data) + s
    {
      data := data + s;
    }
  }

  /** The borrowed slice that decoders advance in place. */
  class Cursor {
    var rest: bytes

    constructor (s: bytes)
      ensures rest == s
    {
      rest := s;
    }
  }
}
