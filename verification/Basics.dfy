/** Bytes, optional values and results shared by every module of the model.
    A Go string is its bytes, so references, names and paths are `Bytes` too. */
module Basics {
  type Byte = b: int | 0 <= b < 256
  type Bytes = seq<Byte>

  datatype Option<+T> = None | Some(value: T)

  datatype Result<+T, +E> = Success(value: T) | Failure(error: E)

  const LF: Byte := 0x0A

  /** `n` zero bytes: what a buffer holds once it has been erased. */
  function Zeros(n: nat): (z: Bytes)
    ensures |z| == n
    ensures forall i :: 0 <= i < n ==> z[i] == 0
  {
    seq(n, _ => 0)
  }

  /** The bytes of an ASCII literal. */
  function Ascii(s: string): (b: Bytes)
    requires forall i :: 0 <= i < |s| ==> s[i] < '\U{0080}'
    ensures |b| == |s|
    ensures forall i :: 0 <= i < |s| ==> b[i] == s[i] as int
  {
    seq(|s|, i requires 0 <= i < |s| => s[i] as int)
  }

  /** Overwrites a buffer in place, as both `zero` functions of the repository do. */
  method Zero(value: array<Byte>)
    modifies value
    ensures value[..] == Zeros(value.Length)
  {
    for index := 0 to value.Length
      invariant forall i :: 0 <= i < index ==> value[i] == 0
    {
      value[index] := 0;
    }
  }
}
