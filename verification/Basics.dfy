/** Types shared by every part of the model. */
module Basics {

  type Byte = b: int | 0 <= b < 256

  type Bytes = seq<Byte>

  datatype Option<+T> = None | Some(value: T)

  datatype Result<+T> = Ok(value: T) | Err(error: Error)

  /** The error codes the daemon reports; the numeric values belong to the host OS headers. */
  datatype Error =
    | SysEinval
    | SysEnomem
    | SysErange
    | SysEnoent
    | BadToken   // the bare -1 of the byte stream parser
    | HsEnomem

  function Min(a: int, b: int): int {
    if a <= b then a else b
  }

  /** The three UUID sizes of Bluetooth; a 128-bit value is kept least significant byte first. */
  datatype Uuid = Uuid16(short: nat) | Uuid32(medium: nat) | Uuid128(value: Bytes)

  /** Whether the i-th of a series of allocations succeeds; past the end it does. */
  predicate AllocAt(alloc: seq<bool>, i: nat) {
    i < |alloc| ==> alloc[i]
  }

  predicate AllSucceed(alloc: seq<bool>) {
    forall i :: 0 <= i < |alloc| ==> alloc[i]
  }

  // ----- sequence laws, stated once so that larger proofs need not find them

  lemma Assoc<T>(a: seq<T>, b: seq<T>, c: seq<T>)
    ensures a + b + c == a + (b + c)
  {
  }

  lemma SplitAt<T>(a: seq<T>, k: nat)
    requires k <= |a|
    ensures a == a[..k] + a[k..]
  {
  }

  lemma MoveFirst<T>(a: seq<T>, x: T, t: seq<T>)
    ensures a + ([x] + t) == a + [x] + t
  {
  }
}
