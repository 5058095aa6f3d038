/** The machine integers the node computes with, and the result types it returns. */
module Machine {

  const TWO_64: nat := 0x1_0000_0000_0000_0000
  const TWO_160: nat := 0x1_0000_0000_0000_0000_0000_0000_0000_0000_0000_0000
  const TWO_256: nat :=
    0x1_0000_0000_0000_0000_0000_0000_0000_0000_0000_0000_0000_0000_0000_0000_0000_0000

  type u64 = n: nat | n < TWO_64
  type usize = n: nat | n < TWO_64
  type U256 = n: nat | n < TWO_256
  type Address = n: nat | n < TWO_160

  newtype byte = n: int | 0 <= n < 256

  datatype Option<+T> = None | Some(value: T)

  datatype Result<+T, +E> = Ok(value: T) | Err(error: E)

  function Min(a: nat, b: nat): nat {
    if a < b then a else b
  }

  /** `u64` addition in the release profile, and `ruint` addition in every profile, wrap. */
  function WrappingAdd64(a: u64, b: u64): (r: u64)
    ensures r == (a + b) % TWO_64
  {
    if a + b < TWO_64 then a + b else a + b - TWO_64
  }

  function WrappingAdd256(a: U256, b: U256): (r: U256)
    ensures r == (a + b) % TWO_256
  {
    if a + b < TWO_256 then a + b else a + b - TWO_256
  }

  /** `n` zero bytes. */
  function Zeros(n: nat): (z: seq<byte>)
    ensures |z| == n
    ensures forall i :: 0 <= i < n ==> z[i] == 0
  {
    if n == 0 then [] else [0 as byte] + Zeros(n - 1)
  }
}
