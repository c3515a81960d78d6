/** Value types shared by the whole model: an optional value and the fixed-width
    integers of the Rust/C boundary, written as bounded subsets of `int`. */
module Prelude {

  datatype Option<+T> = None | Some(value: T)

  /** `u8` */
  type byte = b: int | 0 <= b < 0x100

  /** `i32` (the C `int` return codes) */
  type int32 = x: int | -0x8000_0000 <= x < 0x8000_0000

  /** `u32` */
  type uint32 = x: int | 0 <= x < 0x1_0000_0000

  /** `u64`, and `usize` on the 64-bit targets the binding is built for */
  type uint64 = x: int | 0 <= x < 0x1_0000_0000_0000_0000

  /** `n` zero bytes, the contents of `[0u8; n]` */
  function Zeros(n: nat): (z: seq<byte>)
    ensures |z| == n
    ensures forall i :: 0 <= i < n ==> z[i] == 0
  {
    seq(n, _ => 0)
  }
}
