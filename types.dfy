/** Machine integer widths, the 32-byte digest and the optional value used throughout
    the model of `src/block.rs`. */
module Types {

  const U64_LIMIT: int := 0x1_0000_0000_0000_0000

  /** Rust's `u8`. */
  newtype u8 = x: int | 0 <= x < 0x100

  /** Rust's `u64`. */
  newtype u64 = x: int | 0 <= x < 0x1_0000_0000_0000_0000

  /** A SHA-256 digest: exactly 32 bytes, byte 0 first. */
  type Hash = s: seq<bv8> | |s| == 32 witness ZeroHash()

  /** The digest function (SHA-256 over the UTF-8 bytes of a string). It is foreign code,
      so the model takes it as a parameter and assumes nothing about it but its width. */
  type HashFn = string -> Hash

  function ZeroHash(): (h: seq<bv8>)
    ensures |h| == 32 && forall i :: 0 <= i < 32 ==> h[i] == 0
  {
    seq(32, _ => 0)
  }

  datatype Option<T> = None | Some(value: T)
}
