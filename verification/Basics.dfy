/** Machine integers, sizes and small wrappers shared by every module. */
module Basics {

  const TWO_32: int := 0x1_0000_0000
  const UINT32_MAX: int := 0xFFFF_FFFF

  /** `uint32_t`: the values; wrap-around is written out where the C code relies on it. */
  type u32 = x: int | 0 <= x < 0x1_0000_0000

  /** `uint8_t` */
  type byte = x: int | 0 <= x < 0x100

  /** UDP_PACKET_DATA_SIZE and UDP_PACKET_SIZE (src/defines.h) */
  const CHUNK: int := 9166
  const UDP_PACKET_SIZE: int := 9216

  /** The bytes of a tcp_sgmnt_t (src/tcp_socket.h), and of the buffer a read fills */
  const SEGMENT_SIZE: int := 1024

  /** `x + 1` and `x - 1` on a `uint32_t` */
  function Inc(x: u32): u32 { if x == 0xFFFF_FFFF then 0 else x + 1 }
  function Dec(x: u32): u32 { if x == 0 then 0xFFFF_FFFF else x - 1 }

  datatype Option<+T> = None | Some(value: T)

  function Min(a: int, b: int): int { if a <= b then a else b }

  /** A sequence with the element at position `k` taken out. */
  function Without<T>(s: seq<T>, k: nat): (r: seq<T>)
    requires k < |s|
    ensures |r| == |s| - 1
    ensures forall i :: 0 <= i < k ==> r[i] == s[i]
    ensures forall i :: k <= i < |r| ==> r[i] == s[i + 1]
  {
    s[..k] + s[k + 1..]
  }

  /** A sequence with `x` put in front of position `k`. */
  function Inserted<T>(s: seq<T>, k: nat, x: T): (r: seq<T>)
    requires k <= |s|
    ensures |r| == |s| + 1 && r[k] == x
    ensures forall i :: 0 <= i < k ==> r[i] == s[i]
    ensures forall i :: k < i < |r| ==> r[i] == s[i - 1]
  {
    s[..k] + [x] + s[k..]
  }

  lemma InsertedAtEnd<T>(s: seq<T>, x: T)
    ensures Inserted(s, |s|, x) == s + [x]
  {
  }
}
