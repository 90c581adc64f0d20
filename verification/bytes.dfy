/**
  Fixed-width integers of the target and the little-endian byte layouts the
  bootloader uses on the wire. C's unsigned types are unbounded here; every
  place the firmware relies on a wrap-around or a truncating assignment calls
  `Trunc16` or `Trunc32` explicitly.
 */
module Bytes {

  type byte = b: int | 0 <= b < 0x100
  type uint16 = w: int | 0 <= w < 0x1_0000
  type uint32 = w: int | 0 <= w < 0x1_0000_0000

  /** Assignment of an integer to a `uint16_t` variable. */
  function Trunc16(x: int): uint16 {
    x % 0x1_0000
  }

  /** Values that fit are kept unchanged. */
  lemma Trunc16Small(x: int)
    requires 0 <= x < 0x1_0000
    ensures Trunc16(x) == x
  {
  }

  /** Assignment of an integer to a `uint32_t` variable. */
  function Trunc32(x: int): uint32 {
    x % 0x1_0000_0000
  }

  /**
    `b ^ 0x20`: exclusive or with a single set bit (bit 5) toggles that bit
    and keeps the others.
   */
  function XorBit5(b: byte): byte {
    if b % 0x40 < 0x20 then b + 0x20 else b - 0x20
  }

  /** Toggling the bit changes the byte, keeps its other bits, and toggles back. */
  lemma XorBit5Spec(b: byte)
    ensures XorBit5(b) != b
    ensures XorBit5(b) % 0x20 == b % 0x20 && XorBit5(b) / 0x40 == b / 0x40
    ensures XorBit5(XorBit5(b)) == b
  {
  }

  /** A zero-filled buffer of `n` bytes. */
  function Zeros(n: nat): (z: seq<byte>)
    ensures |z| == n
    ensures forall i :: 0 <= i < n ==> z[i] == 0
  {
    seq(n, _ => 0)
  }

  /** A 16-bit value as two little-endian bytes. */
  function LE16(w: uint16): (bs: seq<byte>)
    ensures |bs| == 2
  {
    [w % 0x100, w / 0x100]
  }

  /** A 32-bit value as four little-endian bytes. */
  function LE32(w: uint32): (bs: seq<byte>)
    ensures |bs| == 4
  {
    var q1 := w / 0x100;
    var q2 := q1 / 0x100;
    [w % 0x100, q1 % 0x100, q2 % 0x100, q2 / 0x100]
  }

  /** An array of 16-bit words laid out little-endian, word after word. */
  function SerializeLE16(ws: seq<uint16>): (bs: seq<byte>)
    ensures |bs| == 2 * |ws|
  {
    if ws == [] then [] else LE16(ws[0]) + SerializeLE16(ws[1..])
  }

  /** An array of 32-bit words laid out little-endian, word after word. */
  function SerializeLE32(ws: seq<uint32>): (bs: seq<byte>)
    ensures |bs| == 4 * |ws|
  {
    if ws == [] then [] else LE32(ws[0]) + SerializeLE32(ws[1..])
  }

  /** Word `i` of a serialized sequence occupies bytes `4*i` to `4*i + 4`. */
  lemma {:induction false} SerializeLE32At(ws: seq<uint32>, i: nat)
    requires i < |ws|
    ensures SerializeLE32(ws)[4 * i..4 * i + 4] == LE32(ws[i])
  {
    var bs := SerializeLE32(ws);
    assert bs == LE32(ws[0]) + SerializeLE32(ws[1..]);
    if i > 0 {
      SerializeLE32At(ws[1..], i - 1);
      assert bs[4 * i..4 * i + 4] == SerializeLE32(ws[1..])[4 * (i - 1)..4 * (i - 1) + 4];
    }
  }

  /** The two bytes of `LE16(w)` recombine to `w`, and `w` is the only value with those bytes. */
  lemma LE16Injective(v: uint16, w: uint16)
    ensures LE16(w)[0] as int + 0x100 * (LE16(w)[1] as int) == w
    ensures LE16(v) == LE16(w) ==> v == w
  {
  }

  /**
    `from_lendian_uint32(data + at)`: the four bytes starting at `at` read as
    a little-endian 32-bit value. The shifted bytes occupy disjoint bits, so
    the source's bitwise or is the sum written here.
   */
  function FromLendianUint32(data: seq<byte>, at: nat): uint32
    requires at + 4 <= |data|
  {
    data[at] as int + 0x100 * (data[at + 1] as int)
      + 0x1_0000 * (data[at + 2] as int) + 0x100_0000 * (data[at + 3] as int)
  }

  /** Decoding the four bytes of `LE32(w)` gives back `w`. */
  lemma FromLendianOfLE32(w: uint32)
    ensures FromLendianUint32(LE32(w), 0) == w
  {
    var q1 := w / 0x100;
    var q2 := q1 / 0x100;
    DivMod256(w);
    DivMod256(q1);
    DivMod256(q2);
    var bs := LE32(w);
    assert bs[0] == w % 0x100 && bs[1] == q1 % 0x100 && bs[2] == q2 % 0x100 && bs[3] == q2 / 0x100;
    assert w == bs[0] as int + 0x100 * (bs[1] as int + 0x100 * (bs[2] as int + 0x100 * bs[3] as int));
  }

  lemma DivMod256(x: nat)
    ensures x == x % 0x100 + 0x100 * (x / 0x100)
  {
  }

  /** `from_lendian_uint32` looks only at the four bytes it starts at. */
  lemma FromLendianLocal(data: seq<byte>, at: nat, w: uint32)
    requires at + 4 <= |data| && data[at..at + 4] == LE32(w)
    ensures FromLendianUint32(data, at) == w
  {
    FromLendianOfLE32(w);
    var q := data[at..at + 4];
    assert data[at] == q[0] && data[at + 1] == q[1] && data[at + 2] == q[2] && data[at + 3] == q[3];
  }

  /** Encoding the value read from four bytes gives back those bytes. */
  lemma LE32OfFromLendian(data: seq<byte>, at: nat)
    requires at + 4 <= |data|
    ensures LE32(FromLendianUint32(data, at)) == data[at..at + 4]
  {
    var b0, b1, b2, b3 := data[at] as int, data[at + 1] as int, data[at + 2] as int, data[at + 3] as int;
    var w := FromLendianUint32(data, at);
    assert w == b0 + 0x100 * (b1 + 0x100 * (b2 + 0x100 * b3));
    DivModStep(b0, b1 + 0x100 * (b2 + 0x100 * b3));
    DivModStep(b1, b2 + 0x100 * b3);
    DivModStep(b2, b3);
  }

  lemma DivModStep(lo: int, hi: nat)
    requires 0 <= lo < 0x100
    ensures (lo + 0x100 * hi) % 0x100 == lo
    ensures (lo + 0x100 * hi) / 0x100 == hi
  {
  }
}
