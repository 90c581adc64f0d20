/**
  The convenience senders built on `txBytes`: arrays of 16-bit and 32-bit
  words, serialised little-endian, and NUL-terminated strings.
 */
module TxWrappers {
  import opened Bytes
  import opened Protocol
  import opened Fletcher
  import opened Frame
  import opened Transmit

  /**
    `txArray16bit`: send `words` little-endian. The byte count is `len << 1`
    in a `uint16_t`.
   */
  function TxArray16(tx: Tx, cmd: byte, words: seq<uint16>): Tx
    requires |words| < 0x1_0000
  {
    TxBytes(tx, cmd, SerializeLE16(words), Trunc16(|words| * 2))
  }

  /** Arrays under 0x8000 words go out whole. */
  lemma TxArray16Encodes(tx: Tx, cmd: byte, words: seq<uint16>)
    requires |words| < 0x8000
    ensures TxArray16(tx, cmd, words).wire == tx.wire + Encode(cmd, SerializeLE16(words))
  {
    TxArray16Whole(tx, cmd, words);
    var bytes := SerializeLE16(words);
    assert |bytes| == 2 * |words|;
    TxBytesWhole(tx, cmd, bytes, 2 * |words|);
  }

  lemma TxArray16Whole(tx: Tx, cmd: byte, words: seq<uint16>)
    requires |words| < 0x8000
    ensures TxArray16(tx, cmd, words) == TxBytes(tx, cmd, SerializeLE16(words), 2 * |words|)
  {
    Trunc16Small(|words| * 2);
  }

  /**
    `txArray32bit`: send `words` little-endian. The byte count is `len << 2`
    in a `uint16_t`.
   */
  function TxArray32(tx: Tx, cmd: byte, words: seq<uint32>): Tx
    requires |words| < 0x1_0000
  {
    TxBytes(tx, cmd, SerializeLE32(words), Trunc16(|words| * 4))
  }

  /** Arrays under 0x4000 words go out whole. */
  lemma TxArray32Encodes(tx: Tx, cmd: byte, words: seq<uint32>)
    requires |words| < 0x4000
    ensures TxArray32(tx, cmd, words).wire == tx.wire + Encode(cmd, SerializeLE32(words))
  {
    TxArray32Whole(tx, cmd, words);
    var bytes := SerializeLE32(words);
    assert |bytes| == 4 * |words|;
    TxBytesWhole(tx, cmd, bytes, 4 * |words|);
  }

  lemma TxArray32Whole(tx: Tx, cmd: byte, words: seq<uint32>)
    requires |words| < 0x4000
    ensures TxArray32(tx, cmd, words) == TxBytes(tx, cmd, SerializeLE32(words), 4 * |words|)
  {
    Trunc16Small(|words| * 4);
  }

  /** The position of the first NUL of a C string. */
  function CStrLen(str: seq<byte>): (n: nat)
    requires 0 in str
    ensures n < |str| && str[n] == 0 && 0 !in str[..n]
  {
    if str[0] == 0 then 0 else 1 + CStrLen(str[1..])
  }

  /** `txString`: a frame carrying the C string `str`, counted by its own loop. */
  function TxString(tx: Tx, cmd: byte, str: seq<byte>): Tx
    requires 0 in str && CStrLen(str) + 1 < 0x1_0000
  {
    var length := CStrLen(str) + 1;
    TxEnd(TxBody(TxStart(tx), cmd, str, length))
  }

  /**
    `txString` sends the string together with its terminating NUL: the frame
    `txBytes` would send for the string's first `strlen + 1` bytes.
   */
  lemma TxStringEncodes(tx: Tx, cmd: byte, str: seq<byte>)
    requires 0 in str && CStrLen(str) + 1 < 0x1_0000
    ensures TxString(tx, cmd, str).wire == tx.wire + Encode(cmd, str[..CStrLen(str)] + [0])
    ensures TxString(tx, cmd, str) == TxBytes(tx, cmd, str, CStrLen(str) + 1)
  {
    var length := CStrLen(str) + 1;
    assert str[..length] == str[..CStrLen(str)] + [0];
    TxBytesEncodes(tx, cmd, str, length);
  }
}
