/**
  The frame transmitter. The UART is modelled as the sequence of bytes written
  to it (`wire`); each `tx…` function returns the transmitter with the bytes
  it sent appended and its running checksum updated.
 */
module Transmit {
  import opened Bytes
  import opened Protocol
  import opened Fletcher
  import opened Frame
  import opened Seqs

  /** The bytes sent so far and the running sums (`f16_sum1`, `f16_sum2`). */
  datatype Tx = Tx(wire: seq<byte>, sums: Sums)

  /** A transmitter that has sent nothing. */
  const Idle := Tx([], Reset)

  /** `txStart`: reset the sums and send the start marker. */
  function TxStart(tx: Tx): Tx {
    Tx(tx.wire + [START_OF_FRAME], Reset)
  }

  /**
    `txByte`: send one byte, escaped when it is a marker, and accumulate the
    byte itself (not its escaped form) into the checksum.
   */
  function TxByte(tx: Tx, b: byte): Tx {
    Tx(tx.wire + Escape(b), Fletcher16Accum(tx.sums, b).0)
  }

  /**
    `txByte` appends either the byte itself or `ESC` and the byte xored with
    `ESC_XOR`, the latter exactly for marker bytes; neither form contains a
    frame marker. The checksum advances by the unescaped byte.
   */
  lemma TxByteEmits(tx: Tx, b: byte)
    ensures var t := TxByte(tx, b);
      && tx.wire <= t.wire
      && var raw := t.wire[|tx.wire|..];
      && START_OF_FRAME !in raw && END_OF_FRAME !in raw
      && (raw == [b] || raw == [ESC, XorEsc(b)])
      && (raw == [b] <==> !IsMarker(b))
      && t.sums == Accum(tx.sums, b)
  {
    var t := TxByte(tx, b);
    EscapeSpec(b);
    assert t.wire[|tx.wire|..] == Escape(b);
  }

  /** `txEnd`: send the two checksum bytes through `txByte`, then the end marker. */
  function TxEnd(tx: Tx): Tx {
    var sum1 := tx.sums.sum1;
    var sum2 := tx.sums.sum2;
    var t := TxByte(TxByte(tx, sum1), sum2);
    Tx(t.wire + [END_OF_FRAME], t.sums)
  }

  /** `txEnd` appends the checksum, low byte first and escaped, then the end marker. */
  lemma TxEndAppendsChecksum(tx: Tx)
    ensures TxEnd(tx).wire == tx.wire + Stuff(LE16(Value(tx.sums))) + [END_OF_FRAME]
  {
    var v := LE16(Value(tx.sums));
    ValueBytes(tx.sums);
    assert v == [tx.sums.sum1, tx.sums.sum2];
    assert v[1..] == [tx.sums.sum2];
    assert [tx.sums.sum2][1..] == [];
    assert Stuff([tx.sums.sum2]) == Escape(tx.sums.sum2);
    assert Stuff(v) == Escape(tx.sums.sum1) + Escape(tx.sums.sum2);
  }

  /** The payload loop of `txBytes`: `txByte` for each byte in order. */
  function TxEach(tx: Tx, bs: seq<byte>): Tx
    decreases |bs|
  {
    if bs == [] then tx else TxEach(TxByte(tx, bs[0]), bs[1..])
  }

  /** The loop sends the escaped bytes and accumulates the unescaped ones. */
  lemma {:induction false} TxEachSpec(tx: Tx, bs: seq<byte>)
    ensures TxEach(tx, bs).wire == tx.wire + Stuff(bs)
    ensures TxEach(tx, bs).sums == AccumAll(tx.sums, bs)
    decreases |bs|
  {
    if bs != [] {
      var t := TxByte(tx, bs[0]);
      assert t.sums == Accum(tx.sums, bs[0]);
      TxEachSpec(t, bs[1..]);
      assert TxEach(tx, bs) == TxEach(t, bs[1..]);
      assert Stuff(bs) == Escape(bs[0]) + Stuff(bs[1..]);
    }
  }

  /** The header and payload bytes of `txBytes`/`txString`, after `txStart`. */
  function TxBody(tx: Tx, cmd: byte, bytes: seq<byte>, len: uint16): Tx
    requires len <= |bytes|
  {
    var t := TxByte(TxByte(TxByte(tx, len % 0x100), len / 0x100), cmd);
    TxEach(t, bytes[..len])
  }

  /** The header and payload go out as the escaped logical bytes of the frame. */
  lemma TxBodySpec(tx: Tx, cmd: byte, bytes: seq<byte>, len: uint16)
    requires len <= |bytes|
    ensures TxBody(tx, cmd, bytes, len).wire == tx.wire + Stuff(Logical(cmd, bytes[..len]))
    ensures TxBody(tx, cmd, bytes, len).sums == AccumAll(tx.sums, Logical(cmd, bytes[..len]))
  {
    var p := bytes[..len];
    var l := Logical(cmd, p);
    assert l == [l[0]] + ([l[1]] + ([l[2]] + p));
    TxEachCons(tx, l[0], [l[1]] + ([l[2]] + p));
    TxEachCons(TxByte(tx, l[0]), l[1], [l[2]] + p);
    TxEachCons(TxByte(TxByte(tx, l[0]), l[1]), l[2], p);
    TxEachSpec(tx, l);
  }

  lemma TxEachCons(tx: Tx, b: byte, rest: seq<byte>)
    ensures TxEach(tx, [b] + rest) == TxEach(TxByte(tx, b), rest)
  {
    assert ([b] + rest)[1..] == rest;
  }

  /** `txBytes`: one frame carrying the first `len` bytes. */
  function TxBytes(tx: Tx, cmd: byte, bytes: seq<byte>, len: uint16): Tx
    requires len <= |bytes|
  {
    TxEnd(TxBody(TxStart(tx), cmd, bytes, len))
  }

  /**
    Whatever was sent before, `txBytes` appends exactly the wire form of its
    frame: the running sums of an earlier frame never leak into this one.
   */
  lemma TxBytesEncodes(tx: Tx, cmd: byte, bytes: seq<byte>, len: uint16)
    requires len <= |bytes|
    ensures TxBytes(tx, cmd, bytes, len).wire == tx.wire + Encode(cmd, bytes[..len])
  {
    var start := TxStart(tx);
    TxBodySpec(start, cmd, bytes, len);
    TxEndFrame(tx, Logical(cmd, bytes[..len]), TxBody(start, cmd, bytes, len));
  }

  /**
    Once the start marker and the escaped logical bytes `l` are out and the
    sums hold exactly `l`, `txEnd` completes the frame of `l`.
   */
  lemma TxEndFrame(tx: Tx, l: seq<byte>, body: Tx)
    requires body.wire == tx.wire + [START_OF_FRAME] + Stuff(l)
    requires body.sums == AccumAll(Reset, l)
    ensures TxEnd(body).wire == tx.wire + ([START_OF_FRAME] + Stuff(l + LE16(Checksum(l))) + [END_OF_FRAME])
  {
    var cs := LE16(Checksum(l));
    TxEndAppendsChecksum(body);
    StuffAppend(l, cs);
    Reassociate(tx.wire, [START_OF_FRAME], Stuff(l), Stuff(cs), [END_OF_FRAME]);
  }


  /** `txBytes` over a whole array. */
  lemma TxBytesWhole(tx: Tx, cmd: byte, bytes: seq<byte>, len: uint16)
    requires len == |bytes|
    ensures TxBytes(tx, cmd, bytes, len).wire == tx.wire + Encode(cmd, bytes)
  {
    assert bytes[..len] == bytes;
    TxBytesEncodes(tx, cmd, bytes, len);
  }
}
