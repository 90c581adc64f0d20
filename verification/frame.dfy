/**
  The wire format of one frame, independent of how the firmware produces it:
  start marker, the escaped logical bytes (little-endian payload length,
  command, payload) followed by their escaped checksum, end marker.
 */
module Frame {
  import opened Bytes
  import opened Protocol
  import opened Fletcher

  /** The logical bytes of a frame: little-endian length, command, payload. */
  function Logical(cmd: byte, payload: seq<byte>): seq<byte>
    requires |payload| < 0x1_0000
  {
    LE16(|payload|) + [cmd] + payload
  }

  /**
    The wire form of a frame: start marker, the escaped logical bytes and
    their checksum (low byte first), end marker.
   */
  function Encode(cmd: byte, payload: seq<byte>): seq<byte>
    requires |payload| < 0x1_0000
  {
    var l := Logical(cmd, payload);
    [START_OF_FRAME] + Stuff(l + LE16(Checksum(l))) + [END_OF_FRAME]
  }

  /**
    Only the first and last byte of a frame are frame markers, so a receiver
    that has lost a frame resynchronises at the next end marker.
   */
  lemma EncodeFraming(cmd: byte, payload: seq<byte>)
    requires |payload| < 0x1_0000
    ensures var e := Encode(cmd, payload);
      && |e| >= 7
      && e[0] == START_OF_FRAME && e[|e| - 1] == END_OF_FRAME
      && forall i :: 0 < i < |e| - 1 ==> e[i] != START_OF_FRAME && e[i] != END_OF_FRAME
  {
    var l := Logical(cmd, payload);
    var body := Stuff(l + LE16(Checksum(l)));
    var e := Encode(cmd, payload);
    StuffSpec(l + LE16(Checksum(l)));
    assert e == [START_OF_FRAME] + body + [END_OF_FRAME];
    forall i | 0 < i < |e| - 1
      ensures e[i] != START_OF_FRAME && e[i] != END_OF_FRAME
    {
      assert e[i] == body[i - 1];
    }
  }
}
