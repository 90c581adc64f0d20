/**
  What the receiver makes of the frames the transmitter sends: every frame
  `Encode` produces is reassembled byte for byte and handed to the
  dispatcher, a frame with a wrong checksum is dropped, and noise between
  frames is ignored.
 */
module Reception {
  import opened Seqs
  import opened Bytes
  import opened Protocol
  import opened Fletcher
  import opened Config
  import opened Frame
  import opened Parser

  /** The receiver in the middle of a frame, having stored `content`. */
  function Reading(cfg: Config, content: seq<byte>): (r: Receiver)
    requires |content| < RxBufLen(cfg)
    ensures Valid(cfg, r)
  {
    Receiver(ReadVerbatim, |content|, content + Zeros(RxBufLen(cfg) - |content|))
  }

  /** Storing one more byte in the middle of a frame. */
  lemma StoreNext(cfg: Config, content: seq<byte>, x: byte)
    requires |content| + 1 < RxBufLen(cfg)
    ensures var r := Reading(cfg, content);
      Receiver(ReadVerbatim, r.index + 1, r.message[r.index := x]) == Reading(cfg, content + [x])
  {
    var r := Reading(cfg, content);
    var m := r.message[r.index := x];
    var m' := (content + [x]) + Zeros(RxBufLen(cfg) - |content| - 1);
    assert |m| == |m'|;
    forall i | 0 <= i < |m|
      ensures m[i] == m'[i]
    {
      if i < |content| {
        assert m[i] == content[i];
      } else if i > |content| {
        assert m[i] == 0;
      }
    }
  }

  /** An escaped byte, in one or two raw bytes, is stored as the byte itself. */
  lemma FeedEscaped(cfg: Config, content: seq<byte>, x: byte)
    requires |content| + 1 < RxBufLen(cfg)
    ensures Feed(cfg, Reading(cfg, content), Escape(x)) == FeedResult(Reading(cfg, content + [x]), [])
  {
    var r := Reading(cfg, content);
    StoreNext(cfg, content, x);
    if IsMarker(x) {
      MarkersDistinct();
      XorInvolution(x);
      StepSpec(cfg, r, ESC);
      var r1 := r.(state := ReadEscaped);
      StepSpec(cfg, r1, XorEsc(x));
      FeedCons(cfg, r, ESC, [XorEsc(x)]);
      FeedCons(cfg, r1, XorEsc(x), []);
    } else {
      StepSpec(cfg, r, x);
      FeedCons(cfg, r, x, []);
    }
  }

  /** The escaped form of a run of bytes is stored as the run itself. */
  lemma {:induction false} FeedStuffed(cfg: Config, content: seq<byte>, xs: seq<byte>)
    requires |content| + |xs| < RxBufLen(cfg)
    ensures Feed(cfg, Reading(cfg, content), Stuff(xs)) == FeedResult(Reading(cfg, content + xs), [])
    decreases |xs|
  {
    if xs == [] {
      assert content + xs == content;
    } else {
      var x, rest := xs[0], xs[1..];
      var r := Reading(cfg, content);
      var r1 := Reading(cfg, content + [x]);
      assert Stuff(xs) == Escape(x) + Stuff(rest);
      FeedAppend(cfg, r, Escape(x), Stuff(rest));
      FeedEscaped(cfg, content, x);
      FeedStuffed(cfg, content + [x], rest);
      assert xs == [x] + rest;
      Assoc(content, [x], rest);
      assert Feed(cfg, r, Stuff(xs)) == FeedResult(Reading(cfg, content + [x] + rest), [] + []);
    }
  }

  /**
    The end marker after `content` closes the frame: the last two stored
    bytes are its checksum, and the whole buffer is dispatched exactly when
    they match the checksum of the bytes before them.
   */
  lemma FeedEnd(cfg: Config, content: seq<byte>)
    requires 2 <= |content| < RxBufLen(cfg)
    ensures var n := |content|;
      var received := content[n - 2] as int + 0x100 * (content[n - 1] as int);
      var event := if received == Checksum(content[..n - 2])
        then Dispatch(content + Zeros(RxBufLen(cfg) - n))
        else BadChecksum;
      Feed(cfg, Reading(cfg, content), [END_OF_FRAME]) == FeedResult(Init(cfg), [event])
  {
    var r := Reading(cfg, content);
    var n := |content|;
    assert r.message[..n - 2] == content[..n - 2];
    assert r.message[n - 2] == content[n - 2] && r.message[n - 1] == content[n - 1];
    StepSpec(cfg, r, END_OF_FRAME);
    FeedCons(cfg, r, END_OF_FRAME, []);
  }

  /**
    A frame with logical bytes `l` and checksum field `v`, received from
    the initial state, yields one event and leaves the receiver reset: the
    buffer (logical bytes, checksum, zeros) if `v` is the checksum of `l`, a
    checksum failure otherwise.
   */
  lemma FeedFrame(cfg: Config, l: seq<byte>, v: uint16)
    requires |l| + 2 < RxBufLen(cfg)
    ensures var content := l + LE16(v);
      var event := if v == Checksum(l)
        then Dispatch(content + Zeros(RxBufLen(cfg) - |content|))
        else BadChecksum;
      Feed(cfg, Init(cfg), [START_OF_FRAME] + Stuff(content) + [END_OF_FRAME]) == FeedResult(Init(cfg), [event])
  {
    var content := l + LE16(v);
    var init := Init(cfg);
    var start := Reading(cfg, []);
    assert Feed(cfg, init, [START_OF_FRAME]) == FeedResult(start, []) by {
      StepSpec(cfg, init, START_OF_FRAME);
      assert [] + Zeros(RxBufLen(cfg)) == Zeros(RxBufLen(cfg));
      FeedCons(cfg, init, START_OF_FRAME, []);
    }
    FeedAppend(cfg, init, [START_OF_FRAME], Stuff(content));
    FeedStuffed(cfg, [], content);
    assert [] + content == content;
    FeedAppend(cfg, init, [START_OF_FRAME] + Stuff(content), [END_OF_FRAME]);
    FeedEnd(cfg, content);
    assert content[..|content| - 2] == l;
    LE16Injective(v, v);
  }

  /**
    Every frame the transmitter can build for a payload that fits the
    buffer is received intact and dispatched exactly once: the dispatcher
    sees the length, the command, the payload and the checksum at the start
    of an otherwise zeroed buffer.
   */
  lemma RoundTrip(cfg: Config, cmd: byte, payload: seq<byte>)
    requires ValidConfig(cfg) && |payload| + 5 < RxBufLen(cfg)
    ensures var l := Logical(cmd, payload);
      var content := l + LE16(Checksum(l));
      Feed(cfg, Init(cfg), Encode(cmd, payload))
        == FeedResult(Init(cfg), [Dispatch(content + Zeros(RxBufLen(cfg) - |content|))])
  {
    var l := Logical(cmd, payload);
    FeedFrame(cfg, l, Checksum(l));
  }

  /** A frame whose checksum field is wrong is dropped and the receiver reset. */
  lemma CorruptChecksumRejected(cfg: Config, cmd: byte, payload: seq<byte>, v: uint16)
    requires ValidConfig(cfg) && |payload| + 5 < RxBufLen(cfg)
    requires v != Checksum(Logical(cmd, payload))
    ensures var l := Logical(cmd, payload);
      Feed(cfg, Init(cfg), [START_OF_FRAME] + Stuff(l + LE16(v)) + [END_OF_FRAME])
        == FeedResult(Init(cfg), [BadChecksum])
  {
    FeedFrame(cfg, Logical(cmd, payload), v);
  }

  /** Between frames, anything but a start marker is ignored. */
  lemma {:induction false} NoiseIgnored(cfg: Config, noise: seq<byte>)
    requires START_OF_FRAME !in noise
    ensures Feed(cfg, Init(cfg), noise) == FeedResult(Init(cfg), [])
    decreases |noise|
  {
    if noise != [] {
      var init := Init(cfg);
      StepSpec(cfg, init, noise[0]);
      assert noise == [noise[0]] + noise[1..];
      FeedCons(cfg, init, noise[0], noise[1..]);
      NoiseIgnored(cfg, noise[1..]);
    }
  }

  /** Line noise before a frame does not disturb its reception. */
  lemma NoiseThenFrame(cfg: Config, noise: seq<byte>, cmd: byte, payload: seq<byte>)
    requires START_OF_FRAME !in noise
    requires ValidConfig(cfg) && |payload| + 5 < RxBufLen(cfg)
    ensures Feed(cfg, Init(cfg), noise + Encode(cmd, payload)) == Feed(cfg, Init(cfg), Encode(cmd, payload))
  {
    FeedAppend(cfg, Init(cfg), noise, Encode(cmd, payload));
    NoiseIgnored(cfg, noise);
    RoundTrip(cfg, cmd, payload);
  }

  /**
    Frames sent back to back are received one after the other: the receiver
    is back in its initial state after each.
   */
  lemma TwoFrames(cfg: Config, c1: byte, p1: seq<byte>, c2: byte, p2: seq<byte>)
    requires ValidConfig(cfg) && |p1| + 5 < RxBufLen(cfg) && |p2| + 5 < RxBufLen(cfg)
    ensures var f1 := Feed(cfg, Init(cfg), Encode(c1, p1));
      var f2 := Feed(cfg, Init(cfg), Encode(c2, p2));
      Feed(cfg, Init(cfg), Encode(c1, p1) + Encode(c2, p2)) == FeedResult(Init(cfg), f1.events + f2.events)
  {
    FeedAppend(cfg, Init(cfg), Encode(c1, p1), Encode(c2, p2));
    RoundTrip(cfg, c1, p1);
    RoundTrip(cfg, c2, p2);
  }

  /**
    The shortest frame the receiver accepts as a frame at all, a start
    marker directly followed by an end marker, ends with nothing stored.
   */
  lemma EmptyFrame(cfg: Config)
    requires ValidConfig(cfg)
    ensures var r := Step(cfg, Init(cfg), START_OF_FRAME).next;
      && r.state == ReadVerbatim && r.index == 0
      && ChecksumOffsetAsWritten(r.index) == 0xFFFE
      && ChecksumOffsetAsWritten(r.index) >= RxBufLen(cfg)
    ensures Feed(cfg, Init(cfg), [START_OF_FRAME, END_OF_FRAME]) == FeedResult(Init(cfg), [ShortFrame])
  {
    var init := Init(cfg);
    StepSpec(cfg, init, START_OF_FRAME);
    var r := init.(state := ReadVerbatim);
    ShortFrameReadsOutsideBuffer(cfg, r);
    ShortFrameDropped(cfg, r);
    FeedCons(cfg, init, START_OF_FRAME, [END_OF_FRAME]);
    FeedCons(cfg, r, END_OF_FRAME, []);
  }
}
