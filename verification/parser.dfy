/**
  The receive state machine of `receiveBytes`. The receiver keeps the
  physical buffer `message` (`RX_BUF_LEN` bytes), the write index and the
  parse state; `Step` is one iteration of the firmware's loop on one byte
  taken from the UART.
 */
module Parser {
  import opened Bytes
  import opened Protocol
  import opened Fletcher
  import opened Config
  import opened Seqs

  /** `ParseState`. */
  datatype ParseState = WaitForStart | ReadEscaped | ReadVerbatim | EndOfMessage

  /** The static variables of `receiveBytes` and the buffer `message`. */
  datatype Receiver = Receiver(state: ParseState, index: nat, message: seq<byte>)

  /** What one byte makes the receiver do besides updating its state. */
  datatype Event =
    | Idle                         // the frame is still incomplete, or the byte was ignored
    | Dispatch(data: seq<byte>)    // a frame passed its checksum: `processCommand(message)`
    | BadChecksum                  // a frame ended but its checksum did not match
    | ShortFrame                   // a frame ended before two bytes were stored
    | Overflow                     // the buffer filled up before the frame ended

  datatype StepResult = StepResult(next: Receiver, event: Event)

  /** The receiver as the firmware starts it and as every reset leaves it. */
  function Init(cfg: Config): Receiver {
    Receiver(WaitForStart, 0, Zeros(RxBufLen(cfg)))
  }

  /**
    What holds between two bytes: the buffer has its full size, the index
    points inside it, every byte from the index on is still zero, and a
    receiver waiting for a start byte holds nothing.
   */
  predicate Valid(cfg: Config, r: Receiver) {
    && |r.message| == RxBufLen(cfg)
    && r.index < RxBufLen(cfg)
    && r.state != EndOfMessage
    && (r.state == WaitForStart ==> r.index == 0)
    && forall i :: r.index <= i < |r.message| ==> r.message[i] == 0
  }

  lemma InitValid(cfg: Config)
    ensures Valid(cfg, Init(cfg))
  {
  }

  /** `message[messageIndex++] = b`. */
  function Store(r: Receiver, b: byte): Receiver
    requires r.index < |r.message|
  {
    Receiver(r.state, r.index + 1, r.message[r.index := b])
  }

  /** The `switch (state)` of `receiveBytes`. */
  function Decode(r: Receiver, b: byte): Receiver
    requires r.index < |r.message|
  {
    match r.state
    case WaitForStart =>
      if b == START_OF_FRAME then r.(state := ReadVerbatim) else r
    case ReadVerbatim =>
      if b == ESC then r.(state := ReadEscaped)
      else if b == END_OF_FRAME then r.(state := EndOfMessage)
      else Store(r, b)
    case ReadEscaped =>
      Store(r, XorEsc(b)).(state := ReadVerbatim)
    case EndOfMessage =>
      r
  }

  /**
    The checksum carried by the last two stored bytes, low byte first:
    `message[messageIndex - 2] + (message[messageIndex - 1] << 8)`.
   */
  function ReceivedChecksum(r: Receiver): uint16
    requires 2 <= r.index <= |r.message|
  {
    r.message[r.index - 2] as int + 0x100 * (r.message[r.index - 1] as int)
  }

  /**
    The verdict on a frame whose end marker has just arrived: dispatch the
    whole buffer when the two bytes before the end agree with the checksum
    of everything before them.
   */
  function FrameEvent(r: Receiver): Event
    requires r.index <= |r.message|
  {
    if r.index < 2 then ShortFrame
    else if ReceivedChecksum(r) == Checksum(r.message[..r.index - 2]) then Dispatch(r.message)
    else BadChecksum
  }

  /** Whether `b` is a data byte that the receiver in state `r` writes into its buffer. */
  predicate Stores(r: Receiver, b: byte) {
    r.state == ReadEscaped || (r.state == ReadVerbatim && b != ESC && b != END_OF_FRAME)
  }

  /** The byte written for `b`: escaped bytes are xored back. */
  function Stored(r: Receiver, b: byte): byte {
    if r.state == ReadEscaped then XorEsc(b) else b
  }

  /**
    One iteration of the loop of `receiveBytes` on the byte `b`: decode it,
    judge a completed frame, and reset the receiver (zeroed buffer, index 0,
    waiting for a start byte) after a frame end or when the buffer is full.
   */
  function Step(cfg: Config, r: Receiver, b: byte): (res: StepResult)
    requires Valid(cfg, r)
    ensures Valid(cfg, res.next)
    ensures res.event != Idle ==> res.next == Init(cfg)
    ensures res.event.Dispatch? ==> |res.event.data| == RxBufLen(cfg)
  {
    var d := Decode(r, b);
    if d.state == EndOfMessage then StepResult(Init(cfg), FrameEvent(d))
    else if d.index >= RxBufLen(cfg) then StepResult(Init(cfg), Overflow)
    else StepResult(d, Idle)
  }

  /** What one byte does to a receiver, case by case. */
  lemma StepSpec(cfg: Config, r: Receiver, b: byte)
    requires Valid(cfg, r)
    ensures var res := Step(cfg, r, b);
      // Until a start byte arrives everything else is ignored.
      && (r.state == WaitForStart ==>
            res == (if b == START_OF_FRAME then StepResult(r.(state := ReadVerbatim), Idle) else StepResult(r, Idle)))
      // A frame is handed to the dispatcher exactly when its checksum matches,
      // and then it is the whole buffer that is handed over.
      && (res.event.Dispatch? <==>
            && r.state == ReadVerbatim && b == END_OF_FRAME && r.index >= 2
            && ReceivedChecksum(r) == Checksum(r.message[..r.index - 2]))
      && (res.event.Dispatch? ==> res.event.data == r.message)
      // Only an end marker inside a frame, or a full buffer, ends the frame.
      && (res.event != Idle <==>
            (r.state == ReadVerbatim && b == END_OF_FRAME) || (Stores(r, b) && r.index + 1 == RxBufLen(cfg)))
      // The buffer overflows exactly when a data byte fills its last slot.
      && (res.event == Overflow <==> Stores(r, b) && r.index + 1 == RxBufLen(cfg))
      // Any other data byte is appended; nothing else in the buffer changes.
      && (Stores(r, b) && res.event == Idle ==>
            && res.next == Receiver(ReadVerbatim, r.index + 1, r.message[r.index := Stored(r, b)]))
      // An escape byte inside a frame stores nothing.
      && (r.state == ReadVerbatim && b == ESC ==> res == StepResult(r.(state := ReadEscaped), Idle))
  {
  }

  /**
    `messageIndex - 2` as the firmware evaluates it: `uint16_t` operands and
    16-bit `int` (XC16) make the subtraction unsigned and 16 bits wide.
   */
  function ChecksumOffsetAsWritten(index: uint16): uint16 {
    Trunc16(index - 2)
  }

  /**
    As written, an end marker arriving before two bytes are stored makes
    the firmware read the received checksum at offsets 0xFFFE or 0xFFFF and
    ask `fletcher16` for that many bytes, all outside the buffer.
   */
  lemma ShortFrameReadsOutsideBuffer(cfg: Config, r: Receiver)
    requires ValidConfig(cfg) && Valid(cfg, r)
    requires r.state == ReadVerbatim && r.index < 2
    ensures Decode(r, END_OF_FRAME).state == EndOfMessage
    ensures ChecksumOffsetAsWritten(r.index) >= RxBufLen(cfg)
    ensures ChecksumOffsetAsWritten(r.index) == 0x1_0000 + r.index - 2
  {
  }

  /**
    The model instead drops such a frame without dispatching it and resets
    the receiver, as it does for a frame with a wrong checksum.
   */
  lemma ShortFrameDropped(cfg: Config, r: Receiver)
    requires Valid(cfg, r)
    requires r.state == ReadVerbatim && r.index < 2
    ensures Step(cfg, r, END_OF_FRAME) == StepResult(Init(cfg), ShortFrame)
  {
  }

  datatype FeedResult = FeedResult(next: Receiver, events: seq<Event>)

  /** Every frame handed to the dispatcher is a whole receive buffer. */
  predicate FullBuffers(cfg: Config, events: seq<Event>) {
    forall i :: 0 <= i < |events| && events[i].Dispatch? ==> |events[i].data| == RxBufLen(cfg)
  }

  /** The event of one step as a list: nothing for `Idle`. */
  function Emitted(e: Event): seq<Event> {
    if e == Idle then [] else [e]
  }

  /** The events of `Step`s in order, with the uneventful ones dropped. */
  function Feed(cfg: Config, r: Receiver, input: seq<byte>): (res: FeedResult)
    requires Valid(cfg, r)
    ensures Valid(cfg, res.next)
    ensures Idle !in res.events
    ensures |res.events| <= |input|
    ensures FullBuffers(cfg, res.events)
    decreases |input|
  {
    if input == [] then FeedResult(r, [])
    else
      var s := Step(cfg, r, input[0]);
      var rest := Feed(cfg, s.next, input[1..]);
      FeedResult(rest.next, Emitted(s.event) + rest.events)
  }

  lemma FeedCons(cfg: Config, r: Receiver, x: byte, rest: seq<byte>)
    requires Valid(cfg, r)
    ensures var s := Step(cfg, r, x);
      var f := Feed(cfg, s.next, rest);
      Feed(cfg, r, [x] + rest) == FeedResult(f.next, Emitted(s.event) + f.events)
  {
    assert ([x] + rest)[0] == x;
    assert ([x] + rest)[1..] == rest;
  }

  /** Feeding a concatenation is feeding its parts in turn. */
  lemma {:induction false} FeedAppend(cfg: Config, r: Receiver, a: seq<byte>, b: seq<byte>)
    requires Valid(cfg, r)
    ensures var fa := Feed(cfg, r, a);
      var fb := Feed(cfg, fa.next, b);
      Feed(cfg, r, a + b) == FeedResult(fb.next, fa.events + fb.events)
    decreases |a|
  {
    if a == [] {
      assert a + b == b;
    } else {
      var x, a' := a[0], a[1..];
      var s := Step(cfg, r, x);
      var e := Emitted(s.event);
      var fa' := Feed(cfg, s.next, a');
      var fab := Feed(cfg, s.next, a' + b);
      var fb := Feed(cfg, fa'.next, b);
      assert Feed(cfg, r, a) == FeedResult(fa'.next, e + fa'.events) by {
        assert a == [x] + a';
        FeedCons(cfg, r, x, a');
      }
      assert Feed(cfg, r, a + b) == FeedResult(fab.next, e + fab.events) by {
        assert a + b == [x] + (a' + b);
        FeedCons(cfg, r, x, a' + b);
      }
      FeedAppend(cfg, s.next, a', b);
      Assoc(e, fa'.events, fb.events);
    }
  }

  /** One call of `receiveBytes`: the receiver after it, what it did, and the bytes left unread. */
  datatype Call = Call(next: Receiver, event: Event, rest: seq<byte>)

  /**
    `receiveBytes` with `pending` waiting in the UART: it reads until nothing
    is left (`tryRxByte` fails) or until a frame ends or the buffer
    overflows, in which case it returns right after the reset and leaves the
    remaining bytes for the next call.
   */
  function ReceiveBytes(cfg: Config, r: Receiver, pending: seq<byte>): (c: Call)
    requires Valid(cfg, r)
    ensures Valid(cfg, c.next)
    ensures |c.rest| <= |pending| && c.rest == pending[|pending| - |c.rest|..]
    ensures pending != [] ==> |c.rest| < |pending|
    ensures c.event == Idle ==> c.rest == []
    ensures c.event != Idle ==> c.next == Init(cfg)
    decreases |pending|
  {
    if pending == [] then Call(r, Idle, [])
    else
      var s := Step(cfg, r, pending[0]);
      if s.event != Idle then Call(s.next, s.event, pending[1..])
      else ReceiveBytes(cfg, s.next, pending[1..])
  }

  /** `main` calling `receiveBytes` again and again until the UART is drained. */
  function ReceiveAll(cfg: Config, r: Receiver, pending: seq<byte>): FeedResult
    requires Valid(cfg, r)
    decreases |pending|
  {
    if pending == [] then FeedResult(r, [])
    else
      var c := ReceiveBytes(cfg, r, pending);
      var rest := ReceiveAll(cfg, c.next, c.rest);
      FeedResult(rest.next, Emitted(c.event) + rest.events)
  }

  /**
    One call of `receiveBytes` processes a prefix of the pending bytes
    exactly as the byte-by-byte fold does.
   */
  lemma {:induction false} ReceiveBytesFeeds(cfg: Config, r: Receiver, pending: seq<byte>)
    requires Valid(cfg, r)
    ensures var c := ReceiveBytes(cfg, r, pending);
      var f := Feed(cfg, c.next, c.rest);
      Feed(cfg, r, pending) == FeedResult(f.next, Emitted(c.event) + f.events)
    decreases |pending|
  {
    if pending != [] {
      var s := Step(cfg, r, pending[0]);
      if s.event == Idle {
        ReceiveBytesFeeds(cfg, s.next, pending[1..]);
      }
    }
  }

  /**
    Returning early after a frame loses no input: the calls of `main`'s loop
    together see every byte and report the same events as `Step` applied to
    each byte in turn.
   */
  lemma {:induction false} NoByteLost(cfg: Config, r: Receiver, pending: seq<byte>)
    requires Valid(cfg, r)
    ensures ReceiveAll(cfg, r, pending) == Feed(cfg, r, pending)
    decreases |pending|
  {
    if pending != [] {
      var c := ReceiveBytes(cfg, r, pending);
      ReceiveBytesFeeds(cfg, r, pending);
      NoByteLost(cfg, c.next, c.rest);
    }
  }
}
