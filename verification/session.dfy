/**
  The bootloader loop of `main`: `receiveBytes` over everything the host
  sends, each verified frame handed to `processCommand`, until a
  `CMD_START_APP` jumps to the application and nothing more is read.
 */
module Session {
  import opened Seqs
  import opened Bytes
  import opened Protocol
  import opened Config
  import opened Fletcher
  import opened Frame
  import opened Parser
  import opened Reception
  import opened Dispatch
  import opened DispatchFacts
  import opened Replies

  /** Whether some effect is the jump to the application. */
  predicate Starts(effects: seq<Effect>) {
    exists e :: e in effects && e.StartApp?
  }

  /** What `processCommand` does for one receiver event: only a verified frame is dispatched. */
  function React(cfg: Config, read: uint32 -> uint32, e: Event): (effects: seq<Effect>)
    requires ValidConfig(cfg) && (e.Dispatch? ==> |e.data| == RxBufLen(cfg))
    ensures !e.Dispatch? ==> effects == []
    ensures Starts(effects) ==> effects == [Effect.StartApp(cfg.appStartAddress % 0x1_0000)]
  {
    if e.Dispatch? then
      BufferFitsLargestFrame(cfg);
      StartAppAlone(cfg, read, e.data);
      ProcessCommand(cfg, read, e.data)
    else []
  }

  /**
    `startApp` does not return: whatever jumps to the application is the
    last thing a command does, and it is the whole of `CMD_START_APP`.
   */
  lemma StartAppAlone(cfg: Config, read: uint32 -> uint32, data: seq<byte>)
    requires ValidConfig(cfg) && ArgsEnd(cfg) <= |data|
    ensures var effects := ProcessCommand(cfg, read, data);
      && (Starts(effects) <==> CommandOf(data[2]) == Some(Command.StartApp))
      && (Starts(effects) ==> effects == [Effect.StartApp(cfg.appStartAddress % 0x1_0000)])
  {
    var effects := ProcessCommand(cfg, read, data);
    var c := CommandOf(data[2]);
    if c == Some(Command.StartApp) {
      assert effects[0] in effects;
    } else if c.Some? && c.value.WriteMaxProgSize? && !IsAddrInBoot(cfg, Address(data)) {
      WholeRowsFit(cfg);
      RowWritesAreWrites(cfg, Address(data), ProgData(cfg, Address(data), data), 0);
    }
  }

  /**
    The effects of a run of events: each event's in turn, stopping after
    the jump to the application. The jump, if any, is the last effect.
   */
  function Handle(cfg: Config, read: uint32 -> uint32, events: seq<Event>): (effects: seq<Effect>)
    requires ValidConfig(cfg) && FullBuffers(cfg, events)
    ensures forall i :: 0 <= i < |effects| - 1 ==> !effects[i].StartApp?
    decreases |events|
  {
    if events == [] then []
    else
      var now := React(cfg, read, events[0]);
      assert FullBuffers(cfg, events[1..]) by {
        forall i | 0 <= i < |events[1..]| && events[1..][i].Dispatch?
          ensures |events[1..][i].data| == RxBufLen(cfg)
        {
          assert events[1..][i] == events[i + 1];
        }
      }
      if Starts(now) then now
      else
        var later := Handle(cfg, read, events[1..]);
        assert forall i :: 0 <= i < |now| ==> !now[i].StartApp? by {
          forall i | 0 <= i < |now| ensures !now[i].StartApp? {
            assert now[i] in now;
          }
        }
        now + later
  }

  /** Everything the bootloader does with the bytes `input`, from power-up. */
  function Bootloader(cfg: Config, read: uint32 -> uint32, input: seq<byte>): seq<Effect>
    requires ValidConfig(cfg)
  {
    InitValid(cfg);
    Handle(cfg, read, Feed(cfg, Init(cfg), input).events)
  }

  /** Once a run of events has started the application, later events change nothing. */
  lemma {:induction false} HandleAppend(cfg: Config, read: uint32 -> uint32, a: seq<Event>, b: seq<Event>)
    requires ValidConfig(cfg) && FullBuffers(cfg, a) && FullBuffers(cfg, b)
    ensures FullBuffers(cfg, a + b)
    ensures Handle(cfg, read, a + b)
      == if Starts(Handle(cfg, read, a)) then Handle(cfg, read, a)
         else Handle(cfg, read, a) + Handle(cfg, read, b)
    decreases |a|
  {
    assert FullBuffers(cfg, a + b) by {
      forall i | 0 <= i < |a + b| && (a + b)[i].Dispatch?
        ensures |(a + b)[i].data| == RxBufLen(cfg)
      {
        if i < |a| {
          assert (a + b)[i] == a[i];
        } else {
          assert (a + b)[i] == b[i - |a|];
        }
      }
    }
    if a == [] {
      assert a + b == b;
      assert !Starts(Handle(cfg, read, a));
    } else {
      var now := React(cfg, read, a[0]);
      assert (a + b)[0] == a[0];
      assert (a + b)[1..] == a[1..] + b;
      if !Starts(now) {
        assert FullBuffers(cfg, a[1..]) by {
          forall i | 0 <= i < |a[1..]| && a[1..][i].Dispatch?
            ensures |a[1..][i].data| == RxBufLen(cfg)
          {
            assert a[1..][i] == a[i + 1];
          }
        }
        HandleAppend(cfg, read, a[1..], b);
        var rest := Handle(cfg, read, a[1..]);
        assert Handle(cfg, read, a) == now + rest;
        assert Starts(now + rest) <==> Starts(rest) by {
          assert forall e :: e in now + rest <==> e in now || e in rest;
        }
        Assoc(now, rest, Handle(cfg, read, b));
      }
    }
  }

  /** After `CMD_START_APP`, the bootloader reads nothing more: later input has no effect. */
  lemma InputAfterStartIgnored(cfg: Config, read: uint32 -> uint32, input: seq<byte>, more: seq<byte>)
    requires ValidConfig(cfg)
    requires Starts(Bootloader(cfg, read, input))
    ensures Bootloader(cfg, read, input + more) == Bootloader(cfg, read, input)
  {
    InitValid(cfg);
    FeedAppend(cfg, Init(cfg), input, more);
    var fa := Feed(cfg, Init(cfg), input);
    HandleAppend(cfg, read, fa.events, Feed(cfg, fa.next, more).events);
  }

  /** Bytes before a start marker are line noise: the bootloader behaves as if they were never sent. */
  lemma NoiseHasNoEffect(cfg: Config, read: uint32 -> uint32, noise: seq<byte>, input: seq<byte>)
    requires ValidConfig(cfg) && START_OF_FRAME !in noise
    ensures Bootloader(cfg, read, noise + input) == Bootloader(cfg, read, input)
  {
    InitValid(cfg);
    FeedAppend(cfg, Init(cfg), noise, input);
    NoiseIgnored(cfg, noise);
    assert [] + Feed(cfg, Init(cfg), input).events == Feed(cfg, Init(cfg), input).events;
  }

  /** The buffer the dispatcher sees for a frame the transmitter built. */
  function Received(cfg: Config, cmd: byte, payload: seq<byte>): (data: seq<byte>)
    requires ValidConfig(cfg) && |payload| + 5 < RxBufLen(cfg)
    ensures |data| == RxBufLen(cfg) && data[2] == cmd
  {
    var l := Logical(cmd, payload);
    var content := l + LE16(Checksum(l));
    content + Zeros(RxBufLen(cfg) - |content|)
  }

  /**
    A well-formed frame that fits the buffer is dispatched exactly once,
    with its command byte where `processCommand` reads it.
   */
  lemma FrameDispatched(cfg: Config, read: uint32 -> uint32, cmd: byte, payload: seq<byte>)
    requires ValidConfig(cfg) && |payload| + 5 < RxBufLen(cfg)
    ensures Bootloader(cfg, read, Encode(cmd, payload))
      == ProcessCommand(cfg, read, Received(cfg, cmd, payload))
  {
    RoundTrip(cfg, cmd, payload);
    var data := Received(cfg, cmd, payload);
    var events := [Dispatch(data)];
    assert Feed(cfg, Init(cfg), Encode(cmd, payload)).events == events;
    HandleOne(cfg, read, data);
  }

  /** A single dispatched frame has the effects `processCommand` gives it. */
  lemma HandleOne(cfg: Config, read: uint32 -> uint32, data: seq<byte>)
    requires ValidConfig(cfg) && |data| == RxBufLen(cfg)
    ensures FullBuffers(cfg, [Dispatch(data)])
    ensures Handle(cfg, read, [Dispatch(data)]) == React(cfg, read, Dispatch(data))
  {
    var events := [Dispatch(data)];
    assert events[0] == Dispatch(data);
    assert events[1..] == [];
    var now := React(cfg, read, events[0]);
    assert Handle(cfg, read, events[1..]) == [];
    assert now + [] == now;
  }

  /**
    A query sent as one frame is answered with one frame: the same command
    byte and the payload of the answer, exactly as the host decodes it.
   */
  lemma QueryRoundTrip(cfg: Config, read: uint32 -> uint32, cmd: byte, payload: seq<byte>)
    requires ValidConfig(cfg) && |payload| + 5 < RxBufLen(cfg)
    requires CommandOf(cmd).Some? && IsQuery(CommandOf(cmd).value)
    ensures var effects := Bootloader(cfg, read, Encode(cmd, payload));
      && |effects| == 1 && effects[0].Reply? && Sendable(effects[0].send)
      && AllSendable(effects)
      && Output(effects) == Encode(cmd, Payload(effects[0].send))
  {
    FrameDispatched(cfg, read, cmd, payload);
    var data := Received(cfg, cmd, payload);
    BufferFitsLargestFrame(cfg);
    QueryAnswered(cfg, read, data);
    RepliesOnlyToQueries(cfg, read, data);
    var effects := Bootloader(cfg, read, Encode(cmd, payload));
    WireEncodes(effects[0].send);
    assert effects[1..] == [];
  }

  /** Asking for the row length over the wire returns `_FLASH_ROW`, little-endian, in one frame. */
  lemma RowLengthQuery(cfg: Config, read: uint32 -> uint32)
    requires ValidConfig(cfg)
    ensures var effects := Bootloader(cfg, read, Encode(Code(ReadRowLen), []));
      AllSendable(effects) && Output(effects) == Encode(Code(ReadRowLen), LE16(cfg.flashRow % 0x1_0000))
  {
    var cmd := Code(ReadRowLen);
    var effects := Bootloader(cfg, read, Encode(cmd, []));
    QueryRoundTrip(cfg, read, cmd, []);
    assert Output(effects) == Encode(cmd, Payload(effects[0].send));
    FrameDispatched(cfg, read, cmd, []);
    var data := Received(cfg, cmd, []);
    assert effects == ProcessCommand(cfg, read, data);
    BufferFitsLargestFrame(cfg);
    ValuePayloads(cfg, read, data);
    assert Payload(effects[0].send) == LE16(cfg.flashRow % 0x1_0000);
  }

  /** A frame with a wrong checksum does nothing. */
  lemma CorruptFrameHasNoEffect(cfg: Config, read: uint32 -> uint32, cmd: byte, payload: seq<byte>, v: uint16)
    requires ValidConfig(cfg) && |payload| + 5 < RxBufLen(cfg)
    requires v != Checksum(Logical(cmd, payload))
    ensures var l := Logical(cmd, payload);
      Bootloader(cfg, read, [START_OF_FRAME] + Stuff(l + LE16(v)) + [END_OF_FRAME]) == []
  {
    CorruptChecksumRejected(cfg, cmd, payload, v);
  }

  /**
    `processCommand` never checks how many argument bytes a frame carried:
    an `CMD_ERASE_PAGE` frame with no payload takes its address from the
    frame's own checksum bytes and the zeroed rest of the buffer, and so
    erases the page at 0x1010 unless the boot region covers it.
   */
  lemma EmptyEraseUsesChecksum(cfg: Config, read: uint32 -> uint32)
    requires ValidConfig(cfg)
    ensures Bootloader(cfg, read, Encode(Code(ErasePage), []))
      == if IsAddrInBoot(cfg, 0x1010) then [] else [Erase(0x1010)]
  {
    var cmd := Code(ErasePage);
    FrameDispatched(cfg, read, cmd, []);
    var data := Received(cfg, cmd, []);
    EmptyEraseAddress(cfg);
    assert CommandOf(data[2]) == Some(ErasePage);
    BufferFitsLargestFrame(cfg);
    assert ProcessCommand(cfg, read, data) == Run(cfg, read, ErasePage, data);
  }

  /** The address argument of an empty `CMD_ERASE_PAGE` frame: its checksum bytes, then zeros. */
  lemma EmptyEraseAddress(cfg: Config)
    requires ValidConfig(cfg)
    ensures Address(Received(cfg, Code(ErasePage), [])) == 0x1010
  {
    var l := Logical(Code(ErasePage), []);
    assert l == [0, 0, 0x10];
    ChecksumOfEmptyErase();
    var data := Received(cfg, Code(ErasePage), []);
    assert data[3] == 0x10 && data[4] == 0x10 && data[5] == 0 && data[6] == 0;
  }

  /** The checksum of the logical bytes of an empty `CMD_ERASE_PAGE` frame is 0x1010. */
  lemma ChecksumOfEmptyErase()
    ensures LE16(Checksum([0, 0, 0x10])) == [0x10, 0x10]
  {
    var bs: seq<byte> := [0, 0, 0x10];
    assert bs[1..] == [0, 0x10] && bs[1..][1..] == [0x10] && bs[1..][1..][1..] == [];
    assert AccumAll(Reset, bs) == AccumAll(Sums(0, 0), [0, 0x10]);
    assert AccumAll(Sums(0, 0), [0, 0x10]) == AccumAll(Sums(0, 0), [0x10]);
    assert AccumAll(Sums(0, 0), [0x10]) == Sums(0x10, 0x10);
    ValueBytes(Sums(0x10, 0x10));
  }
}
