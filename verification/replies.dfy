/**
  The answers of the dispatcher on the wire: each `Reply` effect is one call
  of `txString`, `txArray16bit` or `txArray32bit`, and each of those sends
  exactly the frame of its payload.
 */
module Replies {
  import opened Seqs
  import opened Bytes
  import opened Protocol
  import opened Frame
  import opened Transmit
  import opened TxWrappers
  import opened Config
  import opened Dispatch
  import opened DispatchFacts

  /** A reply small enough to go out whole: its byte count fits the 16-bit length. */
  predicate Sendable(send: Send) {
    match send
    case SendString(_, str) => 0 in str && CStrLen(str) + 1 < 0x1_0000
    case SendWords16(_, halfWords) => |halfWords| < 0x8000
    case SendWords32(_, words) => |words| < 0x4000
  }

  /** The payload bytes the reply carries: the string with its terminator, or the words little-endian. */
  function Payload(send: Send): (p: seq<byte>)
    requires Sendable(send)
    ensures |p| < 0x1_0000
  {
    match send
    case SendString(_, str) => str[..CStrLen(str)] + [0]
    case SendWords16(_, halfWords) => SerializeLE16(halfWords)
    case SendWords32(_, words) => SerializeLE32(words)
  }

  /** The bytes the transmit call of a reply writes to the UART. */
  function Wire(send: Send): seq<byte>
    requires Sendable(send)
  {
    match send
    case SendString(cmd, str) => TxString(Idle, cmd, str).wire
    case SendWords16(cmd, halfWords) => TxArray16(Idle, cmd, halfWords).wire
    case SendWords32(cmd, words) => TxArray32(Idle, cmd, words).wire
  }

  /** Every reply goes out as the frame of its command and payload. */
  lemma WireEncodes(send: Send)
    requires Sendable(send)
    ensures Wire(send) == Encode(send.cmd, Payload(send))
  {
    var p := Payload(send);
    match send
    case SendString(cmd, str) =>
      TxStringEncodes(Idle, cmd, str);
      assert [] + Encode(cmd, p) == Encode(cmd, p);
    case SendWords16(cmd, halfWords) =>
      TxArray16Encodes(Idle, cmd, halfWords);
      assert [] + Encode(cmd, p) == Encode(cmd, p);
    case SendWords32(cmd, words) =>
      TxArray32Encodes(Idle, cmd, words);
      assert [] + Encode(cmd, p) == Encode(cmd, p);
  }

  /** Every reply in a list of effects can be sent. */
  predicate AllSendable(effects: seq<Effect>) {
    forall e :: e in effects && e.Reply? ==> Sendable(e.send)
  }

  /** The frame one effect puts on the UART: its reply's, or nothing. */
  function EffectWire(e: Effect): seq<byte>
    requires e.Reply? ==> Sendable(e.send)
  {
    if e.Reply? then Wire(e.send) else []
  }

  /** The UART output of a list of effects: the frames of its replies, in order. */
  function Output(effects: seq<Effect>): seq<byte>
    requires AllSendable(effects)
  {
    if effects == [] then [] else EffectWire(effects[0]) + Output(effects[1..])
  }

  /** Output of a concatenation is the concatenation of the outputs. */
  lemma {:induction false} OutputAppend(a: seq<Effect>, b: seq<Effect>)
    requires AllSendable(a) && AllSendable(b)
    ensures AllSendable(a + b)
    ensures Output(a + b) == Output(a) + Output(b)
    decreases |a|
  {
    assert AllSendable(a + b) by {
      forall e | e in a + b && e.Reply? ensures Sendable(e.send) {
        assert e in a || e in b;
      }
    }
    if a == [] {
      assert a + b == b;
    } else {
      var rest := a[1..];
      assert AllSendable(rest) by {
        forall e | e in rest && e.Reply? ensures Sendable(e.send) {
          assert e in a;
        }
      }
      assert (a + b)[0] == a[0];
      assert (a + b)[1..] == rest + b;
      OutputAppend(rest, b);
      assert Output(a + b) == EffectWire(a[0]) + Output(rest + b);
      assert Output(a) == EffectWire(a[0]) + Output(rest);
      Assoc(EffectWire(a[0]), Output(rest), Output(b));
    }
  }

  /** The string of a zero-padded `char` array ends where the padding begins. */
  lemma CBufferString(s: seq<byte>, size: nat)
    requires |s| < size && 0 !in s
    ensures 0 in CBuffer(s, size) && CStrLen(CBuffer(s, size)) == |s|
    ensures CBuffer(s, size)[..|s|] + [0] == s + [0]
  {
    var buf := CBuffer(s, size);
    assert buf[|s|] == 0;
    CStrLenFirstZero(buf, |s|);
  }

  /** `CStrLen` finds the first NUL. */
  lemma {:induction false} CStrLenFirstZero(str: seq<byte>, n: nat)
    requires n < |str| && str[n] == 0 && 0 !in str[..n]
    ensures CStrLen(str) == n
    decreases n
  {
    if n > 0 {
      assert str[0] != 0 by {
        assert str[..n][0] == str[0];
      }
      assert str[1..][..n - 1] == str[..n][1..];
      CStrLenFirstZero(str[1..], n - 1);
    }
  }

  /**
    Every answer of the dispatcher goes out whole: the platform and version
    strings are terminated inside their arrays, and no word array reaches
    the 16-bit byte-count limit (`MAX_PROG_SIZE + 1` words at most).
   */
  lemma RepliesSendable(cfg: Config, read: uint32 -> uint32, data: seq<byte>)
    requires ValidConfig(cfg) && ArgsEnd(cfg) <= |data|
    ensures AllSendable(ProcessCommand(cfg, read, data))
  {
    var effects := ProcessCommand(cfg, read, data);
    RepliesOnlyToQueries(cfg, read, data);
    var c := CommandOf(data[2]);
    if c.Some? && IsQuery(c.value) {
      assert effects == [effects[0]];
      if c.value == ReadPlatform {
        CBufferString(cfg.platform, 20);
      } else if c.value == ReadVersion {
        CBufferString(VERSION, 16);
      }
    }
  }

  /** A query is answered by one reply that can be sent whole. */
  lemma QueryAnswered(cfg: Config, read: uint32 -> uint32, data: seq<byte>)
    requires ValidConfig(cfg) && ArgsEnd(cfg) <= |data|
    requires CommandOf(data[2]).Some? && IsQuery(CommandOf(data[2]).value)
    ensures var effects := ProcessCommand(cfg, read, data);
      |effects| == 1 && effects[0].Reply? && Sendable(effects[0].send)
  {
    RepliesOnlyToQueries(cfg, read, data);
    RepliesSendable(cfg, read, data);
    var effects := ProcessCommand(cfg, read, data);
    assert effects[0] in effects;
  }

  /** The platform and version strings go out with their terminators. */
  lemma StringPayloads(cfg: Config, read: uint32 -> uint32, data: seq<byte>)
    requires ValidConfig(cfg) && ArgsEnd(cfg) <= |data|
    requires CommandOf(data[2]) == Some(ReadPlatform) || CommandOf(data[2]) == Some(ReadVersion)
    ensures var effects := ProcessCommand(cfg, read, data);
      && |effects| == 1 && effects[0].Reply? && Sendable(effects[0].send)
      && Payload(effects[0].send) == (if data[2] == Code(ReadPlatform) then cfg.platform else VERSION) + [0]
  {
    QueryAnswered(cfg, read, data);
    CBufferString(cfg.platform, 20);
    CBufferString(VERSION, 16);
  }

  /**
    The build values go out as one little-endian word, truncated to the
    width of the variable the firmware stores them in: 16 bits for all but
    `__PROGRAM_LENGTH`, which gets 32.
   */
  lemma ValuePayloads(cfg: Config, read: uint32 -> uint32, data: seq<byte>)
    requires ValidConfig(cfg) && ArgsEnd(cfg) <= |data|
    requires 0x02 <= data[2] <= 0x07
    ensures var effects := ProcessCommand(cfg, read, data);
      && |effects| == 1 && effects[0].Reply? && Sendable(effects[0].send)
      && var p := Payload(effects[0].send);
      && var c := CommandOf(data[2]).value;
      && (c == ReadRowLen ==> p == LE16(cfg.flashRow % 0x1_0000))
      && (c == ReadPageLen ==> p == LE16(cfg.flashPage % 0x1_0000))
      && (c == ReadProgLen ==> p == LE32(cfg.programLength % 0x1_0000_0000))
      && (c == ReadMaxProgSize ==> p == LE16(cfg.maxProgSize))
      && (c == ReadAppStartAddr ==> p == LE16(cfg.appStartAddress % 0x1_0000))
      && (c == ReadBootStartAddr ==> p == LE16(cfg.bootBase % 0x1_0000))
  {
    QueryAnswered(cfg, read, data);
    var effects := ProcessCommand(cfg, read, data);
    var c := CommandOf(data[2]).value;
    assert effects == Run(cfg, read, c, data);
    var send := effects[0].send;
    match c {
      case ReadRowLen => OneHalfWord(send, Trunc16(cfg.flashRow));
      case ReadPageLen => OneHalfWord(send, Trunc16(cfg.flashPage));
      case ReadProgLen =>
        assert send.words == [Trunc32(cfg.programLength)];
        assert SerializeLE32(send.words) == LE32(send.words[0]) + SerializeLE32([]);
      case ReadMaxProgSize => OneHalfWord(send, Trunc16(cfg.maxProgSize));
      case ReadAppStartAddr => OneHalfWord(send, Trunc16(cfg.appStartAddress));
      case ReadBootStartAddr => OneHalfWord(send, Trunc16(cfg.bootBase));
    }
  }

  /** A one-word 16-bit reply carries that word's two bytes. */
  lemma OneHalfWord(send: Send, w: uint16)
    requires send.SendWords16? && send.halfWords == [w]
    ensures Sendable(send) && Payload(send) == LE16(w)
  {
    assert SerializeLE16([w]) == LE16(w) + SerializeLE16([]);
  }

  /**
    `CMD_READ_ADDR` answers with the address and the word read there;
    `CMD_READ_MAX` with the address and `MAX_PROG_SIZE` words.
   */
  lemma FlashReadPayloads(cfg: Config, read: uint32 -> uint32, data: seq<byte>)
    requires ValidConfig(cfg) && ArgsEnd(cfg) <= |data|
    requires CommandOf(data[2]) == Some(ReadAddr) || CommandOf(data[2]) == Some(ReadMax)
    ensures var effects := ProcessCommand(cfg, read, data);
      && |effects| == 1 && effects[0].Reply? && Sendable(effects[0].send)
      && var p := Payload(effects[0].send);
      && (data[2] == Code(ReadAddr) ==> p == LE32(Address(data)) + LE32(read(Address(data))))
      && (data[2] == Code(ReadMax) ==> |p| == 4 * (cfg.maxProgSize + 1) && p[..4] == LE32(Address(data)))
  {
    QueryAnswered(cfg, read, data);
    var effects := ProcessCommand(cfg, read, data);
    var ws := effects[0].send.words;
    assert SerializeLE32(ws) == LE32(ws[0]) + SerializeLE32(ws[1..]);
    if data[2] == Code(ReadAddr) {
      assert SerializeLE32(ws[1..]) == LE32(ws[1]) + SerializeLE32([]);
    }
  }
}
