/**
  The wire vocabulary shared by the transmitter and the receiver: the three
  marker bytes, the escape rule and the command codes of `CommCommand`.
 */
module Protocol {
  import opened Bytes

  const START_OF_FRAME: byte := 0xF7
  const END_OF_FRAME: byte := 0x7F
  const ESC: byte := 0xF6
  const ESC_XOR: byte := 0x20

  /** `b ^ ESC_XOR`; `ESC_XOR` has the single bit 0x20 set. */
  function XorEsc(b: byte): byte {
    XorBit5(b)
  }

  /** The bytes that may never appear literally inside a frame. */
  predicate IsMarker(b: byte) {
    b == START_OF_FRAME || b == END_OF_FRAME || b == ESC
  }

  /** The three markers are distinct and escaping turns each into a plain byte. */
  lemma MarkersDistinct()
    ensures START_OF_FRAME != END_OF_FRAME && START_OF_FRAME != ESC && END_OF_FRAME != ESC
    ensures !IsMarker(XorEsc(START_OF_FRAME))
    ensures !IsMarker(XorEsc(END_OF_FRAME))
    ensures !IsMarker(XorEsc(ESC))
  {
  }

  /** Xor with `ESC_XOR` undoes itself, so the receiver's xor reverses the sender's. */
  lemma XorInvolution(b: byte)
    ensures XorEsc(XorEsc(b)) == b
  {
    XorBit5Spec(b);
  }

  /** The raw bytes sent for one logical byte. */
  function Escape(b: byte): seq<byte> {
    if IsMarker(b) then [ESC, XorEsc(b)] else [b]
  }

  /**
    A plain byte goes out as itself; a marker goes out as `ESC` followed by
    a plain byte that xors back to it. Neither form holds a frame marker.
   */
  lemma EscapeSpec(b: byte)
    ensures var raw := Escape(b);
      && 1 <= |raw| <= 2
      && START_OF_FRAME !in raw && END_OF_FRAME !in raw
      && (|raw| == 1 <==> !IsMarker(b))
      && (|raw| == 1 ==> raw[0] == b)
      && (|raw| == 2 ==> raw[0] == ESC && XorEsc(raw[1]) == b && !IsMarker(raw[1]))
  {
    if IsMarker(b) {
      MarkersDistinct();
      XorInvolution(b);
    }
  }

  /** The raw bytes sent for a run of logical bytes, each escaped in turn. */
  function Stuff(bs: seq<byte>): seq<byte> {
    if bs == [] then [] else Escape(bs[0]) + Stuff(bs[1..])
  }

  /** Escaping at most doubles a run and never yields a frame marker. */
  lemma {:induction false} StuffSpec(bs: seq<byte>)
    ensures |bs| <= |Stuff(bs)| <= 2 * |bs|
    ensures START_OF_FRAME !in Stuff(bs) && END_OF_FRAME !in Stuff(bs)
  {
    if bs != [] {
      EscapeSpec(bs[0]);
      StuffSpec(bs[1..]);
    }
  }

  /** Escaping distributes over concatenation. */
  lemma {:induction false} StuffAppend(a: seq<byte>, b: seq<byte>)
    ensures Stuff(a + b) == Stuff(a) + Stuff(b)
  {
    if a == [] {
      assert a + b == b;
    } else {
      assert (a + b)[0] == a[0];
      assert (a + b)[1..] == a[1..] + b;
      StuffAppend(a[1..], b);
    }
  }

  /** The commands of the `CommCommand` enumeration. */
  datatype Command =
    | ReadPlatform
    | ReadVersion
    | ReadRowLen
    | ReadPageLen
    | ReadProgLen
    | ReadMaxProgSize
    | ReadAppStartAddr
    | ReadBootStartAddr
    | ErasePage
    | ReadAddr
    | ReadMax
    | WriteRow
    | WriteMaxProgSize
    | StartApp

  /** The byte that selects a command on the wire. */
  function Code(c: Command): byte {
    match c
    case ReadPlatform => 0x00
    case ReadVersion => 0x01
    case ReadRowLen => 0x02
    case ReadPageLen => 0x03
    case ReadProgLen => 0x04
    case ReadMaxProgSize => 0x05
    case ReadAppStartAddr => 0x06
    case ReadBootStartAddr => 0x07
    case ErasePage => 0x10
    case ReadAddr => 0x20
    case ReadMax => 0x21
    case WriteRow => 0x30
    case WriteMaxProgSize => 0x31
    case StartApp => 0x40
  }

  /** The `switch (cmd)` of the dispatcher: which case label, if any, a byte selects. */
  function CommandOf(b: byte): (c: Option<Command>)
    ensures c.Some? ==> Code(c.value) == b
  {
    match b
    case 0x00 => Some(ReadPlatform)
    case 0x01 => Some(ReadVersion)
    case 0x02 => Some(ReadRowLen)
    case 0x03 => Some(ReadPageLen)
    case 0x04 => Some(ReadProgLen)
    case 0x05 => Some(ReadMaxProgSize)
    case 0x06 => Some(ReadAppStartAddr)
    case 0x07 => Some(ReadBootStartAddr)
    case 0x10 => Some(ErasePage)
    case 0x20 => Some(ReadAddr)
    case 0x21 => Some(ReadMax)
    case 0x30 => Some(WriteRow)
    case 0x31 => Some(WriteMaxProgSize)
    case 0x40 => Some(StartApp)
    case _ => None
  }

  datatype Option<+T> = None | Some(value: T)

  /**
    The codes are pairwise distinct: every command is selected by its own code
    and by no other byte, so the dispatcher enters at most one case.
   */
  lemma CodesSelectUniquely(c: Command, b: byte)
    ensures CommandOf(Code(c)) == Some(c)
    ensures CommandOf(b) == Some(c) <==> b == Code(c)
  {
  }

  /** Bytes outside the enumeration select no case at all. */
  lemma UnknownCodes(b: byte)
    ensures CommandOf(b) == None <==> forall c: Command :: Code(c) != b
  {
    if CommandOf(b) == None {
      forall c: Command ensures Code(c) != b {
        CodesSelectUniquely(c, b);
      }
    }
  }
}
