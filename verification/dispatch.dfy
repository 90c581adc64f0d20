/**
  `processCommand`: what the bootloader does with a frame that passed its
  checksum. Flash and the UART are not modelled as state; the dispatcher
  returns the calls it makes on them, in order, as effects. Flash reads
  are a parameter (`readAddress`).
 */
module Dispatch {
  import opened Bytes
  import opened Protocol
  import opened Config

  /** A call of one of the transmit functions. */
  datatype Send =
    | SendString(cmd: byte, str: seq<byte>)           // txString(cmd, str)
    | SendWords16(cmd: byte, halfWords: seq<uint16>)      // txArray16bit(cmd, words, |words|)
    | SendWords32(cmd: byte, words: seq<uint32>)      // txArray32bit(cmd, words, |words|)

  /** The calls `processCommand` makes on flash, the UART and the application. */
  datatype Effect =
    | Erase(address: uint32)                                         // eraseByAddress
    | DoubleWordWrite(address: uint32, word0: uint32, word1: uint32)  // doubleWordWrite
    | WriteRow(address: uint32, words: seq<uint32>)                   // writeRow
    | Reply(send: Send)
    | StartApp(entry: uint16)                                         // startApp

  /** Effects that change flash. */
  predicate Mutates(e: Effect) {
    e.Erase? || e.DoubleWordWrite? || e.WriteRow?
  }

  /** The commands that only read and answer: every case before `CMD_ERASE_PAGE`, and the two flash reads. */
  predicate IsQuery(c: Command) {
    !(c.ErasePage? || c.WriteRow? || c.WriteMaxProgSize? || c.StartApp?)
  }

  /** The words a list of effects programs into flash rows, in order. */
  function RowWords(effects: seq<Effect>): seq<uint32> {
    if effects == [] then []
    else (if effects[0].WriteRow? then effects[0].words else []) + RowWords(effects[1..])
  }

  /** `VERSION_STRING`: "0.1". */
  const VERSION: seq<byte> := [0x30, 0x2E, 0x31]

  /** A `char[size]` initialised from a shorter string literal: the rest is zeros. */
  function CBuffer(s: seq<byte>, size: nat): (buf: seq<byte>)
    requires |s| < size
    ensures |buf| == size && buf[..|s|] == s
    ensures forall i :: |s| <= i < size ==> buf[i] == 0
  {
    s + Zeros(size - |s|)
  }

  /**
    `0x040000U | (uint32_t)&_BOOT_BASE`: the GOTO instruction to the
    bootloader. The constant has the single bit 18 set, so the or sets that
    bit and keeps the others.
   */
  function GotoBootloader(cfg: Config): uint32 {
    if (cfg.bootBase / 0x4_0000) % 2 == 1 then cfg.bootBase
    else
      Bit18Clear(cfg.bootBase);
      cfg.bootBase + 0x4_0000
  }

  /** Setting a clear bit 18 of a 32-bit word does not carry out of the word. */
  lemma Bit18Clear(x: uint32)
    requires (x / 0x4_0000) % 2 == 0
    ensures x + 0x4_0000 < 0x1_0000_0000
  {
    var q := x / 0x4_0000;
    assert q < 0x4000;
    assert q <= 0x3FFE;
    assert x < (q + 1) * 0x4_0000;
  }

  /** `from_lendian_uint32(data + 3)`: the address argument. */
  function Address(data: seq<byte>): uint32
    requires 7 <= |data|
  {
    FromLendianUint32(data, 3)
  }

  /** `from_lendian_uint32(data + 7 + i * 4)` for the first `n` words. */
  function Words(data: seq<byte>, n: nat): (ws: seq<uint32>)
    requires 7 + 4 * n <= |data|
    ensures |ws| == n
    ensures forall i :: 0 <= i < n ==> ws[i] == FromLendianUint32(data, 7 + 4 * i)
  {
    seq(n, i requires 0 <= i < n => FromLendianUint32(data, 7 + 4 * i))
  }

  /** `readAddress(address + 2*i)` for `i` below `n`, with 32-bit address arithmetic. */
  function ReadWords(read: uint32 -> uint32, address: uint32, n: nat): (ws: seq<uint32>)
    ensures |ws| == n
    ensures forall i :: 0 <= i < n ==> ws[i] == read(Trunc32(address + 2 * i))
  {
    seq(n, i requires 0 <= i < n => read(Trunc32(address + 2 * i)))
  }

  /**
    `progData` of `CMD_WRITE_MAX_PROG_SIZE`: the `MAX_PROG_SIZE` words of
    the frame and the extra zero word, with the first two replaced by a jump
    to the bootloader when the write starts at address zero.
   */
  function ProgData(cfg: Config, address: uint32, data: seq<byte>): (prog: seq<uint32>)
    requires ValidConfig(cfg) && ArgsEnd(cfg) <= |data|
    ensures |prog| == cfg.maxProgSize + 1
  {
    var words := Words(data, cfg.maxProgSize) + [0];
    if address == 0 then words[0 := GotoBootloader(cfg)][1 := 0] else words
  }

  /**
    `i * _FLASH_ROW`: the index in `progData` of the first word of row `i`,
    written as repeated addition so that the row arithmetic stays linear.
   */
  function RowStart(cfg: Config, i: nat): nat {
    if i == 0 then 0 else RowStart(cfg, i - 1) + cfg.flashRow
  }

  /** `RowStart` is the product the firmware computes. */
  lemma {:induction false} RowStartProduct(cfg: Config, i: nat)
    ensures RowStart(cfg, i) == i * cfg.flashRow
  {
    if i > 0 {
      RowStartProduct(cfg, i - 1);
      assert i * cfg.flashRow == (i - 1) * cfg.flashRow + cfg.flashRow;
    }
  }

  /** Every row that starts inside the bulk buffer ends inside it. */
  ghost predicate RowsFit(cfg: Config) {
    && cfg.flashRow > 0
    && forall i: nat :: RowStart(cfg, i) < cfg.maxProgSize ==> RowStart(cfg, i) + cfg.flashRow <= cfg.maxProgSize
  }

  /** Rows never reach past the bulk buffer: `MAX_PROG_SIZE` is a whole number of rows. */
  lemma WholeRowsFit(cfg: Config)
    requires ValidConfig(cfg)
    ensures RowsFit(cfg)
  {
    forall i: nat | RowStart(cfg, i) < cfg.maxProgSize
      ensures RowStart(cfg, i) + cfg.flashRow <= cfg.maxProgSize
    {
      RowFits(cfg, i);
    }
  }

  lemma RowFits(cfg: Config, i: nat)
    requires ValidConfig(cfg) && RowStart(cfg, i) < cfg.maxProgSize
    ensures RowStart(cfg, i) + cfg.flashRow <= cfg.maxProgSize
  {
    var row, k := cfg.flashRow, cfg.maxProgSize / cfg.flashRow;
    RowStartProduct(cfg, i);
    assert cfg.maxProgSize == k * row;
    if i + 1 > k {
      MulMono(k, i, row);
      assert false;
    }
    MulMono(i + 1, k, row);
  }

  lemma MulMono(a: nat, b: nat, c: nat)
    requires a <= b
    ensures a * c <= b * c
  {
  }

  /**
    The loop `for (i = 0; i * _FLASH_ROW < MAX_PROG_SIZE; i++)
    writeRow(address + i * _FLASH_ROW * 2, progData + i * _FLASH_ROW)`,
    from row `i` on; flash addresses advance by two per word.
   */
  function RowWrites(cfg: Config, address: uint32, prog: seq<uint32>, i: nat): seq<Effect>
    requires RowsFit(cfg) && |prog| == cfg.maxProgSize + 1
    decreases cfg.maxProgSize - RowStart(cfg, i)
  {
    var start := RowStart(cfg, i);
    if start < cfg.maxProgSize then
      [Effect.WriteRow(Trunc32(address + start * 2), prog[start..start + cfg.flashRow])]
        + RowWrites(cfg, address, prog, i + 1)
    else []
  }

  /** The `switch (cmd)` of `processCommand`. */
  function ProcessCommand(cfg: Config, read: uint32 -> uint32, data: seq<byte>): seq<Effect>
    requires ValidConfig(cfg) && ArgsEnd(cfg) <= |data|
  {
    match CommandOf(data[2])
    case None => []
    case Some(c) => Run(cfg, read, c, data)
  }

  /** One case of the switch. */
  function Run(cfg: Config, read: uint32 -> uint32, c: Command, data: seq<byte>): seq<Effect>
    requires ValidConfig(cfg) && ArgsEnd(cfg) <= |data|
  {
    var cmd := Code(c);
    match c
    case ReadPlatform => [Reply(SendString(cmd, CBuffer(cfg.platform, 20)))]
    case ReadVersion => [Reply(SendString(cmd, CBuffer(VERSION, 16)))]
    case ReadRowLen => [Reply(SendWords16(cmd, [Trunc16(cfg.flashRow)]))]
    case ReadPageLen => [Reply(SendWords16(cmd, [Trunc16(cfg.flashPage)]))]
    case ReadProgLen => [Reply(SendWords32(cmd, [Trunc32(cfg.programLength)]))]
    case ReadMaxProgSize => [Reply(SendWords16(cmd, [Trunc16(cfg.maxProgSize)]))]
    case ReadAppStartAddr => [Reply(SendWords16(cmd, [Trunc16(cfg.appStartAddress)]))]
    case ReadBootStartAddr => [Reply(SendWords16(cmd, [Trunc16(cfg.bootBase)]))]
    case ErasePage =>
      var address := Address(data);
      if IsAddrInBoot(cfg, address) then []
      else if address == 0 then [Erase(address), DoubleWordWrite(address, GotoBootloader(cfg), 0)]
      else [Erase(address)]
    case ReadAddr =>
      var address := Address(data);
      [Reply(SendWords32(cmd, [address, read(address)]))]
    case ReadMax =>
      var address := Address(data);
      [Reply(SendWords32(cmd, [address] + ReadWords(read, address, cfg.maxProgSize)))]
    case WriteRow =>
      var address := Address(data);
      if IsAddrInBoot(cfg, address) then []
      else
        BufferFitsLargestFrame(cfg);
        var row := Words(data, cfg.flashRow);
        if address < cfg.ivtBase then [] else [Effect.WriteRow(address, row)]
    case WriteMaxProgSize =>
      var address := Address(data);
      if IsAddrInBoot(cfg, address) then []
      else
        WholeRowsFit(cfg);
        RowWrites(cfg, address, ProgData(cfg, address, data), 0)
    case StartApp => [Effect.StartApp(Trunc16(cfg.appStartAddress))]
  }
}
