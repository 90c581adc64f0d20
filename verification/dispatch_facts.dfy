/**
  What `processCommand` guarantees, stated over the effects it returns:
  which commands touch flash and where, which answer, the reset-vector
  rule, and the row schedule of the bulk write.
 */
module DispatchFacts {
  import opened Bytes
  import opened Protocol
  import opened Config
  import opened Dispatch
  import opened Seqs

  /** The three commands that may change flash. */
  predicate IsWrite(c: Command) {
    c.ErasePage? || c.WriteRow? || c.WriteMaxProgSize?
  }

  /**
    Flash changes only on `CMD_ERASE_PAGE`, `CMD_WRITE_ROW` and
    `CMD_WRITE_MAX_PROG_SIZE`, and only when the address argument lies
    outside the boot region `[_BOOT_BASE, _BOOT_END)`.
   */
  lemma MutationsOutsideBoot(cfg: Config, read: uint32 -> uint32, data: seq<byte>)
    requires ValidConfig(cfg) && ArgsEnd(cfg) <= |data|
    ensures forall e :: e in ProcessCommand(cfg, read, data) && Mutates(e) ==>
      && CommandOf(data[2]).Some? && IsWrite(CommandOf(data[2]).value)
      && !IsAddrInBoot(cfg, Address(data))
  {
  }

  /** A command whose address argument lies in the boot region changes nothing. */
  lemma BootProtected(cfg: Config, read: uint32 -> uint32, data: seq<byte>)
    requires ValidConfig(cfg) && ArgsEnd(cfg) <= |data|
    requires IsAddrInBoot(cfg, Address(data))
    ensures forall e :: e in ProcessCommand(cfg, read, data) ==> !Mutates(e)
  {
    MutationsOutsideBoot(cfg, read, data);
  }

  /**
    A command answers exactly when it is a query, and then with one frame
    tagged with its own code and nothing else; the commands that change
    flash or start the application send no acknowledgement.
   */
  lemma RepliesOnlyToQueries(cfg: Config, read: uint32 -> uint32, data: seq<byte>)
    requires ValidConfig(cfg) && ArgsEnd(cfg) <= |data|
    ensures var effects := ProcessCommand(cfg, read, data);
      && ((exists e :: e in effects && e.Reply?) <==> CommandOf(data[2]).Some? && IsQuery(CommandOf(data[2]).value))
      && (CommandOf(data[2]).Some? && IsQuery(CommandOf(data[2]).value) ==>
            |effects| == 1 && effects[0].Reply? && effects[0].send.cmd == data[2])
  {
    var effects := ProcessCommand(cfg, read, data);
    var c := CommandOf(data[2]);
    if c.Some? && !IsQuery(c.value) {
      assert effects == Run(cfg, read, c.value, data);
      var address := Address(data);
      if c.value.WriteMaxProgSize? && !IsAddrInBoot(cfg, address) {
        WholeRowsFit(cfg);
        RowWritesAreWrites(cfg, address, ProgData(cfg, address, data), 0);
      }
      assert forall e :: e in effects ==> !e.Reply?;
    } else if c.Some? {
      assert effects[0] in effects;
    }
  }

  lemma {:induction false} RowWritesAreWrites(cfg: Config, address: uint32, prog: seq<uint32>, i: nat)
    requires RowsFit(cfg) && |prog| == cfg.maxProgSize + 1
    ensures forall e :: e in RowWrites(cfg, address, prog, i) ==> e.WriteRow?
    decreases cfg.maxProgSize - RowStart(cfg, i)
  {
    if RowStart(cfg, i) < cfg.maxProgSize {
      RowWritesAreWrites(cfg, address, prog, i + 1);
    }
  }

  /** A byte that is no command's code is ignored: no effect, no answer. */
  lemma UnknownIgnored(cfg: Config, read: uint32 -> uint32, data: seq<byte>)
    requires ValidConfig(cfg) && ArgsEnd(cfg) <= |data|
    requires forall c: Command :: Code(c) != data[2]
    ensures ProcessCommand(cfg, read, data) == []
  {
    UnknownCodes(data[2]);
  }

  /**
    `0x040000U | _BOOT_BASE`: the reset-vector word has bit 18 set and every
    other bit of `_BOOT_BASE`.
   */
  lemma GotoBootloaderBits(cfg: Config)
    ensures var g := GotoBootloader(cfg);
      && (g / 0x4_0000) % 2 == 1
      && g % 0x4_0000 == cfg.bootBase % 0x4_0000
      && g / 0x8_0000 == cfg.bootBase / 0x8_0000
  {
    var b := cfg.bootBase;
    var q := b / 0x4_0000;
    assert b == q * 0x4_0000 + b % 0x4_0000;
    assert b / 0x8_0000 == q / 2;
    if q % 2 == 0 {
      var g := b + 0x4_0000;
      assert g == (q + 1) * 0x4_0000 + b % 0x4_0000;
      assert g / 0x4_0000 == q + 1;
      assert g / 0x8_0000 == (q + 1) / 2;
    }
  }

  /**
    `e` is the `writeRow` call for row `j`: the `_FLASH_ROW` words of
    `progData` from `RowStart(cfg, j)` (that is `j * _FLASH_ROW`, by
    `RowStartProduct`) on, to flash address `address + 2 * RowStart(cfg, j)`
    (flash addresses advance by two per word).
   */
  predicate RowAt(cfg: Config, address: uint32, prog: seq<uint32>, j: nat, e: Effect) {
    var s := RowStart(cfg, j);
    && s + cfg.flashRow <= cfg.maxProgSize < |prog|
    && e == Effect.WriteRow(Trunc32(address + s * 2), prog[s..s + cfg.flashRow])
  }

  /**
    The bulk write programs `MAX_PROG_SIZE / _FLASH_ROW` rows, row `k` by the
    `k`-th `writeRow` call; together the rows program the first
    `MAX_PROG_SIZE` words of `progData` exactly once, in order, and never
    the extra zero word.
   */
  lemma RowSchedule(cfg: Config, address: uint32, prog: seq<uint32>)
    requires RowsFit(cfg) && |prog| == cfg.maxProgSize + 1
    ensures RowStart(cfg, |RowWrites(cfg, address, prog, 0)|) == cfg.maxProgSize
    ensures forall k :: 0 <= k < |RowWrites(cfg, address, prog, 0)| ==>
      RowAt(cfg, address, prog, k, RowWrites(cfg, address, prog, 0)[k])
    ensures RowWords(RowWrites(cfg, address, prog, 0)) == prog[..cfg.maxProgSize]
  {
    RowCount(cfg, address, prog, 0);
    RowEntries(cfg, address, prog, 0);
    RowWordsFrom(cfg, address, prog, 0);
  }

  /** From row `i` on, rows are written until `MAX_PROG_SIZE` words are covered. */
  lemma {:induction false} RowCount(cfg: Config, address: uint32, prog: seq<uint32>, i: nat)
    requires RowsFit(cfg) && |prog| == cfg.maxProgSize + 1
    requires RowStart(cfg, i) <= cfg.maxProgSize
    ensures RowStart(cfg, i + |RowWrites(cfg, address, prog, i)|) == cfg.maxProgSize
    decreases cfg.maxProgSize - RowStart(cfg, i)
  {
    var rows := RowWrites(cfg, address, prog, i);
    if RowStart(cfg, i) < cfg.maxProgSize {
      RowCount(cfg, address, prog, i + 1);
      var rest := RowWrites(cfg, address, prog, i + 1);
      assert |rows| == 1 + |rest|;
      assert i + |rows| == i + 1 + |rest|;
    } else {
      assert rows == [];
    }
  }

  /** The `k`-th call from row `i` on writes row `i + k`. */
  lemma {:induction false} RowEntries(cfg: Config, address: uint32, prog: seq<uint32>, i: nat)
    requires RowsFit(cfg) && |prog| == cfg.maxProgSize + 1
    ensures forall k :: 0 <= k < |RowWrites(cfg, address, prog, i)| ==>
      RowAt(cfg, address, prog, i + k, RowWrites(cfg, address, prog, i)[k])
    decreases cfg.maxProgSize - RowStart(cfg, i)
  {
    var rows := RowWrites(cfg, address, prog, i);
    if RowStart(cfg, i) < cfg.maxProgSize {
      RowEntries(cfg, address, prog, i + 1);
      var rest := RowWrites(cfg, address, prog, i + 1);
      assert rows == [rows[0]] + rest;
      forall k | 0 <= k < |rows|
        ensures RowAt(cfg, address, prog, i + k, rows[k])
      {
        if k > 0 {
          assert RowAt(cfg, address, prog, i + 1 + (k - 1), rest[k - 1]);
        }
      }
    }
  }

  /** From row `i` on, the rows carry the words of `progData` from row `i` to `MAX_PROG_SIZE`. */
  lemma {:induction false} RowWordsFrom(cfg: Config, address: uint32, prog: seq<uint32>, i: nat)
    requires RowsFit(cfg) && |prog| == cfg.maxProgSize + 1
    requires RowStart(cfg, i) <= cfg.maxProgSize
    ensures RowWords(RowWrites(cfg, address, prog, i)) == prog[RowStart(cfg, i)..cfg.maxProgSize]
    decreases cfg.maxProgSize - RowStart(cfg, i)
  {
    var rows := RowWrites(cfg, address, prog, i);
    var start, max := RowStart(cfg, i), cfg.maxProgSize;
    if start < max {
      var next := start + cfg.flashRow;
      RowWordsFrom(cfg, address, prog, i + 1);
      var rest := RowWrites(cfg, address, prog, i + 1);
      var row := Effect.WriteRow(Trunc32(address + start * 2), prog[start..next]);
      assert RowStart(cfg, i + 1) == next;
      assert rows == [row] + rest;
      RowWordsCons(row, rest);
      assert RowWords(rows) == prog[start..next] + prog[next..max];
      assert prog[start..max] == prog[start..next] + prog[next..max];
    } else {
      assert rows == [];
    }
  }

  /** The row words of a list are the first effect's, then the rest's. */
  lemma RowWordsCons(e: Effect, rest: seq<Effect>)
    ensures RowWords([e] + rest) == (if e.WriteRow? then e.words else []) + RowWords(rest)
  {
    assert ([e] + rest)[1..] == rest;
  }

  /**
    `CMD_ERASE_PAGE` outside the boot region erases the addressed page, and
    when that is page zero rewrites the reset vector with the jump to the
    bootloader and a zero word.
   */
  lemma EraseHealsResetVector(cfg: Config, read: uint32 -> uint32, data: seq<byte>)
    requires ValidConfig(cfg) && ArgsEnd(cfg) <= |data|
    requires CommandOf(data[2]) == Some(ErasePage)
    ensures var effects := ProcessCommand(cfg, read, data);
      && (IsAddrInBoot(cfg, Address(data)) <==> effects == [])
      && (!IsAddrInBoot(cfg, Address(data)) ==>
            && effects[0] == Erase(Address(data))
            && (Address(data) != 0 ==> effects == [Erase(Address(data))])
            && (Address(data) == 0 ==> effects == [Erase(0), DoubleWordWrite(0, GotoBootloader(cfg), 0)]))
  {
  }

  /**
    `CMD_WRITE_MAX_PROG_SIZE` at address zero (outside the boot region)
    programs the jump to the bootloader over the first word it writes, and a
    zero over the second, whatever the frame carried there. Every other word
    is the frame's, the rows follow the same schedule as at any other
    address, and no row after the first touches address zero.
   */
  lemma BulkWriteHealsResetVector(cfg: Config, read: uint32 -> uint32, data: seq<byte>)
    requires ValidConfig(cfg) && ArgsEnd(cfg) <= |data|
    requires CommandOf(data[2]) == Some(WriteMaxProgSize)
    requires Address(data) == 0 && !IsAddrInBoot(cfg, 0)
    ensures var effects := ProcessCommand(cfg, read, data);
      && |RowWords(effects)| == cfg.maxProgSize
      && RowWords(effects)[0] == GotoBootloader(cfg)
      && (cfg.maxProgSize >= 2 ==> RowWords(effects)[1] == 0)
      && effects[0].WriteRow? && effects[0].address == 0
      && (forall k :: 0 < k < |effects| ==> effects[k].WriteRow? && effects[k].address != 0)
      && (cfg.maxProgSize >= 2 ==> RowWords(effects)[2..] == Words(data, cfg.maxProgSize)[2..])
      && RowStart(cfg, |effects|) == cfg.maxProgSize
      && forall k :: 0 <= k < |effects| ==> RowAt(cfg, 0, ProgData(cfg, 0, data), k, effects[k])
  {
    var prog := ProgData(cfg, 0, data);
    var effects := ProcessCommand(cfg, read, data);
    WholeRowsFit(cfg);
    assert effects == RowWrites(cfg, 0, prog, 0);
    RowsFromZero(cfg, prog);
    RowSchedule(cfg, 0, prog);
    if cfg.maxProgSize >= 2 {
      assert prog[..cfg.maxProgSize][2..] == Words(data, cfg.maxProgSize)[2..];
    }
  }

  /**
    `CMD_WRITE_MAX_PROG_SIZE` at any other address outside the boot region
    programs the frame's `MAX_PROG_SIZE` words unchanged, row `k` at
    `address + 2 * k * _FLASH_ROW`, and nothing else.
   */
  lemma BulkWriteSchedule(cfg: Config, read: uint32 -> uint32, data: seq<byte>)
    requires ValidConfig(cfg) && ArgsEnd(cfg) <= |data|
    requires CommandOf(data[2]) == Some(WriteMaxProgSize)
    requires Address(data) != 0 && !IsAddrInBoot(cfg, Address(data))
    ensures var effects := ProcessCommand(cfg, read, data);
      && RowWords(effects) == Words(data, cfg.maxProgSize)
      && RowStart(cfg, |effects|) == cfg.maxProgSize
      && forall k :: 0 <= k < |effects| ==>
           RowAt(cfg, Address(data), Words(data, cfg.maxProgSize) + [0], k, effects[k])
  {
    var a := Address(data);
    var prog := ProgData(cfg, a, data);
    var effects := ProcessCommand(cfg, read, data);
    WholeRowsFit(cfg);
    assert effects == RowWrites(cfg, a, prog, 0);
    assert prog == Words(data, cfg.maxProgSize) + [0];
    RowSchedule(cfg, a, prog);
    assert prog[..cfg.maxProgSize] == Words(data, cfg.maxProgSize);
  }

  /**
    Rows written from address zero: the first goes to address zero, no
    other does, and together they carry the first `MAX_PROG_SIZE` words.
   */
  lemma RowsFromZero(cfg: Config, prog: seq<uint32>)
    requires RowsFit(cfg) && |prog| == cfg.maxProgSize + 1
    requires 0 < cfg.maxProgSize < 0x4000
    ensures var rows := RowWrites(cfg, 0, prog, 0);
      && |rows| > 0 && rows[0].WriteRow? && rows[0].address == 0
      && RowWords(rows) == prog[..cfg.maxProgSize]
    ensures forall k :: 0 < k < |RowWrites(cfg, 0, prog, 0)| ==>
      RowWrites(cfg, 0, prog, 0)[k].WriteRow? && RowWrites(cfg, 0, prog, 0)[k].address != 0
  {
    var rows := RowWrites(cfg, 0, prog, 0);
    RowSchedule(cfg, 0, prog);
    assert |rows| > 0;
    assert RowAt(cfg, 0, prog, 0, rows[0]);
    forall k | 0 < k < |rows|
      ensures rows[k].WriteRow? && rows[k].address != 0
    {
      assert RowAt(cfg, 0, prog, k, rows[k]);
      var s := RowStart(cfg, k);
      assert 0 < s < 0x4000;
      assert Trunc32(0 + s * 2) == s * 2;
    }
  }

  /**
    `CMD_WRITE_ROW` programs a row only outside the boot region and at or
    above `__IVT_BASE`, so the reset vector below the interrupt table can
    never be replaced this way; the row holds the frame's words.
   */
  lemma RowWriteProtectsResetVector(cfg: Config, read: uint32 -> uint32, data: seq<byte>)
    requires ValidConfig(cfg) && ArgsEnd(cfg) <= |data|
    requires CommandOf(data[2]) == Some(Command.WriteRow)
    ensures var effects := ProcessCommand(cfg, read, data);
      && (effects != [] <==> !IsAddrInBoot(cfg, Address(data)) && cfg.ivtBase <= Address(data))
      && (effects != [] ==>
            && |effects| == 1 && effects[0].WriteRow?
            && effects[0].address == Address(data)
            && |effects[0].words| == cfg.flashRow
            && forall i :: 0 <= i < cfg.flashRow ==> effects[0].words[i] == FromLendianUint32(data, 7 + 4 * i))
  {
  }

  /**
    The argument words of a command are read back exactly as the host
    serialized them after the seven header bytes (`from_lendian_uint32` at
    `data + 7 + 4 * i`, inverse of the little-endian encoding).
   */
  lemma WordsReadBack(header: seq<byte>, ws: seq<uint32>, tail: seq<byte>)
    requires |header| == 7
    ensures Words(header + SerializeLE32(ws) + tail, |ws|) == ws
  {
    var words := Words(header + SerializeLE32(ws) + tail, |ws|);
    forall i | 0 <= i < |ws|
      ensures words[i] == ws[i]
    {
      WordReadBack(header, ws, tail, i);
    }
  }

  /** One argument word of `WordsReadBack`. */
  lemma WordReadBack(header: seq<byte>, ws: seq<uint32>, tail: seq<byte>, i: nat)
    requires |header| == 7 && i < |ws|
    ensures FromLendianUint32(header + SerializeLE32(ws) + tail, 7 + 4 * i) == ws[i]
  {
    var at := 4 * i;
    SerializeLE32At(ws, i);
    MiddleSlice(header, SerializeLE32(ws), tail, at, at + 4);
    FromLendianLocal(header + SerializeLE32(ws) + tail, 7 + at, ws[i]);
  }

  /**
    `CMD_READ_MAX` answers with the address and the `MAX_PROG_SIZE` words
    read at `address`, `address + 2`, … (32-bit address arithmetic).
   */
  lemma ReadMaxReply(cfg: Config, read: uint32 -> uint32, data: seq<byte>)
    requires ValidConfig(cfg) && ArgsEnd(cfg) <= |data|
    requires CommandOf(data[2]) == Some(ReadMax)
    ensures var effects := ProcessCommand(cfg, read, data);
      && effects == [Reply(SendWords32(Code(ReadMax), effects[0].send.words))]
      && var words := effects[0].send.words;
      && |words| == cfg.maxProgSize + 1
      && words[0] == Address(data)
      && forall i :: 0 <= i < cfg.maxProgSize ==> words[i + 1] == read(Trunc32(Address(data) + 2 * i))
  {
  }

  /**
    `CMD_READ_BOOT_START_ADDR` stores the boot address in a 16-bit `word`
    before sending it: the answer is the address modulo 0x10000, and it
    differs from the address exactly when the boot region starts at or
    above 0x10000.
   */
  lemma BootStartTruncated(cfg: Config, read: uint32 -> uint32, data: seq<byte>)
    requires ValidConfig(cfg) && ArgsEnd(cfg) <= |data|
    requires CommandOf(data[2]) == Some(ReadBootStartAddr)
    ensures var effects := ProcessCommand(cfg, read, data);
      && effects == [Reply(SendWords16(Code(ReadBootStartAddr), [cfg.bootBase % 0x1_0000]))]
      && (cfg.bootBase % 0x1_0000 != cfg.bootBase <==> cfg.bootBase >= 0x1_0000)
  {
  }

  /** A configuration for the witness below: 4-word bulk writes of 2-word rows, boot region at 0x100. */
  const Small := Config(4, 2, 4, 0x200, 4, 0x100, 0x200, 0x200, [])

  /**
    The boot check looks at the start address only: a bulk write that
    starts just below `_BOOT_BASE` passes it and programs its second row at
    `_BOOT_BASE`, inside the bootloader.
   */
  lemma BulkWriteReachesBoot()
    ensures var data := [0, 0, Code(WriteMaxProgSize), 0xFC, 0, 0, 0] + Zeros(RxBufLen(Small) - 7);
      && ValidConfig(Small) && ArgsEnd(Small) <= |data|
      && !IsAddrInBoot(Small, Address(data))
      && var effects := ProcessCommand(Small, x => 0, data);
      && |effects| == 2 && effects[1].WriteRow? && IsAddrInBoot(Small, effects[1].address)
  {
    var data := [0, 0, Code(WriteMaxProgSize), 0xFC, 0, 0, 0] + Zeros(RxBufLen(Small) - 7);
    assert Address(data) == 0xFC;
    var prog := ProgData(Small, 0xFC, data);
    WholeRowsFit(Small);
    var effects := ProcessCommand(Small, x => 0, data);
    assert effects == RowWrites(Small, 0xFC, prog, 0);
    RowSchedule(Small, 0xFC, prog);
    assert RowStart(Small, 2) == 4;
    assert RowAt(Small, 0xFC, prog, 1, effects[1]);
  }
}
