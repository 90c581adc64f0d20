/**
  The build-time and linker-provided values the bootloader is compiled
  against. They are not known to the protocol code, so the model takes them
  as a parameter and states which configurations the model covers.
 */
module Config {
  import opened Bytes

  datatype Config = Config(
    maxProgSize: nat,         // MAX_PROG_SIZE: words per bulk write
    flashRow: nat,            // _FLASH_ROW: words per flash row
    flashPage: nat,           // _FLASH_PAGE
    programLength: nat,       // __PROGRAM_LENGTH
    ivtBase: uint32,          // __IVT_BASE
    bootBase: uint32,         // (uint32_t)&_BOOT_BASE
    bootEnd: uint32,          // (uint32_t)&_BOOT_END
    appStartAddress: nat,     // APPLICATION_START_ADDRESS
    platform: seq<byte>       // PLATFORM_STRING, without its terminator
  )

  /** `RX_BUF_LEN`: capacity of the receive buffer. */
  function RxBufLen(cfg: Config): nat {
    cfg.maxProgSize * 4 + 0x10
  }

  /**
    The configurations the model covers. Only the first condition is checked
    by the build: a bulk write is a whole number of rows (the `#error`
    guard). The rest are assumptions of the model that nothing in the code
    enforces: both sizes are positive, the receive index (a `uint16_t`) can
    count up to `RX_BUF_LEN`, and the platform string fits, with its
    terminator, in the 20-character array it is copied into.
   */
  predicate ValidConfig(cfg: Config) {
    && cfg.flashRow > 0
    && cfg.maxProgSize > 0
    && cfg.maxProgSize % cfg.flashRow == 0
    && RxBufLen(cfg) <= 0xFFFF
    && |cfg.platform| < 20
    && 0 !in cfg.platform
  }

  /** `is_addr_in_boot`: the half-open boot region `[_BOOT_BASE, _BOOT_END)`. */
  predicate IsAddrInBoot(cfg: Config, address: uint32) {
    cfg.bootBase <= address < cfg.bootEnd
  }

  /**
    One past the last buffer byte the dispatcher reads: the address at 3..7
    and `MAX_PROG_SIZE` little-endian words from 7 on.
   */
  function ArgsEnd(cfg: Config): nat {
    7 + 4 * cfg.maxProgSize
  }

  /**
    The receive buffer holds every byte the dispatcher reads, and a frame
    carrying the largest command (3 header bytes, a 4-byte address,
    `MAX_PROG_SIZE` words and the 2 checksum bytes) fits with room to spare.
   */
  lemma BufferFitsLargestFrame(cfg: Config)
    requires ValidConfig(cfg)
    ensures ArgsEnd(cfg) < RxBufLen(cfg)
    ensures 3 + 4 + 4 * cfg.maxProgSize + 2 < RxBufLen(cfg)
    ensures cfg.flashRow <= cfg.maxProgSize
  {
  }
}
