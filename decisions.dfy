/**
 * The pure decisions behind the command handlers: which addresses the bootloader accepts,
 * what a flash-erase request turns into, how the option-control register (FLASH_OPTCR) is
 * rewritten by the write-protection commands, and the reply payloads computed from the
 * identification and option words.
 */
module Decisions {
  import opened Wrappers
  import opened Bytes
  import opened BootloaderDefs

  // Memory map of the target part (an STM32F4 with eight flash sectors, 512 KiB of flash and
  // 128 KiB of SRAM); these come from the vendor's device header.
  const FLASH_BASE: u32 := 0x0800_0000
  const FLASH_END: u32 := 0x0807_FFFF
  const SRAM_BASE: u32 := 0x2000_0000
  const SRAM_SIZE: nat := 128 * 1024

  /** Number of flash sectors the erase engine knows of (sectors 0..7). */
  const FLASH_SECTORS: nat := 8
  /** Sector byte (and count byte) that selects a mass erase. */
  const MASS_ERASE: byte := 0xFF

  // ------------------------------------------------------------------------------------------
  // Address validation

  predicate InFlash(a: u32) {
    FLASH_BASE <= a <= FLASH_END
  }

  /** SRAM as the validator sees it: the upper bound SRAM_BASE + 128 KiB is itself admitted. */
  predicate InSramWindow(a: u32) {
    SRAM_BASE <= a <= SRAM_BASE + SRAM_SIZE
  }

  /** VALID_ADDRESS for flash or SRAM addresses, INVALID_ADDRESS for every other address. */
  function ValidateAddress(a: u32): (state: byte)
    ensures state == VALID_ADDRESS <==> InFlash(a) || InSramWindow(a)
    ensures state == INVALID_ADDRESS <==> !InFlash(a) && !InSramWindow(a)
  {
    if FLASH_BASE <= a && a <= FLASH_END then VALID_ADDRESS
    else if SRAM_BASE <= a && a <= SRAM_BASE + 128 * 1024 then VALID_ADDRESS
    else INVALID_ADDRESS
  }

  /** The edges of both regions; the SRAM upper edge is inclusive, one byte past 128 KiB. */
  lemma ValidateAddressEdges()
    ensures ValidateAddress(FLASH_BASE - 1) == INVALID_ADDRESS
    ensures ValidateAddress(FLASH_BASE) == VALID_ADDRESS
    ensures ValidateAddress(FLASH_END) == VALID_ADDRESS
    ensures ValidateAddress(FLASH_END + 1) == INVALID_ADDRESS
    ensures ValidateAddress(SRAM_BASE - 1) == INVALID_ADDRESS
    ensures ValidateAddress(SRAM_BASE) == VALID_ADDRESS
    ensures ValidateAddress(SRAM_BASE + SRAM_SIZE - 1) == VALID_ADDRESS
    ensures ValidateAddress(SRAM_BASE + SRAM_SIZE) == VALID_ADDRESS
    ensures ValidateAddress(SRAM_BASE + SRAM_SIZE + 1) == INVALID_ADDRESS
  {
  }

  /** The two regions are disjoint, so a valid address is either flash or SRAM, never both. */
  lemma RegionsDisjoint(a: u32)
    ensures !(InFlash(a) && InSramWindow(a))
  {
  }

  // ------------------------------------------------------------------------------------------
  // Flash erase

  /** What the erase engine hands to the flash driver. */
  datatype EraseRequest =
    | MassErase
    | SectorErase(first: byte, count: byte)

  function Min(x: int, y: int): int {
    if x <= y then x else y
  }

  /**
   * The request built from the sector and count bytes of an erase command, or None when the
   * guards reject them (HAL_ERROR, no flash access). The remaining-sector count is computed in
   * uint8_t, so it wraps for sector bytes above 8.
   */
  function EraseRequestFor(sector: byte, count: byte): (r: Option<EraseRequest>)
    ensures r == None <==> count != MASS_ERASE && (count > FLASH_SECTORS || sector >= FLASH_SECTORS)
    ensures r == Some(MassErase) <==> sector == MASS_ERASE && count == MASS_ERASE
    ensures r.Some? && r.value.SectorErase? ==> r.value.first == sector && r.value.count <= count
    ensures sector < FLASH_SECTORS && r.Some? ==>
      r == Some(SectorErase(sector, Min(count, FLASH_SECTORS - sector)))
  {
    if count > 8 && count != 0xFF then None
    else if sector > 7 && count != 0xFF then None
    else if sector == 0xFF then Some(MassErase)
    else
      var remaining := (8 - sector) % 0x100;
      Some(SectorErase(sector, if count > remaining then remaining else count))
  }

  /** The sectors a request erases, in the order the flash driver erases them. */
  function ErasedSectors(req: EraseRequest): (s: seq<nat>)
    ensures req.SectorErase? ==> |s| == req.count
  {
    match req
    case MassErase => seq(FLASH_SECTORS, i => i)
    case SectorErase(first, count) => seq(count, i => first + i)
  }

  /**
   * An accepted request for a sector in 0..7 erases the contiguous run that starts at that
   * sector and is clamped at the last sector, so nothing past sector 7 is touched; a count of
   * 0xFF erases up to the end of the bank.
   */
  lemma SectorEraseStaysInBank(sector: byte, count: byte)
    requires sector < FLASH_SECTORS
    requires EraseRequestFor(sector, count).Some?
    ensures var erased := ErasedSectors(EraseRequestFor(sector, count).value);
      && |erased| == Min(count, FLASH_SECTORS - sector)
      && (forall k :: 0 <= k < |erased| ==> erased[k] == sector + k < FLASH_SECTORS)
      && (count == MASS_ERASE ==> |erased| == FLASH_SECTORS - sector)
  {
  }

  /** Sector 6 with count 5 erases sectors 6 and 7; sector 9 with count 1 is rejected. */
  lemma EraseExamples()
    ensures EraseRequestFor(6, 5) == Some(SectorErase(6, 2))
    ensures ErasedSectors(SectorErase(6, 2)) == [6, 7]
    ensures EraseRequestFor(9, 1) == None
    ensures EraseRequestFor(0xFF, 0xFF) == Some(MassErase)
    ensures ErasedSectors(MassErase) == [0, 1, 2, 3, 4, 5, 6, 7]
    ensures EraseRequestFor(0xFF, 3) == None
  {
  }

  /**
   * A sector byte in 8..254 together with count 0xFF passes both guards, and the uint8_t
   * subtraction 8 - sector wraps: sector 8 gets an empty request, and sector bytes 9..254
   * ask the driver to erase sectors that do not exist.
   */
  lemma OutOfBankSectorWithMassCount(sector: byte)
    requires FLASH_SECTORS <= sector < MASS_ERASE
    ensures EraseRequestFor(sector, MASS_ERASE).Some?
    ensures sector == 8 ==> EraseRequestFor(sector, MASS_ERASE) == Some(SectorErase(8, 0))
    ensures sector == 9 ==> EraseRequestFor(sector, MASS_ERASE) == Some(SectorErase(9, 0xFF))
    ensures sector >= 10 ==> EraseRequestFor(sector, MASS_ERASE) == Some(SectorErase(sector, 264 - sector))
    ensures var erased := ErasedSectors(EraseRequestFor(sector, MASS_ERASE).value);
      forall k :: 0 <= k < |erased| ==> erased[k] >= FLASH_SECTORS
  {
  }

  // ------------------------------------------------------------------------------------------
  // Option-control register (FLASH_OPTCR)

  /** Bit k of a 32-bit register. */
  predicate Bit(w: bv32, k: bv32)
    requires k < 32
  {
    (w >> k) & 1 == 1
  }

  /** `SET_BIT(reg, k)`: reg | (1 << k). */
  function SetBit(w: bv32, k: bv32): bv32
    requires k < 32
  {
    w | (1 << k)
  }

  /** `CLEAR_BIT(reg, k)`: reg & ~(1 << k). */
  function ClearBit(w: bv32, k: bv32): bv32
    requires k < 32
  {
    w & !(1 << k)
  }

  /** Byte lane `lane` (0 = least significant) of a little-endian 32-bit register. */
  function ByteLane(w: bv32, lane: bv32): (b: bv32)
    requires lane < 4
    ensures b < 0x100
  {
    (w >> (8 * lane)) & 0xFF
  }

  /** The byte lane of FLASH_OPTCR that the nWRP byte address selects. */
  const NWRP_LANE: bv32 := 2

  /** A byte store to the nWRP byte address: lane 2 of FLASH_OPTCR becomes v, the other lanes stay. */
  function StoreNwrpByte(w: bv32, v: bv32): (r: bv32)
    requires v < 0x100
    ensures ByteLane(r, NWRP_LANE) == v
    ensures ByteLane(r, 0) == ByteLane(w, 0) && ByteLane(r, 1) == ByteLane(w, 1)
    ensures ByteLane(r, 3) == ByteLane(w, 3)
  {
    (w & 0xFF00_FFFF) | (v << 16)
  }

  /** A byte zero-extended to a 32-bit register value. */
  function Widen(b: byte): (r: bv32)
    ensures r < 0x100
  {
    b as bv32
  }

  /** `~b` truncated to uint8_t. */
  function NotByte(b: byte): (r: bv32)
    ensures r < 0x100
  {
    !Widen(b) & 0xFF
  }

  /** Each of the eight bits of `~b` is the opposite of the same bit of b. */
  lemma NotByteBits(b: byte, i: bv32)
    requires i < 8
    ensures Bit(NotByte(b), i) <==> !Bit(Widen(b), i)
  {
  }

  /**
   * FLASH_OPTCR after EnWriteProtect: SPRMOD (bit 31) cleared, the nWRP byte set to the
   * complement of the host's sector mask, OPTSTRT (bit 1) set, every other bit kept.
   */
  function ProtectWord(w: bv32, mask: byte): (r: bv32)
    ensures ByteLane(r, NWRP_LANE) == NotByte(mask)
    ensures !Bit(r, 31) && Bit(r, 1)
    ensures r & 0x7F00_FFFD == w & 0x7F00_FFFD
  {
    SetBit(StoreNwrpByte(ClearBit(w, 31), NotByte(mask)), 1)
  }

  /** FLASH_OPTCR after DisWriteProtect: SPRMOD cleared, every nWRP bit set, OPTSTRT set. */
  function UnprotectWord(w: bv32): (r: bv32)
    ensures ByteLane(r, NWRP_LANE) == 0xFF
    ensures !Bit(r, 31) && Bit(r, 1)
    ensures r & 0x7F00_FFFD == w & 0x7F00_FFFD
  {
    SetBit(SetNwrpBits(ClearBit(w, 31)), 1)
  }

  /** `reg |= 0xff << 16`: every nWRP bit set. */
  function SetNwrpBits(w: bv32): bv32 {
    w | (0xFF << 16)
  }

  /** Sector i (0..7) is write-protected when its nWRP bit (bit 16 + i) is clear. */
  predicate SectorWriteProtected(w: bv32, i: bv32)
    requires i < 8
  {
    !Bit(w, 16 + i)
  }

  /** Bit i of the nWRP lane is bit 16 + i of the register. */
  lemma LaneBit(w: bv32, i: bv32)
    requires i < 8
    ensures Bit(w, 16 + i) <==> Bit(ByteLane(w, NWRP_LANE), i)
  {
  }

  /** EnWriteProtect protects exactly the sectors whose bit is set in the host's mask. */
  lemma ProtectWordProtectsMask(w: bv32, mask: byte, i: bv32)
    requires i < 8
    ensures SectorWriteProtected(ProtectWord(w, mask), i) <==> Bit(Widen(mask), i)
  {
    LaneBit(ProtectWord(w, mask), i);
    NotByteBits(mask, i);
  }

  /** DisWriteProtect leaves no sector write-protected. */
  lemma UnprotectWordFreesAll(w: bv32, i: bv32)
    requires i < 8
    ensures !SectorWriteProtected(UnprotectWord(w), i)
  {
    LaneBit(UnprotectWord(w), i);
  }

  /** Disabling protection is the same update as enabling it with an empty sector mask. */
  lemma UnprotectIsProtectNothing(w: bv32)
    ensures UnprotectWord(w) == ProtectWord(w, 0)
  {
  }

  /**
   * The nWRP byte address is byte 2 of the little-endian FLASH_OPTCR word, that is bits
   * 16..23; storing 0xFF there sets the same bits as `OPTCR |= 0xff << 16`.
   */
  lemma NwrpByteIsOptcrLane(w: bv32)
    ensures NWRP_BYTE_ADDR - OPTCR_REG_ADDR == NWRP_LANE as int
    ensures StoreNwrpByte(w, 0xFF) == SetNwrpBits(w)
  {
  }

  // ------------------------------------------------------------------------------------------
  // Identification and option-word replies

  /** The two bytes of the uint16_t `DBMCU_IDCODE & 0x0FFF`, least significant first. */
  function CidBytes(idcode: u32): (r: seq<byte>)
    ensures |r| == 2 && r[1] < 0x10
    ensures r[0] as int + 0x100 * r[1] as int == idcode % 0x1000
  {
    var id := idcode % 0x1000;
    [id % 0x100, id / 0x100]
  }

  /**
   * The readout-protection reply: `(RDP_USER_OPTION_WORD >> 8) && 0xff`. The logical `&&`
   * reduces it to 0 or 1, so the reply only says whether bits 8..31 are non-zero.
   */
  function RdpReply(optionWord: u32): (r: byte)
    ensures r == 0 || r == 1
    ensures r == 1 <==> optionWord >= 0x100
  {
    if optionWord / 0x100 != 0 then 1 else 0
  }

  /** The RDP byte (bits 8..15) of the option word is not what the reply carries: 0xAA and 0x55 read alike. */
  lemma RdpReplyHidesLevel()
    ensures (0x0000_AA00 / 0x100) % 0x100 == 0xAA && (0x0000_5500 / 0x100) % 0x100 == 0x55
    ensures RdpReply(0x0000_AA00) == RdpReply(0x0000_5500) == 1
  {
  }

  /** The opcode list GetHelp sends, in the order of the source's table. */
  function HelpList(): (r: seq<byte>)
    ensures |r| == 12
    ensures forall i :: 0 <= i < |r| ==> r[i] == BL_GET_VER + i
  {
    [BL_GET_VER, BL_GET_HELP, BL_GET_CID, BL_GET_RDP_STATUS, BL_GOTO_ADDR, BL_FLASH_ERASE,
     BL_MEM_WRITE, BL_EN_WR_PROTECT, BL_MEM_READ, BL_READ_SECTOR_STATUS, BL_OTP_READ,
     BL_DIS_WR_PROTECT]
  }

  /** The help list names every handler's opcode exactly once and nothing else. */
  lemma HelpListIsOpcodeTable()
    ensures forall c: Command :: Opcode(c) in HelpList()
    ensures forall b :: b in HelpList() ==> HandlerFor(b).Some?
    ensures forall i, j :: 0 <= i < j < |HelpList()| ==> HelpList()[i] != HelpList()[j]
  {
    forall b | b in HelpList() ensures HandlerFor(b).Some? {
      OpcodeOfHandler(b);
    }
  }
}
