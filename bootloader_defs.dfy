/**
 * The constants of the bootloader's header: command opcodes, the acknowledgement bytes,
 * the bootloader version, the fixed register addresses and the two address-validity
 * codes, together with the twelve command handlers the header declares.
 */
module BootloaderDefs {
  import opened Wrappers
  import opened Bytes

  // Command opcodes, one per handler.
  const BL_GET_VER: byte := 0x51
  const BL_GET_HELP: byte := 0x52
  const BL_GET_CID: byte := 0x53
  const BL_GET_RDP_STATUS: byte := 0x54
  const BL_GOTO_ADDR: byte := 0x55
  const BL_FLASH_ERASE: byte := 0x56
  const BL_MEM_WRITE: byte := 0x57
  const BL_EN_WR_PROTECT: byte := 0x58
  const BL_MEM_READ: byte := 0x59
  const BL_READ_SECTOR_STATUS: byte := 0x5A
  const BL_OTP_READ: byte := 0x5B
  const BL_DIS_WR_PROTECT: byte := 0x5C

  // Reply header bytes and the version reported by GetVer.
  const BL_ACK: byte := 0xA5
  const BL_NACK: byte := 0x7F
  const BL_VERSION: byte := 1

  // The two memory-mapped addresses whose layout the write-protection commands rely on:
  // FLASH_OPTCR and the byte store that replaces its nWRP field. The words read at
  // 0xE004_2000 (IDCODE), 0x1FFF_C000 (RDP option word) and 0x1FFF_C008 (nWRP option byte)
  // are parameters of their handlers, and the busy flag of FLASH_SR (0x4002_3C0C) is one
  // abstract wait step.
  const OPTCR_REG_ADDR: u32 := 0x4002_3C14
  const NWRP_BYTE_ADDR: u32 := 0x4002_3C16

  // Results of address validation.
  const VALID_ADDRESS: byte := 0
  const INVALID_ADDRESS: byte := 1

  /** The twelve command handlers the header declares, one per opcode. */
  datatype Command =
    | GetVer | GetHelp | GetCid | GetRdpStatus | GoToAddress | FlashErase
    | MemWrite | EnWriteProtect | MemRead | ReadSectorStatus | OtpRead | DisWriteProtect

  /** The opcode a handler serves. */
  function Opcode(c: Command): (op: byte)
    ensures BL_GET_VER <= op <= BL_DIS_WR_PROTECT
  {
    match c
    case GetVer => BL_GET_VER
    case GetHelp => BL_GET_HELP
    case GetCid => BL_GET_CID
    case GetRdpStatus => BL_GET_RDP_STATUS
    case GoToAddress => BL_GOTO_ADDR
    case FlashErase => BL_FLASH_ERASE
    case MemWrite => BL_MEM_WRITE
    case EnWriteProtect => BL_EN_WR_PROTECT
    case MemRead => BL_MEM_READ
    case ReadSectorStatus => BL_READ_SECTOR_STATUS
    case OtpRead => BL_OTP_READ
    case DisWriteProtect => BL_DIS_WR_PROTECT
  }

  /** The handler serving an opcode byte, if any. */
  function HandlerFor(op: byte): (c: Option<Command>)
  {
    if op == BL_GET_VER then Some(GetVer)
    else if op == BL_GET_HELP then Some(GetHelp)
    else if op == BL_GET_CID then Some(GetCid)
    else if op == BL_GET_RDP_STATUS then Some(GetRdpStatus)
    else if op == BL_GOTO_ADDR then Some(GoToAddress)
    else if op == BL_FLASH_ERASE then Some(FlashErase)
    else if op == BL_MEM_WRITE then Some(MemWrite)
    else if op == BL_EN_WR_PROTECT then Some(EnWriteProtect)
    else if op == BL_MEM_READ then Some(MemRead)
    else if op == BL_READ_SECTOR_STATUS then Some(ReadSectorStatus)
    else if op == BL_OTP_READ then Some(OtpRead)
    else if op == BL_DIS_WR_PROTECT then Some(DisWriteProtect)
    else None
  }

  /** Every handler is found again from its opcode: one handler per opcode constant. */
  lemma HandlerForOpcode(c: Command)
    ensures HandlerFor(Opcode(c)) == Some(c)
  {
  }

  /** An opcode byte has a handler exactly when it lies in 0x51..0x5C, and that handler serves it. */
  lemma OpcodeOfHandler(op: byte)
    ensures HandlerFor(op).Some? <==> 0x51 <= op <= 0x5C
    ensures HandlerFor(op).Some? ==> Opcode(HandlerFor(op).value) == op
  {
  }

  /** The twelve opcodes are pairwise distinct. */
  lemma OpcodesDistinct(c: Command, d: Command)
    ensures Opcode(c) == Opcode(d) ==> c == d
  {
    HandlerForOpcode(c);
    HandlerForOpcode(d);
  }

  /** ACK and NACK differ from each other and from every opcode. */
  lemma AckNackAreNotOpcodes(c: Command)
    ensures BL_ACK != BL_NACK
    ensures Opcode(c) != BL_ACK && Opcode(c) != BL_NACK
    ensures HandlerFor(BL_ACK) == None && HandlerFor(BL_NACK) == None
  {
  }

  /** The version reply payload is the single byte 0x01; the two validity codes differ. */
  lemma VersionAndValidityCodes()
    ensures BL_VERSION == 0x01
    ensures VALID_ADDRESS == 0 && INVALID_ADDRESS == 1 && VALID_ADDRESS != INVALID_ADDRESS
  {
  }
}
