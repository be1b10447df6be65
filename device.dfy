/**
 * The bootloader's command engine running on one device. A `Device` holds the state the
 * twelve command handlers read and change: the byte-addressable memory, the CRC unit's data
 * register, the option-control register FLASH_OPTCR, the lock state of the flash and
 * option-byte interfaces, the log of requests sent to the flash driver, the bytes sent on
 * the serial line, and the address control was handed to, if any.
 *
 * The flash driver, the option-byte driver and the CRC unit are abstract: their methods
 * below record the request and, where the driver reports a status, return an arbitrary one.
 */
module Bootloader {
  import opened Wrappers
  import opened Bytes
  import opened BootloaderDefs
  import opened Decisions
  import opened Frame

  /** Size of the 32-bit address space; pointer arithmetic wraps modulo this. */
  const MEMORY_SIZE: nat := WORD_RANGE

  /** HAL_StatusTypeDef: HAL_OK, HAL_ERROR, HAL_BUSY, HAL_TIMEOUT. */
  const HAL_OK: byte := 0
  const HAL_ERROR: byte := 1

  predicate IsHalStatus(b: byte) {
    b <= 3
  }

  /** One request to the flash or option-byte interface. */
  datatype FlashOp =
    | FlashUnlock
    | FlashLock
    | FlashProgram(address: u32, value: byte)
    | EraseFlash(request: EraseRequest, status: byte)
    | OptcrWrite(word: bv32)
    | OptionBytesUnlock
    | OptionBytesLock
    | WaitWhileBusy

  /** The byte-program requests for data placed at address, address + 1, ... (wrapping). */
  function ProgramOps(address: u32, data: seq<byte>): (ops: seq<FlashOp>)
    ensures |ops| == |data|
  {
    seq(|data|, i requires 0 <= i < |data| => FlashProgram((address + i) % MEMORY_SIZE, data[i]))
  }

  /** Offset of cell a from address, counted upwards and wrapping at the end of memory. */
  function Offset(address: u32, a: int): (k: nat)
    ensures k < MEMORY_SIZE
  {
    (a - address) % MEMORY_SIZE
  }

  /**
   * The three FLASH_OPTCR stores of EnWriteProtect, in order: SPRMOD (bit 31) cleared, the nWRP
   * byte set to the complement of the mask, and OPTSTRT (bit 1) set last, on the final value.
   */
  function ProtectWrites(w: bv32, mask: byte): (ops: seq<FlashOp>)
    ensures |ops| == 3 && ops[2] == OptcrWrite(ProtectWord(w, mask))
  {
    var cleared := ClearBit(w, 31);
    [OptcrWrite(cleared), OptcrWrite(StoreNwrpByte(cleared, NotByte(mask))), OptcrWrite(ProtectWord(w, mask))]
  }

  /**
   * The three FLASH_OPTCR stores of DisWriteProtect, in order: SPRMOD cleared, every nWRP bit
   * set, and OPTSTRT set last, on the final value.
   */
  function UnprotectWrites(w: bv32): (ops: seq<FlashOp>)
    ensures |ops| == 3 && ops[2] == OptcrWrite(UnprotectWord(w))
  {
    var cleared := ClearBit(w, 31);
    [OptcrWrite(cleared), OptcrWrite(SetNwrpBits(cleared)), OptcrWrite(UnprotectWord(w))]
  }

  /** Cell address + k lies at offset k from address. */
  lemma OffsetOfCell(address: u32, k: nat)
    requires k < MEMORY_SIZE
    ensures Offset(address, (address + k) % MEMORY_SIZE) == k
  {
    var a := (address + k) % MEMORY_SIZE;
    assert a == address + k || a == address + k - MEMORY_SIZE;
  }

  class Device {
    /** The CRC unit: its step function and the value its data register resets to. */
    const crcStep: CrcStep
    const crcReset: u32
    /** The CRC unit's data register. */
    var crc: u32
    /**
     * The bytes that MemRead loads and the SRAM branch of a memory write stores, indexed by
     * address. Registers and option words (FLASH_OPTCR, the identification and option words)
     * and the frame buffer are kept apart from it.
     */
    const mem: array<byte>
    /** FLASH_OPTCR; every write to it is also recorded in flashLog. */
    var optcr: bv32
    var flashLocked: bool
    var optionBytesLocked: bool
    /** Requests sent to the flash and option-byte interfaces, oldest first. */
    var flashLog: seq<FlashOp>
    /** Bytes sent to the host, oldest first. */
    var out: seq<byte>
    /** The entry point control was transferred to; it never comes back. */
    var jumpedTo: Option<u32>

    /**
     * Between commands the CRC unit is in its reset state and both the flash and the
     * option-byte interfaces are locked.
     */
    ghost predicate Valid()
      reads this
    {
      mem.Length == MEMORY_SIZE && crc == crcReset && flashLocked && optionBytesLocked
    }

    constructor (step: CrcStep, reset: u32, optionControl: bv32)
      ensures Valid() && fresh(mem)
      ensures crcStep == step && crcReset == reset && optcr == optionControl
      ensures flashLog == [] && out == [] && jumpedTo == None
    {
      crcStep, crcReset, crc := step, reset, reset;
      mem := new byte[MEMORY_SIZE];
      optcr := optionControl;
      flashLocked, optionBytesLocked := true, true;
      flashLog, out, jumpedTo := [], [], None;
    }

    // ---------------------------------------------------------------------------------------
    // Serial line, CRC unit and flash driver

    /** HAL_UART_Transmit: the bytes go out in order. */
    method Transmit(bytes: seq<byte>)
      modifies this`out
      ensures out == old(out) + bytes
    {
      out := out + bytes;
    }

    /** The reply header: ACK and the declared reply length. */
    method SendAck(replyLength: byte)
      modifies this`out
      ensures out == old(out) + [BL_ACK, replyLength]
    {
      Transmit([BL_ACK, replyLength]);
    }

    method SendNack()
      modifies this`out
      ensures out == old(out) + [BL_NACK]
    {
      Transmit([BL_NACK]);
    }

    /** HAL_CRC_Accumulate with one 32-bit word: one step of the unit; returns the new register. */
    method CrcAccumulate(word: u32) returns (value: u32)
      modifies this`crc
      ensures crc == crcStep(old(crc), word) && value == crc
    {
      crc := crcStep(crc, word);
      value := crc;
    }

    /** __HAL_CRC_DR_RESET */
    method CrcResetRegister()
      modifies this`crc
      ensures crc == crcReset
    {
      crc := crcReset;
    }

    method HalFlashUnlock()
      modifies this`flashLocked, this`flashLog
      ensures !flashLocked && flashLog == old(flashLog) + [FlashUnlock]
    {
      flashLocked := false;
      flashLog := flashLog + [FlashUnlock];
    }

    method HalFlashLock()
      modifies this`flashLocked, this`flashLog
      ensures flashLocked && flashLog == old(flashLog) + [FlashLock]
    {
      flashLocked := true;
      flashLog := flashLog + [FlashLock];
    }

    /** HAL_FLASH_Program of one byte; the driver's status is not modelled. */
    method HalFlashProgram(address: u32, value: byte) returns (status: byte)
      modifies this`flashLog
      ensures IsHalStatus(status)
      ensures flashLog == old(flashLog) + [FlashProgram(address, value)]
    {
      status :| IsHalStatus(status);
      flashLog := flashLog + [FlashProgram(address, value)];
    }

    /** HAL_FLASHEx_Erase: the driver reports some status, which the log records with the request. */
    method HalFlashErase(request: EraseRequest) returns (status: byte)
      modifies this`flashLog
      ensures IsHalStatus(status)
      ensures flashLog == old(flashLog) + [EraseFlash(request, status)]
    {
      status :| IsHalStatus(status);
      flashLog := flashLog + [EraseFlash(request, status)];
    }

    /** A direct store to FLASH_OPTCR, recorded in the log in program order. */
    method WriteOptcr(value: bv32)
      modifies this`optcr, this`flashLog
      ensures optcr == value && flashLog == old(flashLog) + [OptcrWrite(value)]
    {
      optcr := value;
      flashLog := flashLog + [OptcrWrite(value)];
    }

    method HalOptionBytesUnlock()
      modifies this`optionBytesLocked, this`flashLog
      ensures !optionBytesLocked && flashLog == old(flashLog) + [OptionBytesUnlock]
    {
      optionBytesLocked := false;
      flashLog := flashLog + [OptionBytesUnlock];
    }

    method HalOptionBytesLock()
      modifies this`optionBytesLocked, this`flashLog
      ensures optionBytesLocked && flashLog == old(flashLog) + [OptionBytesLock]
    {
      optionBytesLocked := true;
      flashLog := flashLog + [OptionBytesLock];
    }

    /** `while (BIT_IS_SET(FLASH_SR_REG, 16));` taken as one step that ends. */
    method WaitWhileFlashBusy()
      modifies this`flashLog
      ensures flashLog == old(flashLog) + [WaitWhileBusy]
    {
      flashLog := flashLog + [WaitWhileBusy];
    }

    // ---------------------------------------------------------------------------------------
    // Integrity check, memory write and flash erase

    /**
     * Feeds data[0..length) to the CRC unit from its reset state, resets the unit again and
     * reports whether the accumulated value is the host's CRC.
     */
    method VerifyCrc(data: seq<byte>, length: byte, hostCrc: u32) returns (ok: bool)
      requires Valid()
      requires 1 <= length <= |data|
      modifies this`crc
      ensures Valid()
      ensures ok <==> Crc(crcStep, crcReset, data[..length]) == hostCrc
    {
      var accumulated: u32 := crc;
      var i := 0;
      while i < length
        invariant 0 <= i <= length
        invariant crc == Crc(crcStep, crcReset, data[..i])
        invariant 0 < i ==> accumulated == crc
      {
        accumulated := CrcAccumulate(data[i]);
        CrcAppend(crcStep, crcReset, data, i);
        i := i + 1;
      }
      CrcResetRegister();
      ok := accumulated == hostCrc;
    }

    /**
     * Writes buffer[0..length) to address, address + 1, ...: through the flash driver,
     * between one unlock and one lock, when address is in flash, attempting every byte
     * whatever the driver reports; otherwise by direct stores. The source declares a uint8_t
     * result but returns none, so this method has no result.
     */
    method ExecuteMemoryWrite(buffer: seq<byte>, address: u32, length: byte)
      requires Valid()
      requires length <= |buffer|
      modifies mem, this`flashLog, this`flashLocked
      ensures Valid()
      ensures InFlash(address) ==>
        && flashLog == old(flashLog) + [FlashUnlock] + ProgramOps(address, buffer[..length]) + [FlashLock]
        && unchanged(mem)
      ensures !InFlash(address) ==>
        && flashLog == old(flashLog)
        && forall a :: 0 <= a < mem.Length ==>
             mem[a] == if Offset(address, a) < length then buffer[Offset(address, a)] else old(mem[a])
    {
      if FLASH_BASE <= address && address <= FLASH_END {
        HalFlashUnlock();
        var i := 0;
        while i < length
          invariant 0 <= i <= length
          invariant !flashLocked
          invariant flashLog == old(flashLog) + [FlashUnlock] + ProgramOps(address, buffer[..i])
          modifies this`flashLog
        {
          var status := HalFlashProgram((address + i) % MEMORY_SIZE, buffer[i]);
          assert ProgramOps(address, buffer[..i + 1])
            == ProgramOps(address, buffer[..i]) + [FlashProgram((address + i) % MEMORY_SIZE, buffer[i])];
          i := i + 1;
        }
        HalFlashLock();
      } else {
        var i := 0;
        while i < length
          invariant 0 <= i <= length
          invariant forall a :: 0 <= a < mem.Length ==>
            mem[a] == if Offset(address, a) < i then buffer[Offset(address, a)] else old(mem[a])
          modifies mem
        {
          var target := (address + i) % MEMORY_SIZE;
          OffsetOfCell(address, i);
          mem[target] := buffer[i];
          i := i + 1;
        }
      }
    }

    /**
     * Checks the sector and count bytes of an erase command and, when they pass, hands the
     * (clamped) request to the flash driver between one unlock and one lock. Returns HAL_ERROR
     * without touching the flash when the guards reject the request, else the driver's status.
     */
    method ExecuteFlashErase(sector: byte, count: byte) returns (status: byte)
      requires Valid()
      modifies this`flashLog, this`flashLocked
      ensures Valid()
      ensures EraseRequestFor(sector, count) == None ==> status == HAL_ERROR && flashLog == old(flashLog)
      ensures EraseRequestFor(sector, count).Some? ==>
        && IsHalStatus(status)
        && flashLog == old(flashLog) + [FlashUnlock, EraseFlash(EraseRequestFor(sector, count).value, status), FlashLock]
    {
      if count > 8 && count != 0xFF {
        status := HAL_ERROR;
      } else if sector > 7 && count != 0xFF {
        status := HAL_ERROR;
      } else {
        var request;
        if sector == 0xFF {
          request := MassErase;
        } else {
          var remaining: byte := (8 - sector) % 0x100;
          var n := count;
          if n > remaining {
            n := remaining;
          }
          request := SectorErase(sector, n);
        }
        HalFlashUnlock();
        status := HalFlashErase(request);
        HalFlashLock();
      }
    }

    // ---------------------------------------------------------------------------------------
    // Command handlers. Each re-derives the frame length from byte 0, checks the CRC, and
    // sends NACK alone (changing nothing else) when it fails, or ACK and a reply when it holds.

    /** Runs the integrity check of a handler on its frame. */
    method CheckFrame(packet: seq<byte>) returns (ok: bool)
      requires Valid() && WellFormed(packet)
      modifies this`crc
      ensures Valid()
      ensures ok == CrcMatches(crcStep, crcReset, packet)
    {
      var cmdLength := packet[0] + 1;
      var hostCrc := LoadU32(packet, cmdLength - 4);
      ok := VerifyCrc(packet, cmdLength - 4, hostCrc);
    }

    /** GetVer: ACK, length 1, BL_VERSION. */
    method HandleGetVer(packet: seq<byte>)
      requires Valid() && jumpedTo == None && WellFormed(packet)
      modifies this`crc, this`out
      ensures Valid()
      ensures out == old(out) + if CrcMatches(crcStep, crcReset, packet)
                                then [BL_ACK, 1, BL_VERSION] else [BL_NACK]
    {
      var ok := CheckFrame(packet);
      if ok {
        SendAck(1);
        Transmit([BL_VERSION]);
      } else {
        SendNack();
      }
    }

    /** GetHelp: ACK, length 12, the twelve opcodes. */
    method HandleGetHelp(packet: seq<byte>)
      requires Valid() && jumpedTo == None && WellFormed(packet)
      modifies this`crc, this`out
      ensures Valid()
      ensures out == old(out) + if CrcMatches(crcStep, crcReset, packet)
                                then [BL_ACK, 12] + HelpList() else [BL_NACK]
    {
      var ok := CheckFrame(packet);
      if ok {
        var commands := HelpList();
        SendAck(|commands|);
        Transmit(commands);
      } else {
        SendNack();
      }
    }

    /** GetCid: ACK, length 2, the 12-bit device identifier as a little-endian uint16_t. */
    method HandleGetCid(packet: seq<byte>, idcode: u32)
      requires Valid() && jumpedTo == None && WellFormed(packet)
      modifies this`crc, this`out
      ensures Valid()
      ensures out == old(out) + if CrcMatches(crcStep, crcReset, packet)
                                then [BL_ACK, 2] + CidBytes(idcode) else [BL_NACK]
    {
      var ok := CheckFrame(packet);
      if ok {
        var deviceId := CidBytes(idcode);
        SendAck(2);
        Transmit(deviceId);
      } else {
        SendNack();
      }
    }

    /** GetRdpStatus: ACK, length 1, the (0 or 1) reduction of the RDP option word. */
    method HandleGetRdpStatus(packet: seq<byte>, rdpOptionWord: u32)
      requires Valid() && jumpedTo == None && WellFormed(packet)
      modifies this`crc, this`out
      ensures Valid()
      ensures out == old(out) + if CrcMatches(crcStep, crcReset, packet)
                                then [BL_ACK, 1, RdpReply(rdpOptionWord)] else [BL_NACK]
    {
      var ok := CheckFrame(packet);
      if ok {
        var rdpStatus := RdpReply(rdpOptionWord);
        SendAck(1);
        Transmit([rdpStatus]);
      } else {
        SendNack();
      }
    }

    /**
     * GoToAddress: ACK, length 1; then, for a valid address only, the byte VALID_ADDRESS and a
     * jump to address + 1 (the Thumb bit). An invalid address gets no status byte.
     */
    method HandleGoToAddress(packet: seq<byte>)
      requires Valid() && jumpedTo == None && WellFormed(packet) && |packet| >= 6
      modifies this`crc, this`out, this`jumpedTo
      ensures Valid()
      ensures !CrcMatches(crcStep, crcReset, packet) ==> out == old(out) + [BL_NACK] && jumpedTo == None
      ensures CrcMatches(crcStep, crcReset, packet) ==>
        var address := LoadU32(packet, 2);
        if ValidateAddress(address) == VALID_ADDRESS then
          out == old(out) + [BL_ACK, 1, VALID_ADDRESS] && jumpedTo == Some(address + 1)
        else
          out == old(out) + [BL_ACK, 1] && jumpedTo == None
    {
      var ok := CheckFrame(packet);
      if ok {
        SendAck(1);
        var address := LoadU32(packet, 2);
        var validState := ValidateAddress(address);
        if validState == VALID_ADDRESS {
          Transmit([validState]);
          jumpedTo := Some(address + 1);
        }
      } else {
        SendNack();
      }
    }

    /** FlashErase: ACK, length 1, the erase engine's status for sector packet[2], count packet[3]. */
    method HandleFlashErase(packet: seq<byte>)
      requires Valid() && jumpedTo == None && WellFormed(packet)
      modifies this`crc, this`out, this`flashLog, this`flashLocked
      ensures Valid()
      ensures !CrcMatches(crcStep, crcReset, packet) ==> out == old(out) + [BL_NACK] && flashLog == old(flashLog)
      ensures CrcMatches(crcStep, crcReset, packet) ==>
        var request := EraseRequestFor(packet[2], packet[3]);
        && |out| == |old(out)| + 3
        && out == old(out) + [BL_ACK, 1, out[|old(out)| + 2]]
        && IsHalStatus(out[|old(out)| + 2])
        && (request == None ==> out[|old(out)| + 2] == HAL_ERROR && flashLog == old(flashLog))
        && (request.Some? ==>
              flashLog == old(flashLog) + [FlashUnlock, EraseFlash(request.value, out[|old(out)| + 2]), FlashLock])
    {
      var ok := CheckFrame(packet);
      if ok {
        SendAck(1);
        var eraseState := ExecuteFlashErase(packet[2], packet[3]);
        Transmit([eraseState]);
      } else {
        SendNack();
      }
    }

    /**
     * MemWrite: ACK, length 1, then a status byte. An invalid address gets status 1 and no
     * write; a valid one is written by ExecuteMemoryWrite, whose missing return value makes
     * the status byte unspecified.
     */
    method HandleMemWrite(packet: seq<byte>)
      requires Valid() && jumpedTo == None && WellFormed(packet)
      requires |packet| >= 7 && 7 + packet[6] <= |packet|
      modifies mem, this`crc, this`out, this`flashLog, this`flashLocked
      ensures Valid()
      ensures !CrcMatches(crcStep, crcReset, packet) ==>
        out == old(out) + [BL_NACK] && flashLog == old(flashLog) && unchanged(mem)
      ensures CrcMatches(crcStep, crcReset, packet) ==>
        |out| == |old(out)| + 3 && out == old(out) + [BL_ACK, 1, out[|old(out)| + 2]]
      ensures CrcMatches(crcStep, crcReset, packet) && ValidateAddress(LoadU32(packet, 2)) == INVALID_ADDRESS ==>
        out == old(out) + [BL_ACK, 1, 1] && flashLog == old(flashLog) && unchanged(mem)
      ensures CrcMatches(crcStep, crcReset, packet) && InFlash(LoadU32(packet, 2)) ==>
        && flashLog == old(flashLog) + [FlashUnlock] + ProgramOps(LoadU32(packet, 2), packet[7..7 + packet[6]]) + [FlashLock]
        && unchanged(mem)
      ensures CrcMatches(crcStep, crcReset, packet) && InSramWindow(LoadU32(packet, 2)) ==>
        var address, length := LoadU32(packet, 2), packet[6];
        && flashLog == old(flashLog)
        && forall a :: 0 <= a < mem.Length ==>
             mem[a] == if Offset(address, a) < length then packet[7 + Offset(address, a)] else old(mem[a])
    {
      var ok := CheckFrame(packet);
      if ok {
        SendAck(1);
        var writingStatus: byte;
        var address := LoadU32(packet, 2);
        var addressStatus := ValidateAddress(address);
        if addressStatus == VALID_ADDRESS {
          var payloadLength := packet[6];
          ExecuteMemoryWrite(packet[7..], address, payloadLength);
          writingStatus :| true;
        } else {
          writingStatus := 1;
        }
        Transmit([writingStatus]);
      } else {
        SendNack();
      }
    }

    /** The length bytes stored at address, address + 1, ... (wrapping), as loads return them. */
    function MemoryBytes(address: u32, length: nat): (s: seq<byte>)
      reads mem
      requires mem.Length == MEMORY_SIZE
      ensures |s| == length
    {
      seq(length, i requires 0 <= i < length reads mem => mem[(address + i) % MEMORY_SIZE])
    }

    /** MemRead: ACK with the requested length, then that many bytes from memory; no address check. */
    method HandleMemRead(packet: seq<byte>)
      requires Valid() && jumpedTo == None && WellFormed(packet) && |packet| >= 7
      modifies this`crc, this`out
      ensures Valid()
      ensures out == old(out) + if CrcMatches(crcStep, crcReset, packet)
                                then [BL_ACK, packet[6]] + MemoryBytes(LoadU32(packet, 2), packet[6])
                                else [BL_NACK]
    {
      var ok := CheckFrame(packet);
      if ok {
        var length := packet[6];
        var address := LoadU32(packet, 2);
        SendAck(length);
        ghost var before := out;
        var i := 0;
        while i < length
          invariant 0 <= i <= length
          invariant out == before + MemoryBytes(address, i)
          modifies this`out
        {
          var value := mem[(address + i) % MEMORY_SIZE];
          Transmit([value]);
          assert MemoryBytes(address, i + 1) == MemoryBytes(address, i) + [value];
          i := i + 1;
        }
      } else {
        SendNack();
      }
    }

    /**
     * EnWriteProtect: ACK, length 1. With enable byte packet[3] == 1, rewrites FLASH_OPTCR
     * between one option-byte unlock and lock so that exactly the sectors in mask packet[2]
     * are protected, then sends status 0; any other enable byte sends nothing more.
     */
    method HandleEnWriteProtect(packet: seq<byte>)
      requires Valid() && jumpedTo == None && WellFormed(packet)
      modifies this`crc, this`out, this`optcr, this`flashLog, this`optionBytesLocked
      ensures Valid()
      ensures !CrcMatches(crcStep, crcReset, packet) ==>
        out == old(out) + [BL_NACK] && optcr == old(optcr) && flashLog == old(flashLog)
      ensures CrcMatches(crcStep, crcReset, packet) && packet[3] == 1 ==>
        && out == old(out) + [BL_ACK, 1, 0]
        && optcr == ProtectWord(old(optcr), packet[2])
        && flashLog == old(flashLog) + [OptionBytesUnlock, WaitWhileBusy]
                       + ProtectWrites(old(optcr), packet[2]) + [WaitWhileBusy, OptionBytesLock]
      ensures CrcMatches(crcStep, crcReset, packet) && packet[3] != 1 ==>
        out == old(out) + [BL_ACK, 1] && optcr == old(optcr) && flashLog == old(flashLog)
    {
      var ok := CheckFrame(packet);
      if ok {
        SendAck(1);
        if packet[3] == 1 {
          var status: byte := 0;
          HalOptionBytesUnlock();
          WaitWhileFlashBusy();
          SetWriteProtection(packet[2]);
          WaitWhileFlashBusy();
          HalOptionBytesLock();
          Transmit([status]);
        }
      } else {
        SendNack();
      }
    }

    /**
     * The option-byte update of EnWriteProtect: `CLEAR_BIT(OPTCR, 31)`, `NWRP_Byte = ~mask`,
     * `SET_BIT(OPTCR, 1)`.
     */
    method SetWriteProtection(mask: byte)
      modifies this`optcr, this`flashLog
      ensures optcr == ProtectWord(old(optcr), mask)
      ensures flashLog == old(flashLog) + ProtectWrites(old(optcr), mask)
    {
      WriteOptcr(ClearBit(optcr, 31));
      WriteOptcr(StoreNwrpByte(optcr, NotByte(mask)));
      WriteOptcr(SetBit(optcr, 1));
    }

    /**
     * The option-byte update of DisWriteProtect: `CLEAR_BIT(OPTCR, 31)`, `OPTCR |= 0xff << 16`,
     * `SET_BIT(OPTCR, 1)`.
     */
    method ClearWriteProtection()
      modifies this`optcr, this`flashLog
      ensures optcr == UnprotectWord(old(optcr))
      ensures flashLog == old(flashLog) + UnprotectWrites(old(optcr))
    {
      WriteOptcr(ClearBit(optcr, 31));
      WriteOptcr(SetNwrpBits(optcr));
      WriteOptcr(SetBit(optcr, 1));
    }

    /** ReadSectorStatus: ACK, length 1, the stored nWRP option byte. */
    method HandleReadSectorStatus(packet: seq<byte>, nwrpWord: byte)
      requires Valid() && jumpedTo == None && WellFormed(packet)
      modifies this`crc, this`out
      ensures Valid()
      ensures out == old(out) + if CrcMatches(crcStep, crcReset, packet)
                                then [BL_ACK, 1, nwrpWord] else [BL_NACK]
    {
      var ok := CheckFrame(packet);
      if ok {
        SendAck(1);
        Transmit([nwrpWord]);
      } else {
        SendNack();
      }
    }

    /** OtpRead: a stub that sends only ACK and length 1. */
    method HandleOtpRead(packet: seq<byte>)
      requires Valid() && jumpedTo == None && WellFormed(packet)
      modifies this`crc, this`out
      ensures Valid()
      ensures out == old(out) + if CrcMatches(crcStep, crcReset, packet) then [BL_ACK, 1] else [BL_NACK]
    {
      var ok := CheckFrame(packet);
      if ok {
        SendAck(1);
      } else {
        SendNack();
      }
    }

    /**
     * DisWriteProtect: ACK, length 1; rewrites FLASH_OPTCR between one option-byte unlock and
     * lock so that no sector is protected, then sends status 0.
     */
    method HandleDisWriteProtect(packet: seq<byte>)
      requires Valid() && jumpedTo == None && WellFormed(packet)
      modifies this`crc, this`out, this`optcr, this`flashLog, this`optionBytesLocked
      ensures Valid()
      ensures !CrcMatches(crcStep, crcReset, packet) ==>
        out == old(out) + [BL_NACK] && optcr == old(optcr) && flashLog == old(flashLog)
      ensures CrcMatches(crcStep, crcReset, packet) ==>
        && out == old(out) + [BL_ACK, 1, 0]
        && optcr == UnprotectWord(old(optcr))
        && flashLog == old(flashLog) + [OptionBytesUnlock, WaitWhileBusy]
                       + UnprotectWrites(old(optcr)) + [WaitWhileBusy, OptionBytesLock]
    {
      var ok := CheckFrame(packet);
      if ok {
        var status: byte := 0;
        SendAck(1);
        HalOptionBytesUnlock();
        WaitWhileFlashBusy();
        ClearWriteProtection();
        WaitWhileFlashBusy();
        HalOptionBytesLock();
        Transmit([status]);
      } else {
        SendNack();
      }
    }
  }
}
