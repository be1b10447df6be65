/**
 * Whole exchanges with a freshly started device: the host seals a frame, one handler runs,
 * and the bytes sent back (and the flash requests made) are known exactly from the
 * handlers' contracts. The CRC unit is left abstract throughout.
 */
module Scenarios {
  import opened Wrappers
  import opened Bytes
  import opened BootloaderDefs
  import opened Decisions
  import opened Frame
  import opened Bootloader

  /** A GetVer frame with the right CRC is answered with ACK, length 1 and the version. */
  method GetVersionExchange(step: CrcStep, reset: u32) returns (reply: seq<byte>)
    ensures reply == [0xA5, 1, 0x01]
  {
    var device := new Device(step, reset, 0);
    var body: seq<byte> := [5, BL_GET_VER];
    SealedFramePasses(step, reset, body);
    device.HandleGetVer(Seal(step, reset, body));
    reply := device.out;
  }

  /** A GetVer frame whose CRC field is zero, when zero is not its CRC, gets NACK alone. */
  method GetVersionZeroCrcExchange(step: CrcStep, reset: u32) returns (reply: seq<byte>)
    requires Crc(step, reset, [5, BL_GET_VER]) != 0
    ensures reply == [0x7F]
  {
    var device := new Device(step, reset, 0);
    var body: seq<byte> := [5, BL_GET_VER];
    WrongCrcFails(step, reset, body, 0);
    device.HandleGetVer(body + StoreU32(0));
    reply := device.out;
  }

  /** MemWrite one byte past the end of flash: status 1 and no flash request. */
  method MemWritePastFlashEndExchange(step: CrcStep, reset: u32, value: byte)
    returns (reply: seq<byte>, requests: seq<FlashOp>)
    ensures reply == [0xA5, 1, 1]
    ensures requests == []
  {
    var device := new Device(step, reset, 0);
    var body: seq<byte> := [11, BL_MEM_WRITE] + StoreU32(FLASH_END + 1) + [1, value];
    SealedFramePasses(step, reset, body);
    var packet := Seal(step, reset, body);
    assert packet[2..6] == StoreU32(FLASH_END + 1);
    LoadStoreU32(FLASH_END + 1);
    assert LoadU32(packet, 2) == LoadU32(StoreU32(FLASH_END + 1), 0);
    device.HandleMemWrite(packet);
    reply, requests := device.out, device.flashLog;
  }

  /** Erase from sector 6 with count 5: the driver is asked for sectors 6 and 7 only. */
  method EraseClampedExchange(step: CrcStep, reset: u32)
    returns (reply: seq<byte>, requests: seq<FlashOp>)
    ensures |reply| == 3 && reply[..2] == [0xA5, 1]
    ensures requests == [FlashUnlock, EraseFlash(SectorErase(6, 2), reply[2]), FlashLock]
  {
    var device := new Device(step, reset, 0);
    var body: seq<byte> := [7, BL_FLASH_ERASE, 6, 5];
    SealedFramePasses(step, reset, body);
    device.HandleFlashErase(Seal(step, reset, body));
    reply, requests := device.out, device.flashLog;
  }

  /** Erase from sector 9: HAL_ERROR is reported and the flash is not touched. */
  method EraseRejectedExchange(step: CrcStep, reset: u32)
    returns (reply: seq<byte>, requests: seq<FlashOp>)
    ensures reply == [0xA5, 1, 1]
    ensures requests == []
  {
    var device := new Device(step, reset, 0);
    var body: seq<byte> := [7, BL_FLASH_ERASE, 9, 1];
    SealedFramePasses(step, reset, body);
    device.HandleFlashErase(Seal(step, reset, body));
    reply, requests := device.out, device.flashLog;
  }

  /** EnWriteProtect of sectors 0 and 7, then ReadSectorStatus-style check of the register. */
  method ProtectThenUnprotectExchange(step: CrcStep, reset: u32, optionControl: bv32)
    returns (protectedWord: bv32, freedWord: bv32, reply: seq<byte>)
    ensures SectorWriteProtected(protectedWord, 0) && SectorWriteProtected(protectedWord, 7)
    ensures !SectorWriteProtected(protectedWord, 3)
    ensures forall i: bv32 :: i < 8 ==> !SectorWriteProtected(freedWord, i)
    ensures reply == [0xA5, 1, 0, 0xA5, 1, 0]
  {
    var device := new Device(step, reset, optionControl);
    var enable: seq<byte> := [7, BL_EN_WR_PROTECT, 0x81, 1];
    SealedFramePasses(step, reset, enable);
    device.HandleEnWriteProtect(Seal(step, reset, enable));
    protectedWord := device.optcr;
    ProtectWordProtectsMask(optionControl, 0x81, 0);
    ProtectWordProtectsMask(optionControl, 0x81, 7);
    ProtectWordProtectsMask(optionControl, 0x81, 3);
    var disable: seq<byte> := [5, BL_DIS_WR_PROTECT];
    SealedFramePasses(step, reset, disable);
    device.HandleDisWriteProtect(Seal(step, reset, disable));
    freedWord := device.optcr;
    forall i: bv32 | i < 8 ensures !SectorWriteProtected(freedWord, i) {
      UnprotectWordFreesAll(protectedWord, i);
    }
    reply := device.out;
  }
}
