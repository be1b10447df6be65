# Bootloader command engine — a Dafny model

This project models the command engine of a UART bootloader for an STM32F4 part with eight flash
sectors (`Core/Src/bootloader.c`, `Core/Inc/bootloader.h`). The host sends frames of the form
`[len, opcode, payload.., crc0..crc3]`. Each of the twelve handlers does the following:

1. It re-derives the frame length from byte 0.
2. It feeds the bytes before the CRC field, one zero-extended word at a time, to the CRC unit, then resets the unit.
3. It compares the result with the little-endian CRC word the host appended.
4. It replies with NACK alone, or with ACK, a reply length and a payload.

Four decisions sit behind the handlers:

- address validation (flash or SRAM);
- the flash-erase guard and clamp;
- the memory-write routing (flash programming between unlock and lock, or direct stores);
- the read-modify-write of the option-control register FLASH_OPTCR by the two write-protection commands.

Layout:

- `bytes.dfy` (`Bytes`): `uint8_t`, `uint32_t`, little-endian 32-bit load and store.
- `bootloader_defs.dfy` (`BootloaderDefs`): the constants of the header and the twelve handlers with their opcodes.
- `decisions.dfy` (`Decisions`): the pure decisions. These are address validation, the erase request, the FLASH_OPTCR words written by the protection commands, and the CID, RDP and help payloads.
- `frame.dfy` (`Frame`): the frame layout and the CRC check, against an abstract CRC unit (a step function and a reset value).
- `device.dfy` (`Bootloader`): the `Device` class with the state the handlers read and change:
  - memory as an `array<byte>` indexed by 32-bit address, holding what MemRead loads and what the SRAM branch of a memory write stores (registers, option words and the frame buffer are kept apart from it, see "Left out");
  - the CRC data register and FLASH_OPTCR;
  - the flash and option-byte lock flags;
  - a log, in program order, of the requests sent to the flash and option-byte drivers (with the status the erase driver reported) and of every store to FLASH_OPTCR;
  - the bytes sent to the host;
  - the address control was handed to, if any.

  It also holds `VerifyCrc`, `ExecuteMemoryWrite`, `ExecuteFlashErase` and one method per handler.
- `scenarios.dfy` (`Scenarios`): complete exchanges with a freshly started device, each stated by its exact reply.

The model keeps the code's behaviour as written, including these quirks:

- The SRAM window admits its upper bound `SRAM_BASE + 128 KiB`.
- Mass erase is chosen by the sector byte 0xFF, which the guards only admit together with count 0xFF.
- A sector byte in 8..254 with count 0xFF passes both guards. The `uint8_t` subtraction `8 - sector` then wraps: sector 8 gets an empty request, and sector bytes 9..254 ask the flash driver to erase sectors that do not exist (`Decisions.OutOfBankSectorWithMassCount`).
- The readout-protection reply uses a logical `&&`, so it is 0 or 1, never the RDP level.
- GoToAddress with an invalid address sends only `[0xA5, 1]`, one byte short of its declared length.
- EnWriteProtect with an enable byte other than 1 sends only `[0xA5, 1]`, one byte short of its declared length.
- `ExcuteMemoryWrite` returns no value, so MemWrite's status byte for a valid address is unspecified.
- The erase guard's rejection (HAL_ERROR) is the same byte as a driver failure.

## Model

| member | source | states |
|---|---|---|
| Bytes.LoadStoreU32 | Core/Src/bootloader.c:135 | a 32-bit word written little-endian reads back as the same word |
| Bytes.StoreLoadU32 | Core/Src/bootloader.c:135 | the four bytes a 32-bit field is loaded from are exactly the little-endian bytes of the loaded word |
| BootloaderDefs.Opcode | Core/Inc/bootloader.h:13-24 | every handler's opcode lies in 0x51..0x5C |
| BootloaderDefs.HandlerForOpcode | Core/Inc/bootloader.h:38-49 | each of the twelve declared handlers is found again from its opcode, one handler per opcode constant |
| BootloaderDefs.OpcodeOfHandler | Core/Inc/bootloader.h:13-24 | an opcode byte has a handler iff it lies in 0x51..0x5C, and that handler's opcode is the byte |
| BootloaderDefs.OpcodesDistinct | Core/Inc/bootloader.h:13-24 | the twelve opcodes are pairwise distinct |
| BootloaderDefs.AckNackAreNotOpcodes | Core/Inc/bootloader.h:25-26 | ACK 0xA5 and NACK 0x7F differ from each other and from every opcode |
| BootloaderDefs.VersionAndValidityCodes | Core/Inc/bootloader.h:27-35 | the version payload is 0x01; VALID_ADDRESS 0 and INVALID_ADDRESS 1 differ |
| Decisions.ValidateAddress | Core/Src/bootloader.c:33-48 | VALID_ADDRESS iff the address is in flash or in the SRAM window (both bounds inclusive), INVALID_ADDRESS iff it is in neither |
| Decisions.ValidateAddressEdges | Core/Src/bootloader.c:37-46 | the verdict at each edge of both regions, including the admitted address SRAM_BASE + 128 KiB |
| Decisions.RegionsDisjoint | Core/Src/bootloader.c:37-42 | no address is both flash and SRAM, so a valid address takes exactly one write route |
| Decisions.EraseRequestFor | Core/Src/bootloader.c:49-82 | rejected iff count is not 0xFF and either count > 8 or sector > 7; mass erase iff both bytes are 0xFF; a sector request starts at the given sector and never exceeds the count; for sector ≤ 7 it covers min(count, 8 - sector) sectors |
| Decisions.ErasedSectors | Core/Src/bootloader.c:62-78 | a sector request erases exactly its count of sectors |
| Decisions.SectorEraseStaysInBank | Core/Src/bootloader.c:68-78 | an accepted request for sector ≤ 7 erases the contiguous run from that sector, all below 8; count 0xFF erases to the end of the bank |
| Decisions.EraseExamples | Core/Src/bootloader.c:52-78 | (6,5) erases sectors 6 and 7; (9,1) and (0xFF,3) are rejected; (0xFF,0xFF) is a mass erase of sectors 0..7 |
| Decisions.OutOfBankSectorWithMassCount | Core/Src/bootloader.c:52-78 | sector 8..254 with count 0xFF is accepted and, through the uint8_t wrap of 8 - sector, requests only sectors ≥ 8: none for sector 8, 255 for sector 9, 264 - sector above |
| Decisions.StoreNwrpByte | Core/Inc/bootloader.h:31-32 | a byte store to the nWRP byte address replaces byte lane 2 of FLASH_OPTCR and keeps lanes 0, 1 and 3 |
| Decisions.NotByteBits | Core/Src/bootloader.c:350 | each bit of `~mask` as a uint8_t is the opposite of the mask's bit |
| Decisions.ProtectWord | Core/Src/bootloader.c:349-351 | after EnWriteProtect, the nWRP lane holds `~mask`, bit 31 is clear, bit 1 is set, and every other bit is kept |
| Decisions.UnprotectWord | Core/Src/bootloader.c:415-417 | after DisWriteProtect, the nWRP lane is 0xFF, bit 31 is clear, bit 1 is set, and every other bit is kept |
| Decisions.ProtectWordProtectsMask | Core/Src/bootloader.c:349-351 | after EnWriteProtect, sector i is write-protected iff bit i of the host's mask is set |
| Decisions.UnprotectWordFreesAll | Core/Src/bootloader.c:415-417 | after DisWriteProtect, no sector 0..7 is write-protected |
| Decisions.UnprotectIsProtectNothing | Core/Src/bootloader.c:402-420 | DisWriteProtect's update equals EnWriteProtect's update with an empty mask |
| Decisions.NwrpByteIsOptcrLane | Core/Inc/bootloader.h:31-32 | the nWRP byte address is byte 2 of FLASH_OPTCR, and storing 0xFF there equals `OPTCR \|= 0xff << 16` (`Decisions.SetNwrpBits`) |
| Decisions.CidBytes | Core/Src/bootloader.c:193-195 | two bytes, least significant first, that encode `IDCODE & 0x0FFF` |
| Decisions.RdpReply | Core/Src/bootloader.c:212 | the reply is 0 or 1, and is 1 iff some bit 8..31 of the option word is set |
| Decisions.RdpReplyHidesLevel | Core/Src/bootloader.c:212 | option words with RDP levels 0xAA and 0x55 get the same reply |
| Decisions.HelpList | Core/Src/bootloader.c:159-173 | twelve bytes, the i-th being 0x51 + i |
| Decisions.HelpListIsOpcodeTable | Core/Src/bootloader.c:159-173 | the help list names every handler's opcode, only opcodes, each once |
| Frame.CrcAppend | Core/Src/bootloader.c:98-102 | feeding byte i after the first i bytes is one more step of the CRC unit |
| Frame.FrameLength | Core/Src/bootloader.c:134 | `packet[0] + 1` is at least 5 and within the received bytes |
| Frame.CrcWindow | Core/Src/bootloader.c:136 | the CRC covers a non-empty window that is four bytes shorter than the frame |
| Frame.HostCrc | Core/Src/bootloader.c:135 | the host CRC is the word whose little-endian bytes are the frame's last four bytes |
| Frame.CrcMatches | Core/Src/bootloader.c:135-136 | a frame passes iff its last four bytes are the little-endian encoding of the CRC of its window |
| Frame.FrameIsWindowThenCrc | Core/Src/bootloader.c:134-136 | a frame is exactly its CRC window followed by the little-endian bytes of the host CRC |
| Frame.SealedFramePasses | Core/Src/bootloader.c:93-114 | a frame the host seals with the body's CRC is well formed, its window is the body, and it passes the check |
| Frame.WrongCrcFails | Core/Src/bootloader.c:105-112 | a body followed by any word other than its CRC fails the check |
| Bootloader.ProgramOps | Core/Src/bootloader.c:16-19 | one program request per payload byte |
| Bootloader.ProtectWrites | Core/Src/bootloader.c:349-351 | EnWriteProtect stores FLASH_OPTCR three times, the last store being the final protect word |
| Bootloader.UnprotectWrites | Core/Src/bootloader.c:415-417 | DisWriteProtect stores FLASH_OPTCR three times, the last store being the final unprotect word |
| Bootloader.OffsetOfCell | Core/Src/bootloader.c:27-30 | cell `Address + i` (wrapping) is at offset i from the destination address |
| Bootloader.Device.VerifyCrc | Core/Src/bootloader.c:93-114 | succeeds iff the CRC accumulated from the reset value over the first `length` bytes equals the host CRC; the unit is back in reset afterwards |
| Bootloader.Device.CheckFrame | Core/Src/bootloader.c:134-136 | a handler's check succeeds iff the CRC over `[0, packet[0] - 3)` equals the little-endian word at `packet[0] - 3` |
| Bootloader.Device.ExecuteMemoryWrite | Core/Src/bootloader.c:9-32 | a flash address gets one unlock, a program request for every byte in order whatever the driver reports, then one lock, with memory unchanged; any other address gets bytes stored at `Address + i` and no other cell changed |
| Bootloader.Device.HalFlashErase | Core/Src/bootloader.c:88 | the driver reports a HAL status, and the log records the request together with that status |
| Bootloader.Device.ExecuteFlashErase | Core/Src/bootloader.c:49-92 | a rejected request returns HAL_ERROR with no flash access; an accepted one is passed to the driver between exactly one unlock and one lock, and the driver's status is returned |
| Bootloader.Device.WriteOptcr | Core/Src/bootloader.c:349-351 | a store to FLASH_OPTCR sets the register and is logged in program order |
| Bootloader.Device.SendAck | Core/Src/bootloader.c:116-120 | sends ACK then the reply length |
| Bootloader.Device.SendNack | Core/Src/bootloader.c:121-125 | sends NACK alone |
| Bootloader.Device.HandleGetVer | Core/Src/bootloader.c:130-149 | a good frame gets `[0xA5, 1, 1]`; a bad one gets `[0x7F]` |
| Bootloader.Device.HandleGetHelp | Core/Src/bootloader.c:150-183 | a good frame gets `[0xA5, 12]` and the opcodes 0x51..0x5C in order; a bad one gets `[0x7F]` |
| Bootloader.Device.HandleGetCid | Core/Src/bootloader.c:184-202 | a good frame gets `[0xA5, 2]` and the 12-bit device id, least significant byte first; a bad one gets `[0x7F]` |
| Bootloader.Device.HandleGetRdpStatus | Core/Src/bootloader.c:203-221 | a good frame gets `[0xA5, 1]` and the 0/1 RDP reply; a bad one gets `[0x7F]` |
| Bootloader.Device.HandleGoToAddress | Core/Src/bootloader.c:222-251 | a good frame with a valid address gets `[0xA5, 1, 0]` and a jump to `Address + 1`; with an invalid address it gets `[0xA5, 1]` and no jump; a bad frame gets `[0x7F]` and no jump |
| Bootloader.Device.HandleFlashErase | Core/Src/bootloader.c:252-274 | a good frame gets `[0xA5, 1, status]`: HAL_ERROR with no flash access when rejected, else exactly the status the driver returned for the one erase between one unlock and one lock; a bad frame gets `[0x7F]` and no flash access |
| Bootloader.Device.HandleMemWrite | Core/Src/bootloader.c:275-305 | an invalid address gets `[0xA5, 1, 1]` and no write; a flash address gets one unlock, all payload bytes programmed, and one lock; an SRAM address gets `packet[7..7 + len)` copied to `Address + i` with every other cell unchanged; a bad frame gets `[0x7F]` and no write |
| Bootloader.Device.MemoryBytes | Core/Src/bootloader.c:320-324 | reads exactly the requested number of bytes |
| Bootloader.Device.HandleMemRead | Core/Src/bootloader.c:306-332 | a good frame gets `[0xA5, len]` followed by the memory bytes at `Address + i`, i < len, with no address check; a bad frame gets `[0x7F]` |
| Bootloader.Device.SetWriteProtection | Core/Src/bootloader.c:349-351 | FLASH_OPTCR becomes the protect word for the mask through the three stores of `ProtectWrites`, in order |
| Bootloader.Device.ClearWriteProtection | Core/Src/bootloader.c:415-417 | FLASH_OPTCR becomes the unprotect word through the three stores of `UnprotectWrites`, in order |
| Bootloader.Device.HandleEnWriteProtect | Core/Src/bootloader.c:333-365 | with enable byte 1, the log is option-byte unlock, wait, the three FLASH_OPTCR stores (bit 31 cleared, nWRP set to `~mask`, bit 1 set last), wait, option-byte lock, so that exactly the mask's sectors end up protected, and `[0xA5, 1, 0]` is sent; any other enable byte gets `[0xA5, 1]` with FLASH_OPTCR unchanged; a bad frame gets `[0x7F]` |
| Bootloader.Device.HandleReadSectorStatus | Core/Src/bootloader.c:366-384 | a good frame gets `[0xA5, 1]` and the stored nWRP byte; a bad one gets `[0x7F]` |
| Bootloader.Device.HandleOtpRead | Core/Src/bootloader.c:385-401 | a good frame gets only `[0xA5, 1]`; a bad one gets `[0x7F]` |
| Bootloader.Device.HandleDisWriteProtect | Core/Src/bootloader.c:402-427 | a good frame logs option-byte unlock, wait, the three FLASH_OPTCR stores (bit 31 cleared, nWRP bits set, bit 1 set last), wait, option-byte lock, so that no sector is protected, and gets `[0xA5, 1, 0]`; a bad frame gets `[0x7F]` with FLASH_OPTCR unchanged |
| Scenarios.GetVersionExchange | Core/Src/bootloader.c:130-149 | a sealed GetVer frame is answered with exactly `[0xA5, 1, 1]` |
| Scenarios.GetVersionZeroCrcExchange | Core/Src/bootloader.c:143-146 | a GetVer frame with a wrong CRC is answered with exactly `[0x7F]` |
| Scenarios.MemWritePastFlashEndExchange | Core/Src/bootloader.c:284-296 | MemWrite to `FLASH_END + 1` is answered with `[0xA5, 1, 1]` and makes no flash request |
| Scenarios.EraseClampedExchange | Core/Src/bootloader.c:68-91 | erase (6,5) asks the driver for sectors 6..7 only, between one unlock and one lock, and replies with the status the driver returned |
| Scenarios.EraseRejectedExchange | Core/Src/bootloader.c:52-59 | erase (9,1) is answered with `[0xA5, 1, HAL_ERROR]` and makes no flash request |
| Scenarios.ProtectThenUnprotectExchange | Core/Src/bootloader.c:333-427 | protecting mask 0x81 protects sectors 0 and 7 but not 3; disabling then leaves no sector protected; both replies are `[0xA5, 1, 0]` |

## Left out

- Serial transmission (`HAL_UART_Transmit` with `HAL_MAX_DELAY`): modelled as appending bytes to `out`. Blocking and timeouts are not modelled.
- HAL flash and option-byte drivers (`HAL_FLASH_Unlock/Lock/Program`, `HAL_FLASHEx_Erase`, `HAL_FLASH_OB_Unlock/Lock`): these are foreign library calls. They are recorded as requests in `flashLog`, and any status they report is arbitrary (0..3). The contents of flash cells, the sector geometry, and the voltage-range and bank settings are not modelled. The option-byte lock's own effect on FLASH_OPTCR bit 0 is not modelled.
- The CRC unit (`HAL_CRC_Accumulate`, the CRC-32 polynomial 0x04C11DB7): it is an uninterpreted step function and a reset value. For that reason the model proves only that a wrong CRC word is rejected. That a corrupted body byte is detected depends on the polynomial and is not stated.
- The jump through a function pointer: modelled as the terminal `jumpedTo` value `Address + 1`. What the jumped-to code does is not modelled.
- The busy-waits on FLASH_SR bit 16: each is one `WaitWhileBusy` request in the log. No liveness claim is made.
- Volatile register reads (`DBMCU_IDCODE`, `RDP_USER_OPTION_WORD`, `NWRP_WORD`): taken as parameters of the handlers that read them. `mem` holds no register: a MemRead at 0x40023C14 (FLASH_OPTCR), 0xE0042000 or 0x1FFFC008 returns bytes of `mem` that are unrelated to `optcr` or to those parameters, whereas the source's load reads the register itself.
- FLASH_OPTCR is the field `optcr`, separate from `mem`. A MemWrite to its address is an ordinary store into `mem` and leaves `optcr` unchanged; the aliasing between the two is not modelled.
- The frame buffer and the bootloader's own variables live in the SRAM that the memory write stores into. The model keeps `packet` as a value apart from `mem`, so a MemWrite whose destination overlaps its own payload or the bootloader's data, which on the chip can overwrite the bytes still being copied, is not captured.
- Faults: every address is an ordinary cell of `mem`. A load or store to an unmapped address, such as the bytes after `SRAM_BASE + 128 KiB` that a MemWrite to the admitted upper bound reaches, faults on the chip but is an ordinary array access in the model.
- The order of option-byte requests against register stores is stated in the log, but the hardware's rule that FLASH_OPTCR ignores stores while OPTLOCK is set is not modelled: `optcr` changes whatever `optionBytesLocked` holds.
- The opcode dispatch in `main.c` is not part of this model. `BootloaderDefs.HandlerFor` only relates opcodes to handlers, and the reaction to an unknown opcode is not modelled.
- `common_macros.h` is not part of this model. `SET_BIT`, `CLEAR_BIT` and `BIT_IS_SET` are taken to act on a bit position, as in `Decisions.SetBit` and `Decisions.ClearBit`.
- `FLASH_BASE`, `FLASH_END`, `SRAM_BASE` and the HAL status values come from vendor headers that are not part of this model. They are taken as 0x08000000, 0x0807FFFF, 0x20000000 and HAL_OK 0, HAL_ERROR 1.
- Undefined-behaviour corners of the source are excluded by preconditions (`Frame.WellFormed` and the handlers' `requires`):
  - a length byte of 0xFF, whose `uint8_t` frame length wraps to 0;
  - a length byte of 3, which leaves the CRC window empty and the accumulator uninitialised;
  - a length byte of 0, 1 or 2, for which `CmdLength - 4` wraps to a `uint8_t` length of 253..255, so the CRC runs over 253..255 bytes and the host CRC is loaded from 1..3 bytes before the buffer;
  - frames longer than the received bytes.
- Bootloader.Device.HandleMemWrite: requires the `packet[6]` payload bytes to lie inside the received buffer. The source reads past it without checking.
- Bootloader.Device.HandleGoToAddress, HandleMemRead: require the 4-byte address field (and, for MemRead, the length byte) to lie inside the received buffer.
- Unaligned `*(uint32_t*)` loads of the address and CRC fields: modelled as little-endian byte loads, which the Cortex-M4 performs for unaligned word loads.
- The flash-write status is not modelled: `ExcuteMemoryWrite` discards all but the last driver status and then returns nothing.
