/**
 * Command frames and their integrity check. A frame is `[len, opcode, payload.., crc0..crc3]`
 * with len + 1 bytes in all; the trailing little-endian 32-bit word is the CRC the host
 * computed over the first len - 3 bytes, each fed to the CRC unit as one zero-extended
 * 32-bit word. The CRC unit itself is abstract: a step function and its reset value.
 */
module Frame {
  import opened Bytes

  /** The CRC unit's data register after one more 32-bit word is written to it. */
  type CrcStep = (u32, u32) -> u32

  /** The value the CRC unit holds after starting from `reset` and taking every byte of data. */
  function Crc(step: CrcStep, reset: u32, data: seq<byte>): u32
    decreases |data|
  {
    if data == [] then reset else step(Crc(step, reset, data[..|data| - 1]), data[|data| - 1])
  }

  /** Feeding byte i after the first i bytes is one more step of the unit. */
  lemma CrcAppend(step: CrcStep, reset: u32, data: seq<byte>, i: nat)
    requires i < |data|
    ensures Crc(step, reset, data[..i + 1]) == step(Crc(step, reset, data[..i]), data[i])
  {
    assert data[..i + 1][..i] == data[..i];
  }

  /**
   * The frames the handlers can process: the length byte leaves room for a non-empty CRC
   * window and a 4-byte CRC, `len + 1` does not wrap in uint8_t, and the buffer holds the
   * whole frame.
   */
  predicate WellFormed(packet: seq<byte>) {
    |packet| > 0 && 4 <= packet[0] <= 254 && packet[0] < |packet|
  }

  /** `CmdLength = packet[0] + 1`: the number of bytes in the frame. */
  function FrameLength(packet: seq<byte>): (n: nat)
    requires WellFormed(packet)
    ensures 5 <= n <= |packet|
  {
    packet[0] + 1
  }

  /** The bytes the CRC covers: the frame without its last four bytes. */
  function CrcWindow(packet: seq<byte>): (w: seq<byte>)
    requires WellFormed(packet)
    ensures 1 <= |w| == FrameLength(packet) - 4
  {
    packet[..FrameLength(packet) - 4]
  }

  /** The CRC the host appended: the little-endian word in the frame's last four bytes. */
  function HostCrc(packet: seq<byte>): (h: u32)
    requires WellFormed(packet)
    ensures StoreU32(h) == packet[FrameLength(packet) - 4..FrameLength(packet)]
  {
    StoreLoadU32(packet, FrameLength(packet) - 4);
    LoadU32(packet, FrameLength(packet) - 4)
  }

  /**
   * The frame passes the integrity check: its last four bytes are the little-endian encoding
   * of the CRC of its window.
   */
  predicate CrcMatches(step: CrcStep, reset: u32, packet: seq<byte>): (ok: bool)
    requires WellFormed(packet)
    ensures ok <==> StoreU32(Crc(step, reset, CrcWindow(packet)))
                    == packet[FrameLength(packet) - 4..FrameLength(packet)]
  {
    var c, h := Crc(step, reset, CrcWindow(packet)), HostCrc(packet);
    LoadStoreU32(c);
    LoadStoreU32(h);
    c == h
  }

  /** A well-formed frame is exactly its CRC window followed by the host CRC's four bytes. */
  lemma FrameIsWindowThenCrc(packet: seq<byte>)
    requires WellFormed(packet)
    ensures CrcWindow(packet) + StoreU32(HostCrc(packet)) == packet[..FrameLength(packet)]
  {
    var n := FrameLength(packet);
    StoreLoadU32(packet, n - 4);
    assert packet[..n] == packet[..n - 4] + packet[n - 4..n];
  }

  /**
   * The frame a host builds from a body `[len, opcode, payload..]`: the body followed by its
   * CRC, least significant byte first.
   */
  function Seal(step: CrcStep, reset: u32, body: seq<byte>): (packet: seq<byte>)
    requires 1 <= |body| <= 251 && body[0] == |body| + 3
    ensures |packet| == |body| + 4
  {
    body + StoreU32(Crc(step, reset, body))
  }

  /** Every sealed frame is well formed, its window is the body, and it passes the check. */
  lemma SealedFramePasses(step: CrcStep, reset: u32, body: seq<byte>)
    requires 1 <= |body| <= 251 && body[0] == |body| + 3
    ensures WellFormed(Seal(step, reset, body))
    ensures CrcWindow(Seal(step, reset, body)) == body
    ensures CrcMatches(step, reset, Seal(step, reset, body))
  {
    var packet := Seal(step, reset, body);
    var c := Crc(step, reset, body);
    assert packet[..|body|] == body;
    assert packet[|body|..|body| + 4] == StoreU32(c);
    LoadStoreU32(c);
    assert LoadU32(packet, |body|) == LoadU32(StoreU32(c), 0);
  }

  /** A body followed by any word other than its CRC fails the check. */
  lemma WrongCrcFails(step: CrcStep, reset: u32, body: seq<byte>, hostCrc: u32)
    requires 1 <= |body| <= 251 && body[0] == |body| + 3
    requires hostCrc != Crc(step, reset, body)
    ensures WellFormed(body + StoreU32(hostCrc))
    ensures !CrcMatches(step, reset, body + StoreU32(hostCrc))
  {
    var packet := body + StoreU32(hostCrc);
    assert packet[..|body|] == body;
    LoadStoreU32(hostCrc);
    assert LoadU32(packet, |body|) == LoadU32(StoreU32(hostCrc), 0);
  }
}
