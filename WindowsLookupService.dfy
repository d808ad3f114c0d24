/** ARP lookups on Windows: pack the address into the `int` the IpHlpApi
    `SendARP` call takes, let the call fill a six-byte buffer, and read the
    hardware address back from it when the call reports success. */
module WindowsLookupService {
  import opened Net
  import opened Os

  // ---------------------------------------------------------------------------
  // Packing the address

  /** `BitConverter.ToInt32(bytes, 0)` on a little-endian host: the first byte
      is the least significant one, and the top bit of the last byte is the sign. */
  function ToInt32LittleEndian(b: Octets4): (v: Int32)
    ensures v % 256 == b[0]
    ensures v < 0 <==> b[3] >= 128
  {
    var u := Unsigned(b);
    if u >= 0x8000_0000 then u - 0x1_0000_0000 else u
  }

  /** The four bytes read as an unsigned number, least significant first. */
  function Unsigned(b: Octets4): (u: int)
    ensures 0 <= u < 0x1_0000_0000
  {
    b[0] as int + 0x100 * (b[1] as int) + 0x1_0000 * (b[2] as int) + 0x100_0000 * (b[3] as int)
  }

  /** The four bytes of a 32-bit integer, least significant first
      (`BitConverter.GetBytes` on a little-endian host). */
  function Int32Bytes(v: Int32): (b: Octets4)
    ensures b[0] == v % 256
  {
    var u: int := if v < 0 then v + 0x1_0000_0000 else v;
    var b3: int := u / 0x100_0000;
    assert 0 <= b3 < 0x100;
    [u % 0x100, u / 0x100 % 0x100, u / 0x1_0000 % 0x100, b3]
  }

  /** No two addresses are packed into the same integer: the bytes can be read back. */
  lemma BytesOfPacked(b: Octets4)
    ensures Int32Bytes(ToInt32LittleEndian(b)) == b
  {
    var b0, b1, b2, b3 := b[0] as int, b[1] as int, b[2] as int, b[3] as int;
    var u := Unsigned(b);
    var v: int := ToInt32LittleEndian(b);
    assert (if v < 0 then v + 0x1_0000_0000 else v) == u;
    Quotient8(u, b1 + 0x100 * b2 + 0x1_0000 * b3, b0);
    Quotient16(u, b2 + 0x100 * b3, b0 + 0x100 * b1);
    Quotient24(u, b3, b0 + 0x100 * b1 + 0x1_0000 * b2);
    Quotient8(b1 + 0x100 * b2 + 0x1_0000 * b3, b2 + 0x100 * b3, b1);
    Quotient8(b2 + 0x100 * b3, b3, b2);
  }

  /** Quotient and remainder by 2^8, 2^16 and 2^24 of `x = d * q + r` with `0 <= r < d`. */
  lemma Quotient8(x: int, q: int, r: int)
    requires 0 <= r < 0x100 && x == 0x100 * q + r
    ensures x / 0x100 == q && x % 0x100 == r
  {
  }

  lemma Quotient16(x: int, q: int, r: int)
    requires 0 <= r < 0x1_0000 && x == 0x1_0000 * q + r
    ensures x / 0x1_0000 == q
  {
  }

  lemma Quotient24(x: int, q: int, r: int)
    requires 0 <= r < 0x100_0000 && x == 0x100_0000 * q + r
    ensures x / 0x100_0000 == q
  {
  }

  /** Every 32-bit integer is the packing of some address. */
  lemma PackedOfBytes(v: Int32)
    ensures ToInt32LittleEndian(Int32Bytes(v)) == v
  {
    var u := if v < 0 then v + 0x1_0000_0000 else v;
    var b := Int32Bytes(v);
    assert u == u % 0x100 + 0x100 * (u / 0x100);
    assert u / 0x100 == u / 0x100 % 0x100 + 0x100 * (u / 0x1_0000);
    assert u / 0x1_0000 == u / 0x1_0000 % 0x100 + 0x100 * (u / 0x100_0000);
    assert Unsigned(b) == u;
  }

  // ---------------------------------------------------------------------------
  // The lookup

  /** `IsSupported`: the host runs Windows. */
  predicate IsSupported(host: Host) {
    host.isWindows
  }

  /** The outcome of `Lookup`: its result and the I/O it performs. */
  datatype WinStep = WinStep(result: Result<PhysicalAddress>, events: seq<IoEvent>)

  /** The buffer `Lookup` hands to the native call: six zero bytes. */
  const ZeroBuffer: seq<Byte> := [0, 0, 0, 0, 0, 0]

  /** `Lookup(ip)` on a host where `isWindows` holds or not, with `sendArp` as the native call. */
  function LookupStep(isWindows: bool, sendArp: (Int32, Int32, nat) -> NativeReply, ip: Option<IPAddress>): (s: WinStep)
    ensures |s.events| <= 1
    ensures s.result.Ok? ==> |s.result.value.bytes| == 6
  {
    match ip
    case None => WinStep(Err(ArgumentNull), [])
    case Some(address) =>
      if !isWindows then WinStep(Err(PlatformNotSupported), [])
      else
        var destIp := ToInt32LittleEndian(address.addressBytes);
        var reply := sendArp(destIp, 0, |ZeroBuffer|);
        var events := [SendArpCalled(destIp, 0, |ZeroBuffer|)];
        if reply.status == 0 then WinStep(Ok(PhysicalAddress(Filled(ZeroBuffer, reply.written, |ZeroBuffer|))), events)
        else WinStep(Err(Win32(reply.status)), events)
  }

  /** A null address is an ArgumentNullException, on any platform and before any I/O. */
  lemma NullFirst(isWindows: bool, sendArp: (Int32, Int32, nat) -> NativeReply)
    ensures LookupStep(isWindows, sendArp, None) == WinStep(Err(ArgumentNull), [])
  {
  }

  /** Off Windows, an address is a PlatformNotSupportedException, and the native call is never made. */
  lemma NotWindows(sendArp: (Int32, Int32, nat) -> NativeReply, address: IPAddress)
    ensures LookupStep(false, sendArp, Some(address)) == WinStep(Err(PlatformNotSupported), [])
  {
  }

  /** On Windows there is exactly one native call: to the packed address, from
      source address 0, with a buffer length of 6; the first address byte is its
      least significant byte, and the address can be read back from it. */
  lemma OneNativeCall(sendArp: (Int32, Int32, nat) -> NativeReply, address: IPAddress)
    ensures var s := LookupStep(true, sendArp, Some(address));
      |s.events| == 1 && s.events[0].SendArpCalled? &&
      s.events[0].srcIp == 0 && s.events[0].len == 6 &&
      s.events[0].destIp % 256 == address.addressBytes[0] &&
      Int32Bytes(s.events[0].destIp) == address.addressBytes
  {
    BytesOfPacked(address.addressBytes);
  }

  /** Status 0 gives the hardware address over exactly the six buffer bytes
      after the call: what the call wrote, and zero where it wrote nothing. */
  lemma StatusZero(sendArp: (Int32, Int32, nat) -> NativeReply, address: IPAddress)
    requires sendArp(ToInt32LittleEndian(address.addressBytes), 0, 6).status == 0
    ensures var s := LookupStep(true, sendArp, Some(address));
      var written := sendArp(ToInt32LittleEndian(address.addressBytes), 0, 6).written;
      s.result.Ok? && |s.result.value.bytes| == 6 &&
      forall i :: 0 <= i < 6 ==> s.result.value.bytes[i] == if i < |written| then written[i] else 0
  {
  }

  /** Any other status is a Win32Exception carrying that status; this path never returns an address. */
  lemma StatusNonZero(sendArp: (Int32, Int32, nat) -> NativeReply, address: IPAddress)
    requires sendArp(ToInt32LittleEndian(address.addressBytes), 0, 6).status != 0
    ensures LookupStep(true, sendArp, Some(address)).result ==
            Err(Win32(sendArp(ToInt32LittleEndian(address.addressBytes), 0, 6).status))
  {
  }

  /** 192.168.0.1 packs to a positive integer, 10.0.0.200 to a negative one. */
  lemma PackingExamples()
    ensures ToInt32LittleEndian([192, 168, 0, 1]) == 0x0100_A8C0
    ensures ToInt32LittleEndian([10, 0, 0, 200]) == -939524086
  {
  }

  /** `Lookup`: the null check, the platform check, then the native call on a fresh zeroed buffer. */
  method Lookup(host: Host, ip: Option<IPAddress>) returns (r: Result<PhysicalAddress>)
    modifies host
    ensures var s := LookupStep(host.isWindows, host.sendArp, ip);
      r == s.result && host.trace == old(host.trace) + s.events && host.arpTable == old(host.arpTable)
  {
    if ip.None? {
      return Err(ArgumentNull);
    }
    if !IsSupported(host) {
      return Err(PlatformNotSupported);
    }
    var destIp := ToInt32LittleEndian(ip.value.addressBytes);
    var addr := new Byte[6](_ => 0);
    var len := addr.Length;
    assert addr[..] == ZeroBuffer;
    var res := host.SendArp(destIp, 0, addr, len);
    if res == 0 {
      return Ok(PhysicalAddress(addr[..]));
    }
    return Err(Win32(res));
  }
}
