/** Value types shared by the whole model: bytes, IPv4 and hardware addresses,
    and the outcomes of the library's operations (a value, or the exception it throws). */
module Net {

  type Byte = x: int | 0 <= x < 256

  /** A signed 32-bit integer, as the Win32 API and `BitConverter.ToInt32` use. */
  type Int32 = x: int | -0x8000_0000 <= x < 0x8000_0000

  /** The four address bytes of an IPv4 address in network order, as `IPAddress.GetAddressBytes` gives them. */
  type Octets4 = s: seq<Byte> | |s| == 4 witness [0, 0, 0, 0]

  /** An IPv4 `IPAddress`; `IPAddress.Equals` on two IPv4 addresses is equality of the octets. */
  datatype IPAddress = IPAddress(addressBytes: Octets4)

  /** `IPAddress.Any`, 0.0.0.0. */
  const AnyAddress: IPAddress := IPAddress([0, 0, 0, 0])

  /** A `PhysicalAddress`: the hardware address bytes it was built from. */
  datatype PhysicalAddress = PhysicalAddress(bytes: seq<Byte>)

  /** A reference that may be null. */
  datatype Option<+T> = None | Some(value: T)

  /** The exceptions the core throws or lets through. */
  datatype Error =
    | ArgumentNull            // ArgumentNullException
    | Argument                // ArgumentException
    | PlatformNotSupported    // PlatformNotSupportedException
    | Format                  // FormatException
    | Win32(code: int)        // Win32Exception carrying the native status
    | PingFailed              // an exception raised by Ping.Send (PingException and the like)

  /** Either the value a call returns or the exception it throws. */
  datatype Result<+T> = Ok(value: T) | Err(error: Error)
}
