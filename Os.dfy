/** What the operating system gives the library: which platform it runs on,
    whether /proc/net/arp exists, the current contents of that table, the
    IpHlpApi `SendARP` call and an ICMP ping. Each is an input of the model:
    the native call and the ping of a valid address are fixed functions of
    their arguments (and, for the ping, of the table), and every I/O step is
    recorded in a ghost trace. */
module Os {
  import opened Net

  /** What `SendARP` answers: its status and the bytes it writes into the caller's buffer. */
  datatype NativeReply = NativeReply(status: Int32, written: seq<Byte>)

  /** What a ping does: the exception `Ping.Send` raises, if any (typically `PingFailed`,
      a PingException), and the arp table afterwards (the ping may make the kernel
      learn the neighbour). Its reply is never looked at. */
  datatype ProbeEffect = ProbeEffect(raised: Option<Error>, tableAfter: seq<string>)

  /** One I/O step the library takes. */
  datatype IoEvent =
    | TableRead
    | PingSent(ip: Option<IPAddress>, timeoutMs: nat)
    | SendArpCalled(destIp: Int32, srcIp: Int32, len: nat)

  /** `buf` after the native call has written `written` into it, at most `len` bytes from the start. */
  function Filled(buf: seq<Byte>, written: seq<Byte>, len: nat): (r: seq<Byte>)
    ensures |r| == |buf|
    ensures forall i :: 0 <= i < |r| ==> r[i] == if i < |written| && i < len then written[i] else buf[i]
  {
    seq(|buf|, i requires 0 <= i < |buf| => if i < |written| && i < len then written[i] else buf[i])
  }

  /** `Ping.Send(ip, timeoutMs)`: its own argument checks come first (a null
      address is an ArgumentNullException, `IPAddress.Any` an ArgumentException,
      and neither sends anything); any other address goes to the network, which
      `probe` stands for. */
  function PingOutcome(probe: (IPAddress, nat, seq<string>) -> ProbeEffect,
                       ip: Option<IPAddress>, timeoutMs: nat, table: seq<string>): ProbeEffect
  {
    match ip
    case None => ProbeEffect(Some(ArgumentNull), table)
    case Some(address) =>
      if address == AnyAddress then ProbeEffect(Some(Argument), table)
      else probe(address, timeoutMs, table)
  }

  class Host {
    const isWindows: bool
    const isLinux: bool
    const arpFileExists: bool
    const sendArp: (Int32, Int32, nat) -> NativeReply
    const probe: (IPAddress, nat, seq<string>) -> ProbeEffect
    /** The lines of /proc/net/arp, header line first. */
    var arpTable: seq<string>
    ghost var trace: seq<IoEvent>

    constructor(isWindows: bool, isLinux: bool, arpFileExists: bool, sendArp: (Int32, Int32, nat) -> NativeReply,
                probe: (IPAddress, nat, seq<string>) -> ProbeEffect, arpTable: seq<string>)
      ensures this.isWindows == isWindows && this.isLinux == isLinux && this.arpFileExists == arpFileExists
      ensures this.sendArp == sendArp && this.probe == probe
      ensures this.arpTable == arpTable && trace == []
    {
      this.isWindows := isWindows;
      this.isLinux := isLinux;
      this.arpFileExists := arpFileExists;
      this.sendArp := sendArp;
      this.probe := probe;
      this.arpTable := arpTable;
      trace := [];
    }

    /** Opening /proc/net/arp and reading its lines. */
    method ReadArpTable() returns (lines: seq<string>)
      modifies this
      ensures lines == arpTable && arpTable == old(arpTable)
      ensures trace == old(trace) + [TableRead]
    {
      lines := arpTable;
      trace := trace + [TableRead];
    }

    /** `Ping.Send(ip, timeoutMs)`: the reply is dropped; the table may change meanwhile. */
    method Ping(ip: Option<IPAddress>, timeoutMs: nat) returns (raised: Option<Error>)
      modifies this
      ensures raised == PingOutcome(probe, ip, timeoutMs, old(arpTable)).raised
      ensures arpTable == PingOutcome(probe, ip, timeoutMs, old(arpTable)).tableAfter
      ensures trace == old(trace) + [PingSent(ip, timeoutMs)]
    {
      if ip.None? {
        raised := Some(ArgumentNull);
      } else if ip.value == AnyAddress {
        raised := Some(Argument);
      } else {
        var effect := probe(ip.value, timeoutMs, arpTable);
        raised := effect.raised;
        arpTable := effect.tableAfter;
      }
      trace := trace + [PingSent(ip, timeoutMs)];
    }

    /** `SendARP(destIp, srcIp, buffer, ref len)`: the native call fills the buffer in place. */
    method SendArp(destIp: Int32, srcIp: Int32, buffer: array<Byte>, len: nat) returns (status: Int32)
      modifies this, buffer
      ensures status == sendArp(destIp, srcIp, len).status
      ensures buffer[..] == Filled(old(buffer[..]), sendArp(destIp, srcIp, len).written, len)
      ensures arpTable == old(arpTable)
      ensures trace == old(trace) + [SendArpCalled(destIp, srcIp, len)]
    {
      var reply := sendArp(destIp, srcIp, len);
      forall i | 0 <= i < buffer.Length && i < |reply.written| && i < len {
        buffer[i] := reply.written[i];
      }
      status := reply.status;
      trace := trace + [SendArpCalled(destIp, srcIp, len)];
    }
  }
}
