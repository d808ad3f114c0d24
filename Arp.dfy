/** The public entry point `Arp`: which strategy a lookup uses (Windows first,
    then Linux with a probe on a miss), and the settable Linux ping timeout. */
module ArpLookup {
  import opened Net
  import opened Os
  import Windows = WindowsLookupService
  import Linux = LinuxLookupService

  /** `IsSupported`: either strategy can be used on the host. */
  predicate IsSupported(host: Host) {
    Windows.IsSupported(host) || Linux.IsSupported(host)
  }

  /** The default of `LinuxPingTimeout`, in milliseconds. */
  const DefaultLinuxPingTimeoutMs: nat := 750

  /** `Lookup(ip)` on a host where Windows, resp. the Linux strategy, is supported
      or not: its result, its I/O, and the arp table afterwards. A MAC found on
      Windows is returned as the (non-null) result. */
  function LookupStep(isWindows: bool, linuxSupported: bool, sendArp: (Int32, Int32, nat) -> NativeReply,
                      probe: (IPAddress, nat, seq<string>) -> ProbeEffect,
                      table: seq<string>, ip: Option<IPAddress>, timeoutMs: nat): (s: Linux.Step)
    ensures ip.None? ==> s.result.Err?
  {
    Linux.NullNeverFound(table);
    if isWindows then
      var w := Windows.LookupStep(true, sendArp, ip);
      Linux.Step(match w.result case Ok(mac) => Ok(Some(mac)) case Err(e) => Err(e), w.events, table)
    else if linuxSupported then
      var first := Linux.TryReadStep(true, table, ip);
      if first.result != Ok(None) then first
      else
        var second := Linux.PingThenTryReadStep(true, probe, table, ip, timeoutMs);
        Linux.Step(second.result, first.events + second.events, second.tableAfter)
    else Linux.Step(Err(PlatformNotSupported), [], table)
  }

  /** How many table reads, and how many pings, a sequence of I/O steps holds. */
  function Reads(events: seq<IoEvent>): (n: nat)
    ensures n <= |events|
  {
    if |events| == 0 then 0 else (if events[0].TableRead? then 1 else 0) + Reads(events[1..])
  }

  function Pings(events: seq<IoEvent>): (n: nat)
    ensures n <= |events|
  {
    if |events| == 0 then 0 else (if events[0].PingSent? then 1 else 0) + Pings(events[1..])
  }

  /** The counts of a sequence of steps are the sums of the counts of its parts. */
  lemma {:induction false} CountsAppend(a: seq<IoEvent>, b: seq<IoEvent>)
    ensures Reads(a + b) == Reads(a) + Reads(b)
    ensures Pings(a + b) == Pings(a) + Pings(b)
    decreases |a|
  {
    if |a| > 0 {
      CountsAppend(a[1..], b);
      assert (a + b)[1..] == a[1..] + b;
    } else {
      assert a + b == b;
    }
  }

  /** One step counts as itself. */
  lemma CountsOne(e: IoEvent)
    ensures Reads([e]) == (if e.TableRead? then 1 else 0)
    ensures Pings([e]) == (if e.PingSent? then 1 else 0)
  {
    assert [e][1..] == [];
  }

  /** On Windows the result is exactly that of the Windows lookup, and the Linux
      strategy is never consulted: no table read, no ping, the table unchanged. */
  lemma WindowsFirst(linuxSupported: bool, sendArp: (Int32, Int32, nat) -> NativeReply,
                     probe: (IPAddress, nat, seq<string>) -> ProbeEffect,
                     table: seq<string>, ip: Option<IPAddress>, timeoutMs: nat)
    ensures var s := LookupStep(true, linuxSupported, sendArp, probe, table, ip, timeoutMs);
      var w := Windows.LookupStep(true, sendArp, ip);
      (w.result.Ok? <==> s.result.Ok?) &&
      (w.result.Ok? ==> s.result.value == Some(w.result.value)) &&
      (w.result.Err? ==> s.result.error == w.result.error) &&
      s.events == w.events && Reads(s.events) == 0 && Pings(s.events) == 0 && s.tableAfter == table
  {
    var w := Windows.LookupStep(true, sendArp, ip);
    if ip.Some? {
      Windows.OneNativeCall(sendArp, ip.value);
      assert w.events[1..] == [];
    }
  }

  /** On Linux, a hit on the first read is returned with no ping. */
  lemma LinuxHit(sendArp: (Int32, Int32, nat) -> NativeReply, probe: (IPAddress, nat, seq<string>) -> ProbeEffect,
                 table: seq<string>, ip: Option<IPAddress>, timeoutMs: nat, mac: PhysicalAddress)
    requires Linux.ProcNetArp(table, ip) == Ok(Some(mac))
    ensures LookupStep(false, true, sendArp, probe, table, ip, timeoutMs) == Linux.Step(Ok(Some(mac)), [TableRead], table)
  {
  }

  /** On Linux, an exception from the first read propagates, with no ping. */
  lemma LinuxReadFails(sendArp: (Int32, Int32, nat) -> NativeReply, probe: (IPAddress, nat, seq<string>) -> ProbeEffect,
                       table: seq<string>, ip: Option<IPAddress>, timeoutMs: nat)
    requires Linux.ProcNetArp(table, ip).Err?
    ensures LookupStep(false, true, sendArp, probe, table, ip, timeoutMs) ==
            Linux.Step(Err(PlatformNotSupported), [TableRead], table)
  {
  }

  /** On a Linux miss, exactly one ping with the configured timeout follows the
      first read, and its outcome, null included, is the result: an exception it
      raises (its own null and `IPAddress.Any` checks included), or the outcome
      of one more read of the table as the ping left it. */
  lemma LinuxMiss(sendArp: (Int32, Int32, nat) -> NativeReply, probe: (IPAddress, nat, seq<string>) -> ProbeEffect,
                  table: seq<string>, ip: Option<IPAddress>, timeoutMs: nat)
    requires Linux.ProcNetArp(table, ip) == Ok(None)
    ensures var s := LookupStep(false, true, sendArp, probe, table, ip, timeoutMs);
      var effect := PingOutcome(probe, ip, timeoutMs, table);
      s.tableAfter == effect.tableAfter &&
      (effect.raised.Some? ==> s.result == Err(effect.raised.value) && s.events == [TableRead, PingSent(ip, timeoutMs)]) &&
      (effect.raised.None? ==>
         s.result == Linux.ProcNetArp(effect.tableAfter, ip) &&
         s.events == [TableRead, PingSent(ip, timeoutMs), TableRead])
  {
    Linux.PingThenTryReadSequence(true, probe, table, ip, timeoutMs);
  }

  /** A null address is never looked up: on Windows it is an
      ArgumentNullException before any I/O; on Linux the first read cannot find
      it, so either that read throws PlatformNotSupportedException or the ping
      throws ArgumentNullException, with the table untouched; with neither
      strategy it is a PlatformNotSupportedException. */
  lemma NullLookup(isWindows: bool, linuxSupported: bool, sendArp: (Int32, Int32, nat) -> NativeReply,
                   probe: (IPAddress, nat, seq<string>) -> ProbeEffect, table: seq<string>, timeoutMs: nat)
    ensures var s := LookupStep(isWindows, linuxSupported, sendArp, probe, table, None, timeoutMs);
      s.tableAfter == table &&
      (isWindows ==> s.result == Err(ArgumentNull) && s.events == []) &&
      (!isWindows && linuxSupported ==>
         if Linux.ProcNetArp(table, None).Err? then s.result == Err(PlatformNotSupported) && s.events == [TableRead]
         else s.result == Err(ArgumentNull) && s.events == [TableRead, PingSent(None, timeoutMs)]) &&
      (!isWindows && !linuxSupported ==> s.result == Err(PlatformNotSupported))
  {
    Linux.NullNeverFound(table);
  }

  /** With neither strategy supported, the lookup throws PlatformNotSupportedException, whatever the input, with no I/O. */
  lemma Unsupported(sendArp: (Int32, Int32, nat) -> NativeReply, probe: (IPAddress, nat, seq<string>) -> ProbeEffect,
                    table: seq<string>, ip: Option<IPAddress>, timeoutMs: nat)
    ensures LookupStep(false, false, sendArp, probe, table, ip, timeoutMs) == Linux.Step(Err(PlatformNotSupported), [], table)
  {
  }

  /** A host that supports neither strategy gets PlatformNotSupportedException
      with no I/O; a supported host always hands a non-null address to one of them. */
  lemma SupportDecides(host: Host, table: seq<string>, ip: Option<IPAddress>, timeoutMs: nat)
    ensures var s := LookupStep(host.isWindows, Linux.IsSupported(host), host.sendArp, host.probe, table, ip, timeoutMs);
      (!IsSupported(host) ==> s == Linux.Step(Err(PlatformNotSupported), [], table)) &&
      (IsSupported(host) && ip.Some? ==> |s.events| >= 1)
  {
    if host.isWindows && ip.Some? {
      Windows.OneNativeCall(host.sendArp, ip.value);
    }
  }

  /** Every lookup pings at most once and reads the table at most twice; only a
      miss on the first read leads to the ping. */
  lemma AtMostOneProbe(isWindows: bool, linuxSupported: bool, sendArp: (Int32, Int32, nat) -> NativeReply,
                       probe: (IPAddress, nat, seq<string>) -> ProbeEffect,
                       table: seq<string>, ip: Option<IPAddress>, timeoutMs: nat)
    ensures var s := LookupStep(isWindows, linuxSupported, sendArp, probe, table, ip, timeoutMs);
      Pings(s.events) <= 1 && Reads(s.events) <= 2 &&
      (Pings(s.events) == 1 ==> !isWindows && linuxSupported && Linux.ProcNetArp(table, ip) == Ok(None))
  {
    if isWindows {
      WindowsFirst(linuxSupported, sendArp, probe, table, ip, timeoutMs);
    } else if linuxSupported {
      var s := LookupStep(isWindows, linuxSupported, sendArp, probe, table, ip, timeoutMs);
      if Linux.ProcNetArp(table, ip) == Ok(None) {
        LinuxMiss(sendArp, probe, table, ip, timeoutMs);
        var ping := PingSent(ip, timeoutMs);
        CountsOne(TableRead);
        CountsOne(ping);
        CountsAppend([TableRead], [ping]);
        CountsAppend([TableRead, ping], [TableRead]);
        assert [TableRead] + [ping] == [TableRead, ping];
        assert [TableRead, ping] + [TableRead] == [TableRead, ping, TableRead];
      } else {
        assert s.events == [TableRead];
        assert s.events[1..] == [];
      }
    }
  }

  /** The library's static state: the Linux ping timeout. */
  class Arp {
    /** `LinuxPingTimeout`, as a whole number of milliseconds. */
    var linuxPingTimeoutMs: nat

    constructor()
      ensures linuxPingTimeoutMs == DefaultLinuxPingTimeoutMs
    {
      linuxPingTimeoutMs := DefaultLinuxPingTimeoutMs;
    }

    /** The setter of `LinuxPingTimeout`: the getter reads back what was set last. */
    method SetLinuxPingTimeout(ms: nat)
      modifies this
      ensures linuxPingTimeoutMs == ms
    {
      linuxPingTimeoutMs := ms;
    }

    /** `Lookup`: Windows first; on Linux one read, and on a miss one ping and one more read. */
    method Lookup(host: Host, ip: Option<IPAddress>) returns (r: Result<Option<PhysicalAddress>>)
      modifies host
      ensures var s := LookupStep(host.isWindows, Linux.IsSupported(host), host.sendArp, host.probe,
                                  old(host.arpTable), ip, linuxPingTimeoutMs);
        r == s.result && host.trace == old(host.trace) + s.events && host.arpTable == s.tableAfter
    {
      if Windows.IsSupported(host) {
        var mac := Windows.Lookup(host, ip);
        match mac {
          case Ok(found) => return Ok(Some(found));
          case Err(e) => return Err(e);
        }
      }
      if Linux.IsSupported(host) {
        var mac := Linux.TryReadFromArpTable(host, ip);
        if mac != Ok(None) {
          return mac;
        }
        r := Linux.PingThenTryReadFromArpTable(host, ip, linuxPingTimeoutMs);
        return;
      }
      return Err(PlatformNotSupported);
    }

    /** `LookupAsync`: the same steps through the asynchronous Linux entry points. */
    method LookupAsync(host: Host, ip: Option<IPAddress>) returns (r: Result<Option<PhysicalAddress>>)
      modifies host
      ensures var s := LookupStep(host.isWindows, Linux.IsSupported(host), host.sendArp, host.probe,
                                  old(host.arpTable), ip, linuxPingTimeoutMs);
        r == s.result && host.trace == old(host.trace) + s.events && host.arpTable == s.tableAfter
    {
      if Windows.IsSupported(host) {
        var mac := Windows.Lookup(host, ip);
        match mac {
          case Ok(found) => return Ok(Some(found));
          case Err(e) => return Err(e);
        }
      }
      if Linux.IsSupported(host) {
        var mac := Linux.TryReadFromArpTableAsync(host, ip);
        if mac != Ok(None) {
          return mac;
        }
        r := Linux.PingThenTryReadFromArpTableAsync(host, ip, linuxPingTimeoutMs);
        return;
      }
      return Err(PlatformNotSupported);
    }
  }
}
