/** ARP lookups on Linux: scan /proc/net/arp for the row of the address asked
    for. The header line is skipped; rows are taken in file order; a blank line
    ends the scan with "not found"; a row the pattern rejects, or whose IP does
    not parse, makes the whole lookup throw PlatformNotSupportedException. */
module LinuxLookupService {
  import opened Net
  import opened Extensions
  import opened RowPattern
  import opened IPv4Text
  import opened Os

  // ---------------------------------------------------------------------------
  // One row

  /** `ParseIfMatch`: a row the pattern rejects is a FormatException; so is an IP
      group `IPAddress.Parse` rejects. A row for another address gives null;
      the row for `ip` gives its parsed MAC. A null `ip` equals no address. */
  function ParseIfMatch(line: string, ip: Option<IPAddress>): (r: Result<Option<PhysicalAddress>>)
    ensures r.Err? ==> r.error == Format
  {
    match MatchRow(line)
    case None => Err(Format)
    case Some(m) =>
      match ParseIPv4(m.ipText)
      case Err(e) => Err(e)
      case Ok(tableIp) =>
        if Some(tableIp) != ip then Ok(None)
        else
          match ParseMacAddress(Some(m.macText))
          case Err(e) => Err(e)
          case Ok(mac) => Ok(Some(mac))
  }

  /** For a row the pattern matches with groups `ipText` and `macText`, the
      outcome depends only on those groups: an unparsable IP is a
      FormatException, another address is null, and the queried address gives
      the six octets the MAC group spells. */
  lemma ParseIfMatchRow(line: string, ipText: string, macText: string, ip: Option<IPAddress>)
    requires MatchesRowPattern(line, ipText, macText)
    ensures ParseIfMatch(line, ip) ==
            match ParseIPv4(ipText)
            case Err(_) => Err(Format)
            case Ok(tableIp) =>
              if Some(tableIp) == ip then Ok(Some(PhysicalAddress(MacOctets(macText)))) else Ok(None)
  {
    MatchRowExact(line, ipText, macText);
  }

  /** A row is a FormatException exactly when no reading of it by the pattern
      has an IP group that parses (in particular when the pattern rejects it). */
  lemma ParseIfMatchFails(line: string, ip: Option<IPAddress>)
    ensures ParseIfMatch(line, ip).Err? <==>
            forall ipText, macText :: MatchesRowPattern(line, ipText, macText) ==> ParseIPv4(ipText).Err?
  {
    ParseIfMatchErr(line, ip);
    match MatchRow(line)
    case None =>
      forall ipText, macText ensures !MatchesRowPattern(line, ipText, macText) {
        MatchRowExact(line, ipText, macText);
      }
    case Some(m) =>
      MatchRowExact(line, m.ipText, m.macText);
      forall ipText, macText | MatchesRowPattern(line, ipText, macText)
        ensures ipText == m.ipText
      {
        MatchRowExact(line, ipText, macText);
      }
  }

  lemma ParseIfMatchErr(line: string, ip: Option<IPAddress>)
    ensures ParseIfMatch(line, ip).Err? <==> MatchRow(line).None? || ParseIPv4(MatchRow(line).value.ipText).Err?
  {
  }

  /** The IP group of a matched row, its four digit groups joined by dots
      as `IsDottedQuad` spells it, parses exactly when each group is at most
      255, and then gives those four values. */
  lemma DottedQuadParse(a: string, b: string, c: string, d: string)
    requires IsDecGroup(a) && IsDecGroup(b) && IsDecGroup(c) && IsDecGroup(d)
    ensures var r := ParseIPv4(a + "." + b + "." + c + "." + d);
      (r.Ok? <==> DecimalValue(a) <= 255 && DecimalValue(b) <= 255 && DecimalValue(c) <= 255 &&
                  DecimalValue(d) <= 255) &&
      (r.Ok? ==> r.value.addressBytes == [DecimalValue(a), DecimalValue(b), DecimalValue(c), DecimalValue(d)])
  {
    JoinedQuadParse(a, b, c, d);
    JoinFour(a, b, c, d);
  }

  /** The same, with the four groups joined by `JoinDots`. */
  lemma JoinedQuadParse(a: string, b: string, c: string, d: string)
    requires IsDecGroup(a) && IsDecGroup(b) && IsDecGroup(c) && IsDecGroup(d)
    ensures var r := ParseIPv4(JoinDots([a, b, c, d]));
      (r.Ok? <==> DecimalValue(a) <= 255 && DecimalValue(b) <= 255 && DecimalValue(c) <= 255 &&
                  DecimalValue(d) <= 255) &&
      (r.Ok? ==> r.value.addressBytes == [DecimalValue(a), DecimalValue(b), DecimalValue(c), DecimalValue(d)])
  {
    DecGroupField(a);
    DecGroupField(b);
    DecGroupField(c);
    DecGroupField(d);
    ParseFour(a, b, c, d);
  }

  lemma DecGroupField(g: string)
    requires IsDecGroup(g)
    ensures NoDot(g) && IsDecimalField(g) && (IsOctetField(g) <==> DecimalValue(g) <= 255)
  {
  }

  // ---------------------------------------------------------------------------
  // The scan

  /** `string.IsNullOrWhiteSpace` on a line that was read (so not null). */
  predicate IsBlank(line: string) {
    forall j :: 0 <= j < |line| ==> IsWhiteSpace(line[j])
  }

  /** What one row yields: a FormatException, null, or a MAC. */
  type RowParser = string -> Result<Option<PhysicalAddress>>

  /** The loop of `ParseProcNetArp` over the rows after the header, in order,
      with `parse` for the treatment of one row: stop with null at the end or at
      a blank line; a FormatException from a row becomes
      PlatformNotSupportedException and any other exception propagates; the
      first row that yields a MAC ends the scan with it. */
  function Scan(rows: seq<string>, parse: RowParser): (r: Result<Option<PhysicalAddress>>)
    ensures r != Err(Format)
    ensures r.Err? ==> r.error == PlatformNotSupported || exists k :: 0 <= k < |rows| && parse(rows[k]) == r
    decreases |rows|
  {
    if |rows| == 0 then Ok(None)
    else if IsBlank(rows[0]) then Ok(None)
    else
      match parse(rows[0])
      case Err(Format) => Err(PlatformNotSupported)
      case Err(e) => Err(e)
      case Ok(Some(mac)) => Ok(Some(mac))
      case Ok(None) => Scan(rows[1..], parse)
  }

  /** A row the scan passes over: not blank, and for another address. */
  predicate Passes(row: string, parse: RowParser) {
    !IsBlank(row) && parse(row) == Ok(None)
  }

  predicate AllPass(rows: seq<string>, parse: RowParser) {
    forall k :: 0 <= k < |rows| ==> Passes(rows[k], parse)
  }

  /** Rows the scan passes over do not change its outcome. */
  lemma {:induction false} PassedRows(pre: seq<string>, post: seq<string>, parse: RowParser)
    requires AllPass(pre, parse)
    ensures Scan(pre + post, parse) == Scan(post, parse)
    decreases |pre|
  {
    if |pre| > 0 {
      assert (pre + post)[0] == pre[0];
      assert Passes(pre[0], parse);
      assert (pre + post)[1..] == pre[1..] + post;
      assert AllPass(pre[1..], parse) by {
        forall k | 0 <= k < |pre[1..]| ensures Passes(pre[1..][k], parse) {
          assert pre[1..][k] == pre[k + 1];
        }
      }
      PassedRows(pre[1..], post, parse);
      assert Scan(pre + post, parse) == Scan((pre + post)[1..], parse);
    } else {
      assert pre + post == post;
    }
  }

  /** A MAC found by the scan comes from the first row that is not passed over. */
  lemma {:induction false} FoundAtFirstStop(rows: seq<string>, parse: RowParser, mac: PhysicalAddress)
    requires Scan(rows, parse) == Ok(Some(mac))
    ensures exists k :: 0 <= k < |rows| && AllPass(rows[..k], parse) && parse(rows[k]) == Ok(Some(mac))
    decreases |rows|
  {
    if parse(rows[0]) == Ok(Some(mac)) {
      assert AllPass(rows[..0], parse);
    } else {
      FoundAtFirstStop(rows[1..], parse, mac);
      var k :| 0 <= k < |rows[1..]| && AllPass(rows[1..][..k], parse) && parse(rows[1..][k]) == Ok(Some(mac));
      assert rows[..k + 1] == [rows[0]] + rows[1..][..k];
      assert AllPass(rows[..k + 1], parse) by {
        forall j | 0 <= j < k + 1 ensures Passes(rows[j], parse) {
          if j > 0 {
            assert rows[j] == rows[1..][..k][j - 1];
          }
        }
      }
      assert parse(rows[k + 1]) == Ok(Some(mac));
    }
  }

  /** `ParseIfMatch` against `ip`, as the row treatment of the scan. */
  function RowParse(ip: Option<IPAddress>): RowParser {
    line => ParseIfMatch(line, ip)
  }

  /** The scan of `ParseProcNetArp` for `ip`. Since a row only ever fails with
      a FormatException, the only exception it throws is
      PlatformNotSupportedException. */
  function ScanRows(rows: seq<string>, ip: Option<IPAddress>): (r: Result<Option<PhysicalAddress>>)
    ensures r.Err? ==> r.error == PlatformNotSupported
  {
    Scan(rows, RowParse(ip))
  }

  /** `ParseProcNetArp` on the lines of the file: the first line is the header. */
  function ProcNetArp(lines: seq<string>, ip: Option<IPAddress>): (r: Result<Option<PhysicalAddress>>)
    ensures r.Err? ==> r.error == PlatformNotSupported
    ensures |lines| <= 1 ==> r == Ok(None)
  {
    ScanRows(if |lines| == 0 then [] else lines[1..], ip)
  }

  /** A row the scan for `ip` passes over. */
  predicate Skipped(row: string, ip: Option<IPAddress>) {
    Passes(row, RowParse(ip))
  }

  predicate AllSkipped(rows: seq<string>, ip: Option<IPAddress>) {
    AllPass(rows, RowParse(ip))
  }

  /** Rows for other addresses do not change the outcome of the scan. */
  lemma SkippedRows(pre: seq<string>, post: seq<string>, ip: Option<IPAddress>)
    requires AllSkipped(pre, ip)
    ensures ScanRows(pre + post, ip) == ScanRows(post, ip)
  {
    PassedRows(pre, post, RowParse(ip));
  }

  /** The first line is never looked at, whatever it holds. */
  lemma HeaderIgnored(header: string, other: string, rows: seq<string>, ip: Option<IPAddress>)
    ensures ProcNetArp([header] + rows, ip) == ScanRows(rows, ip)
    ensures ProcNetArp([header] + rows, ip) == ProcNetArp([other] + rows, ip)
  {
    assert ([header] + rows)[1..] == rows;
    assert ([other] + rows)[1..] == rows;
  }

  /** A blank line after rows for other addresses ends the scan with null,
      whatever follows it. */
  lemma BlankStops(pre: seq<string>, blank: string, post: seq<string>, ip: Option<IPAddress>)
    requires AllSkipped(pre, ip) && IsBlank(blank)
    ensures ScanRows(pre + [blank] + post, ip) == Ok(None)
  {
    assert pre + [blank] + post == pre + ([blank] + post);
    SkippedRows(pre, [blank] + post, ip);
  }

  /** The first row for `ip` gives its MAC: the octets its MAC group spells.
      No later line is looked at. */
  lemma FirstHit(pre: seq<string>, row: string, post: seq<string>, ip: Option<IPAddress>,
                 ipText: string, macText: string)
    requires AllSkipped(pre, ip) && MatchesRowPattern(row, ipText, macText)
    requires ParseIPv4(ipText).Ok? && ip == Some(ParseIPv4(ipText).value)
    ensures ScanRows(pre + [row] + post, ip) == Ok(Some(PhysicalAddress(MacOctets(macText))))
  {
    assert pre + [row] + post == pre + ([row] + post);
    SkippedRows(pre, [row] + post, ip);
    ParseIfMatchRow(row, ipText, macText, ip);
    MatchedNotBlank(row, ipText, macText);
  }

  /** A non-blank row the pattern rejects, before any hit, makes the scan throw
      PlatformNotSupportedException, never return null. */
  lemma MalformedRow(pre: seq<string>, row: string, post: seq<string>, ip: Option<IPAddress>)
    requires AllSkipped(pre, ip) && !IsBlank(row) && MatchRow(row).None?
    ensures ScanRows(pre + [row] + post, ip) == Err(PlatformNotSupported)
  {
    assert pre + [row] + post == pre + ([row] + post);
    SkippedRows(pre, [row] + post, ip);
  }

  /** A row the pattern accepts but whose IP group does not parse, before any
      hit, also ends in PlatformNotSupportedException. */
  lemma UnparsableIp(pre: seq<string>, row: string, post: seq<string>, ip: Option<IPAddress>,
                     ipText: string, macText: string)
    requires AllSkipped(pre, ip) && MatchesRowPattern(row, ipText, macText) && ParseIPv4(ipText).Err?
    ensures ScanRows(pre + [row] + post, ip) == Err(PlatformNotSupported)
  {
    assert pre + [row] + post == pre + ([row] + post);
    SkippedRows(pre, [row] + post, ip);
    ParseIfMatchRow(row, ipText, macText, ip);
    MatchedNotBlank(row, ipText, macText);
  }

  /** A row for another address is passed over without error. */
  lemma OtherAddressSkipped(row: string, ipText: string, macText: string, ip: Option<IPAddress>)
    requires MatchesRowPattern(row, ipText, macText)
    requires ParseIPv4(ipText).Ok? && ip != Some(ParseIPv4(ipText).value)
    ensures Skipped(row, ip)
  {
    ParseIfMatchRow(row, ipText, macText, ip);
    MatchedNotBlank(row, ipText, macText);
  }

  /** Running out of rows, all for other addresses, gives null. */
  lemma Exhausted(rows: seq<string>, ip: Option<IPAddress>)
    requires AllSkipped(rows, ip)
    ensures ScanRows(rows, ip) == Ok(None)
  {
    assert rows + [] == rows;
    SkippedRows(rows, [], ip);
  }

  /** A MAC found by the scan comes from the first row that is not passed over,
      and that row is the one for `ip`. */
  lemma HitIsFirst(rows: seq<string>, ip: Option<IPAddress>, mac: PhysicalAddress)
    requires ScanRows(rows, ip) == Ok(Some(mac))
    ensures exists k :: 0 <= k < |rows| && AllSkipped(rows[..k], ip) && ParseIfMatch(rows[k], ip) == Ok(Some(mac))
  {
    FoundAtFirstStop(rows, RowParse(ip), mac);
    var k :| 0 <= k < |rows| && AllPass(rows[..k], RowParse(ip)) && RowParse(ip)(rows[k]) == Ok(Some(mac));
    assert ParseIfMatch(rows[k], ip) == Ok(Some(mac));
  }

  /** A matched row starts with a digit, so it is not blank. */
  lemma MatchedNotBlank(row: string, ipText: string, macText: string)
    requires MatchesRowPattern(row, ipText, macText)
    ensures !IsBlank(row)
  {
    MatchRowExact(row, ipText, macText);
    assert RunLength(row, 0, Digit) >= 1;
  }

  // ---------------------------------------------------------------------------
  // The scan loop

  /** `ParseProcNetArp`: read the header, then rows until the end of the stream. */
  method ParseProcNetArp(lines: seq<string>, ip: Option<IPAddress>) returns (r: Result<Option<PhysicalAddress>>)
    ensures r == ProcNetArp(lines, ip)
  {
    if |lines| == 0 {
      return Ok(None);
    }
    var i := 1;
    while i < |lines|
      invariant 1 <= i <= |lines|
      invariant ScanRows(lines[i..], ip) == ProcNetArp(lines, ip)
      decreases |lines| - i
    {
      var line := lines[i];
      if IsBlank(line) {
        return Ok(None);
      }
      var mac := ParseIfMatch(line, ip);
      match mac {
        case Err(Format) => return Err(PlatformNotSupported);
        case Err(e) => return Err(e);
        case Ok(Some(found)) => return Ok(Some(found));
        case Ok(None) =>
      }
      assert lines[i..][1..] == lines[i + 1..];
      i := i + 1;
    }
    return Ok(None);
  }

  // ---------------------------------------------------------------------------
  // Entry points

  /** `IsSupported`: Linux, and /proc/net/arp exists. */
  predicate IsSupported(host: Host) {
    host.isLinux && host.arpFileExists
  }

  /** The outcome of an entry point: its result, the I/O it performs, and the arp table after it. */
  datatype Step = Step(result: Result<Option<PhysicalAddress>>, events: seq<IoEvent>, tableAfter: seq<string>)

  /** `TryReadFromArpTable`: the support check comes before any I/O; then one read and one scan. */
  function TryReadStep(supported: bool, table: seq<string>, ip: Option<IPAddress>): (s: Step)
    ensures s.tableAfter == table
    ensures !supported ==> s.result == Err(PlatformNotSupported) && s.events == []
    ensures supported ==> s.result == ProcNetArp(table, ip) && s.events == [TableRead]
  {
    if !supported then Step(Err(PlatformNotSupported), [], table)
    else Step(ProcNetArp(table, ip), [TableRead], table)
  }

  /** `PingThenTryReadFromArpTable`: the support check, one ping whose reply is
      dropped (an exception it raises propagates), then one more table read. */
  function PingThenTryReadStep(supported: bool, probe: (IPAddress, nat, seq<string>) -> ProbeEffect,
                               table: seq<string>, ip: Option<IPAddress>, timeoutMs: nat): (s: Step)
    ensures supported ==> |s.events| >= 1 && s.events[0] == PingSent(ip, timeoutMs)
  {
    if !supported then Step(Err(PlatformNotSupported), [], table)
    else
      var effect := PingOutcome(probe, ip, timeoutMs, table);
      if effect.raised.Some? then Step(Err(effect.raised.value), [PingSent(ip, timeoutMs)], effect.tableAfter)
      else
        var read := TryReadStep(true, effect.tableAfter, ip);
        Step(read.result, [PingSent(ip, timeoutMs)] + read.events, read.tableAfter)
  }

  /** Unsupported: PlatformNotSupportedException and no I/O at all. Supported:
      exactly one ping, to `ip` with the given timeout, and then, unless the
      ping raised, exactly one scan of the table as the ping left it. A null
      `ip` is an ArgumentNullException and `IPAddress.Any` an ArgumentException
      from the ping, with the table untouched; only another address reaches
      the network. */
  lemma PingThenTryReadSequence(supported: bool, probe: (IPAddress, nat, seq<string>) -> ProbeEffect,
                                table: seq<string>, ip: Option<IPAddress>, timeoutMs: nat)
    ensures var s := PingThenTryReadStep(supported, probe, table, ip, timeoutMs);
      var effect := PingOutcome(probe, ip, timeoutMs, table);
      (!supported ==> s.result == Err(PlatformNotSupported) && s.events == [] && s.tableAfter == table) &&
      (supported && effect.raised.Some? ==>
         s.result == Err(effect.raised.value) && s.events == [PingSent(ip, timeoutMs)]) &&
      (supported && effect.raised.None? ==>
         s.result == ProcNetArp(effect.tableAfter, ip) && s.events == [PingSent(ip, timeoutMs), TableRead]) &&
      s.tableAfter == (if supported then effect.tableAfter else table) &&
      (supported && ip.None? ==> s.result == Err(ArgumentNull) && s.tableAfter == table) &&
      (supported && ip == Some(AnyAddress) ==> s.result == Err(Argument) && s.tableAfter == table) &&
      (ip.Some? && ip.value != AnyAddress ==> effect == probe(ip.value, timeoutMs, table))
  {
  }

  /** No row is the row of a null address, so a scan for null never yields a MAC. */
  lemma NullNeverFound(lines: seq<string>)
    ensures ProcNetArp(lines, None).Ok? ==> ProcNetArp(lines, None).value.None?
  {
    var rows := if |lines| == 0 then [] else lines[1..];
    if ScanRows(rows, None).Ok? && ScanRows(rows, None).value.Some? {
      HitIsFirst(rows, None, ScanRows(rows, None).value.value);
      var k :| 0 <= k < |rows| && AllSkipped(rows[..k], None) && ParseIfMatch(rows[k], None).Ok? && ParseIfMatch(rows[k], None).value.Some?;
      NullRowNever(rows[k]);
    }
  }

  /** `ParseIfMatch` against null is never a MAC. */
  lemma NullRowNever(line: string)
    ensures !(ParseIfMatch(line, None).Ok? && ParseIfMatch(line, None).value.Some?)
  {
  }

  method TryReadFromArpTable(host: Host, ip: Option<IPAddress>) returns (r: Result<Option<PhysicalAddress>>)
    modifies host
    ensures var s := TryReadStep(IsSupported(host), old(host.arpTable), ip);
      r == s.result && host.trace == old(host.trace) + s.events && host.arpTable == s.tableAfter
  {
    if !IsSupported(host) {
      return Err(PlatformNotSupported);
    }
    var lines := host.ReadArpTable();
    r := ParseProcNetArp(lines, ip);
  }

  /** `TryReadFromArpTableAsync` performs the same steps as the synchronous read. */
  method TryReadFromArpTableAsync(host: Host, ip: Option<IPAddress>) returns (r: Result<Option<PhysicalAddress>>)
    modifies host
    ensures var s := TryReadStep(IsSupported(host), old(host.arpTable), ip);
      r == s.result && host.trace == old(host.trace) + s.events && host.arpTable == s.tableAfter
  {
    r := TryReadFromArpTable(host, ip);
  }

  method PingThenTryReadFromArpTable(host: Host, ip: Option<IPAddress>, timeoutMs: nat)
    returns (r: Result<Option<PhysicalAddress>>)
    modifies host
    ensures var s := PingThenTryReadStep(IsSupported(host), host.probe, old(host.arpTable), ip, timeoutMs);
      r == s.result && host.trace == old(host.trace) + s.events && host.arpTable == s.tableAfter
  {
    if !IsSupported(host) {
      return Err(PlatformNotSupported);
    }
    var raised := host.Ping(ip, timeoutMs);
    if raised.Some? {
      return Err(raised.value);
    }
    r := TryReadFromArpTable(host, ip);
  }

  /** `PingThenTryReadFromArpTableAsync` performs the same steps as the synchronous one. */
  method PingThenTryReadFromArpTableAsync(host: Host, ip: Option<IPAddress>, timeoutMs: nat)
    returns (r: Result<Option<PhysicalAddress>>)
    modifies host
    ensures var s := PingThenTryReadStep(IsSupported(host), host.probe, old(host.arpTable), ip, timeoutMs);
      r == s.result && host.trace == old(host.trace) + s.events && host.arpTable == s.tableAfter
  {
    r := PingThenTryReadFromArpTable(host, ip, timeoutMs);
  }
}
