# ArpLookup, modelled in Dafny

ArpLookup is a small .NET library that turns an IPv4 address into the MAC
(hardware) address the host's ARP cache holds for it. This project models its
decision logic and proves properties of it:

- **Linux** (`LinuxLookupService`): read `/proc/net/arp`, skip the header, and
  match each row against one fixed regular expression (a hand-written matcher,
  `RowPattern`). Parse the IP column with `IPAddress.Parse` (`IPv4Text`). The
  first row for the queried address gives its MAC. A blank line ends the scan
  with null. A malformed row turns into `PlatformNotSupportedException`.
  `PingThenTryReadFromArpTable` sends one ping, ignores the reply, and reads
  the table once more.
- **Windows** (`WindowsLookupService`): the null and platform checks. Pack the
  four address bytes into a little-endian `int`, call `SendARP` on a zeroed
  six-byte buffer with length 6, and interpret the status.
- **Dispatcher** (`ArpLookup`, class `Arp`):
  - Windows first.
  - Then Linux: one read, and on a miss one ping and one more read.
  - Otherwise `PlatformNotSupportedException`.
  - Holds the settable Linux ping timeout (default 750 ms).
- **MAC text** (`Extensions.ParseMacAddress`): `:` → `-`, invariant
  upper-casing, then `PhysicalAddress.Parse`.

The operating system is an input (`Os.Host`):
- the platform booleans and whether the arp file exists;
- the current table as a sequence of lines;
- `SendARP` as a function from its arguments to a status and the bytes it writes;
- the ping as a function from a valid address, the timeout and the table to the
  exception it raises (if any) and the table afterwards. `Ping.Send`'s own
  argument checks come before it: a null address is ArgumentNullException and
  `IPAddress.Any` is ArgumentException, with nothing sent.

Every I/O step is recorded in a ghost trace. That is how the proofs talk about
"no I/O before the platform check", "exactly one ping" and "at most two reads".

Results are `Result<T>`: `Ok(value)` or `Err(exception)`. A C# `null` is
`Option.None`, for both the returned MAC and the `ip` argument.

## Model

| member | source | states |
|---|---|---|
| Extensions.ParseMacAddress | src/ArpLookup/Extensions.cs:19-23 | Null input is ArgumentNullException. Otherwise the text is accepted exactly when it is six hex pairs joined by `:` or `-`, in any letter case. The address is then those six octets in order. Any other text is FormatException, never a partial address. The older copy, ArpLookup/Extensions.cs:11-15, is the same expression chain, so all the Extensions rows hold for it too. |
| Extensions.NormalizedParse | src/ArpLookup/Extensions.cs:21-22 | Parsing the replaced-and-upper-cased text succeeds exactly on MAC tokens and yields their hex pairs in order. Otherwise FormatException. |
| Extensions.NormalizedHex | src/ArpLookup/Extensions.cs:21 | Normalisation keeps the length, maps hex digits to upper-case hex digits of the same value, and maps exactly `:` and `-` to `-`. |
| Extensions.ParsePhysicalAddress | src/ArpLookup/Extensions.cs:22 | `PhysicalAddress.Parse` accepts exactly six upper-case hex pairs joined by `-`, giving six bytes. Anything else is FormatException. |
| Extensions.ToUpperInvariant | src/ArpLookup/Extensions.cs:21 | One character upper-cased: the result is never a lower-case ASCII letter, `a`–`z` become `A`–`Z`, and any other character is kept. |
| Extensions.ReplaceColons | src/ArpLookup/Extensions.cs:21 | The replaced text has the same length and no `:` left. `NormalizedHex` and `NormalizedParse` give the rest. |
| Extensions.ToUpper | src/ArpLookup/Extensions.cs:21 | The upper-cased text has the same length and no lower-case ASCII letter left. `NormalizedHex` and `CaseInsensitive` give the rest. |
| Extensions.Normalize | src/ArpLookup/Extensions.cs:21 | The text handed to `PhysicalAddress.Parse` has the input's length, no `:` and no lower-case ASCII letter. `NormalizedHex`, `NormalizedParse`, `NormalizeIdempotent`, `SeparatorInsensitive` and `CaseInsensitive` characterise it. |
| Extensions.NormalizeIdempotent | src/ArpLookup/Extensions.cs:21 | Replacing colons and upper-casing a second time changes nothing. |
| Extensions.SeparatorInsensitive | src/ArpLookup/Extensions.cs:21 | Texts differing only in which separator, `:` or `-`, stands at each place give the same result or the same exception. |
| Extensions.CaseInsensitive | src/ArpLookup/Extensions.cs:21 | Texts differing only in letter case give the same result or the same exception. |
| RowPattern.IsWhiteSpace | src/ArpLookup/LinuxLookupService.cs:19 | The regex class `\s`: the full `Char.IsWhiteSpace` set, U+0009–U+000D, U+0020, U+0085, U+00A0, U+1680, U+2000–U+200A, U+2028, U+2029, U+202F, U+205F and U+3000. |
| RowPattern.InClass | src/ArpLookup/LinuxLookupService.cs:19 | The pattern's three classes: `[0-9]` is the ASCII digits, `\s` is `IsWhiteSpace`, and `\w` is ASCII letters, digits and `_`. The narrower `\w` is admitted under "Left out". |
| RowPattern.MatchesRowPattern | src/ArpLookup/LinuxLookupService.cs:19 | The declarative reading of the pattern: group 1 is four 1–3-digit groups joined by dots at the start of the line, then white space, a word, white space, a word, white space, and group 2, a MAC token, followed by anything. `MatchRowExact` proves the matcher equal to it. |
| RowPattern.MatchRow | src/ArpLookup/LinuxLookupService.cs:162 | A match's IP group is a prefix of the line and its MAC group is a MAC token. `MatchRowExact`, `MatchRowSound` and `MatchRowComplete` characterise it fully. |
| RowPattern.MatchRowExact | src/ArpLookup/LinuxLookupService.cs:19 | The matcher finds groups (ipText, macText) exactly when the line is a dotted quad of 1–3-digit groups, white space, a word, white space, a word, white space, a MAC token, then anything. So a row matches in at most one way. |
| RowPattern.MatchRowSound | src/ArpLookup/LinuxLookupService.cs:19 | Whatever the matcher returns is a reading of the line by the pattern. |
| RowPattern.MatchRowComplete | src/ArpLookup/LinuxLookupService.cs:19 | Every reading of the line by the pattern is what the matcher returns. |
| RowPattern.MatchRowAt | src/ArpLookup/LinuxLookupService.cs:19 | A line laid out from the pattern's pieces is matched, with the first and last pieces as its two groups. |
| RowPattern.RunLength | src/ArpLookup/LinuxLookupService.cs:19 | The run found stays inside the line and is maximal: the next character, if any, is not of the class. |
| RowPattern.RunLengthAll | src/ArpLookup/LinuxLookupService.cs:19 | Every character inside the run found is of the class. |
| RowPattern.RunAt | src/ArpLookup/LinuxLookupService.cs:19 | A class run at a position that the next character does not continue is exactly the run found there. |
| RowPattern.RunPlusEnd | src/ArpLookup/LinuxLookupService.cs:19 | `k+` consumes at least one character and stays inside the line. |
| RowPattern.RunPlusSound | src/ArpLookup/LinuxLookupService.cs:19 | What `k+` consumes is a non-empty run of class `k`. |
| RowPattern.RunPlusAt | src/ArpLookup/LinuxLookupService.cs:19 | A maximal non-empty run at a position is exactly what `k+` consumes there. |
| RowPattern.DecGroupEnd | src/ArpLookup/LinuxLookupService.cs:19 | `[0-9]{1,3}` consumes one to three characters inside the line. |
| RowPattern.DecGroupSound | src/ArpLookup/LinuxLookupService.cs:19 | What `[0-9]{1,3}` consumes is a group of one to three digits. |
| RowPattern.DecGroupAt | src/ArpLookup/LinuxLookupService.cs:19 | A digit group not followed by a digit is consumed whole. |
| RowPattern.GroupDotEnd | src/ArpLookup/LinuxLookupService.cs:19 | `[0-9]{1,3}\.` consumes at least two characters inside the line. |
| RowPattern.GroupDotSound | src/ArpLookup/LinuxLookupService.cs:19 | What it consumes is a digit group followed by a dot. |
| RowPattern.GroupDotAt | src/ArpLookup/LinuxLookupService.cs:19 | A digit group then a dot is consumed whole. |
| RowPattern.DottedQuadEnd | src/ArpLookup/LinuxLookupService.cs:19 | Group 1 ends inside the line. |
| RowPattern.DottedQuadSound | src/ArpLookup/LinuxLookupService.cs:19 | What group 1 consumes is four digit groups joined by dots, and no digit follows it. |
| RowPattern.DottedQuadAt | src/ArpLookup/LinuxLookupService.cs:19 | A dotted quad not followed by a digit is consumed whole as group 1. |
| RowPattern.QuadAtStart | src/ArpLookup/LinuxLookupService.cs:19 | In a line laid out from the pattern's pieces, group 1 is the leading dotted quad. |
| RowPattern.ColumnsEnd | src/ArpLookup/LinuxLookupService.cs:19 | `(?:\s+\w+){2}\s+` ends inside the line. |
| RowPattern.ColumnsSound | src/ArpLookup/LinuxLookupService.cs:19 | What it consumes is white space, a word, white space, a word, white space, and no white space follows. |
| RowPattern.ColumnsAt | src/ArpLookup/LinuxLookupService.cs:19 | Those five runs, followed by a non-space, are consumed whole. |
| RowPattern.ColumnsBeforeMac | src/ArpLookup/LinuxLookupService.cs:19 | In a laid-out line, the columns end exactly where the MAC token starts. |
| RowPattern.MacAt | src/ArpLookup/LinuxLookupService.cs:19 | In a laid-out line, the 17 characters at the MAC position are the MAC token. |
| IPv4Text.ParseIPv4 | src/ArpLookup/LinuxLookupService.cs:170 | `IPAddress.Parse` succeeds exactly when the text has four dot-separated fields, each a non-empty digit string of value at most 255. The bytes are those values in order. Otherwise FormatException. |
| IPv4Text.ParseFour | src/ArpLookup/LinuxLookupService.cs:170 | Four dot-free fields joined by dots parse exactly when each is an octet field, to their four values. |
| IPv4Text.ParseFormat | src/ArpLookup/LinuxLookupService.cs:170 | Every address parses back from its dotted-decimal text. |
| IPv4Text.FormatParse | src/ArpLookup/LinuxLookupService.cs:170 | Accepted text without redundant leading zeros is the text form of the address it parses to. |
| IPv4Text.SplitDots | src/ArpLookup/LinuxLookupService.cs:170 | `Split('.')` gives at least one field. `JoinSplit`, `SplitJoin` and `SplitPrefix` characterise it. |
| IPv4Text.JoinDots | src/ArpLookup/LinuxLookupService.cs:170 | The inverse of `SplitDots`. `JoinSplit` and `SplitJoin` prove it, and `JoinFour` spells it out for four fields. |
| IPv4Text.JoinFour | src/ArpLookup/LinuxLookupService.cs:170 | Four fields joined by `JoinDots` are the four texts with a dot between each pair. |
| IPv4Text.JoinSplit | src/ArpLookup/LinuxLookupService.cs:170 | Joining the fields of `Split('.')` with dots gives the text back. |
| IPv4Text.SplitJoin | src/ArpLookup/LinuxLookupService.cs:170 | Splitting dot-free fields joined by dots gives the fields back. |
| IPv4Text.DecimalText | src/ArpLookup/LinuxLookupService.cs:170 | The decimal text of a number is a non-empty digit string with no leading zero. |
| IPv4Text.DecimalValueOfText | src/ArpLookup/LinuxLookupService.cs:170 | Reading the decimal text of a number gives the number back. |
| IPv4Text.DecimalTextOfValue | src/ArpLookup/LinuxLookupService.cs:170 | A digit string without a leading zero is the decimal text of its value. |
| LinuxLookupService.ParseIfMatch | src/ArpLookup/LinuxLookupService.cs:160-177 | Every exception a row raises is FormatException. |
| LinuxLookupService.ParseIfMatchRow | src/ArpLookup/LinuxLookupService.cs:168-176 | For a matched row, the outcome depends only on its two groups: an unparsable IP is FormatException, another address is null, and the queried address gives the octets of the MAC group. |
| LinuxLookupService.ParseIfMatchFails | src/ArpLookup/LinuxLookupService.cs:162-170 | A row raises exactly when no reading of it by the pattern has a parsable IP group, in particular when the pattern rejects it. |
| LinuxLookupService.ParseIfMatchErr | src/ArpLookup/LinuxLookupService.cs:162-170 | A row raises exactly when the match fails or its IP group does not parse. |
| LinuxLookupService.DottedQuadParse | src/ArpLookup/LinuxLookupService.cs:168-170 | The IP group of a matched row, four digit groups written with dots between them, parses exactly when each group is at most 255. It then gives those four values. |
| LinuxLookupService.JoinedQuadParse | src/ArpLookup/LinuxLookupService.cs:168-170 | The same for the four groups joined by `JoinDots`. |
| LinuxLookupService.DecGroupField | src/ArpLookup/LinuxLookupService.cs:168-170 | A 1–3-digit regex group is a dot-free decimal field, and it is an octet field exactly when its value is at most 255. |
| LinuxLookupService.IsBlank | src/ArpLookup/LinuxLookupService.cs:138 | `string.IsNullOrWhiteSpace` on a line that was read: every character is `Char.IsWhiteSpace`, the empty line included. The asynchronous loop's test at line 72 is the same. `BlankStops` and `MatchedNotBlank` use it. |
| LinuxLookupService.Scan | src/ArpLookup/LinuxLookupService.cs:131-158 | The scan never lets FormatException out. Any exception it throws is PlatformNotSupportedException or the one some row raised. |
| LinuxLookupService.PassedRows | src/ArpLookup/LinuxLookupService.cs:145-149 | Non-blank rows that yield null do not change the outcome of the scan. |
| LinuxLookupService.FoundAtFirstStop | src/ArpLookup/LinuxLookupService.cs:145-149 | A MAC the scan returns comes from a row before which every row was passed over. |
| LinuxLookupService.ScanRows | src/ArpLookup/LinuxLookupService.cs:151-154 | The only exception the scan for an address throws is PlatformNotSupportedException. |
| LinuxLookupService.ProcNetArp | src/ArpLookup/LinuxLookupService.cs:131-158 | The only exception is PlatformNotSupportedException. A file holding only the header gives null. The scan lemmas below characterise it row by row. |
| LinuxLookupService.SkippedRows | src/ArpLookup/LinuxLookupService.cs:171-174 | Rows for other addresses do not change the outcome. |
| LinuxLookupService.HeaderIgnored | src/ArpLookup/LinuxLookupService.cs:134 | The first line is never examined. The outcome is the scan of the rest, whatever the first line holds. |
| LinuxLookupService.BlankStops | src/ArpLookup/LinuxLookupService.cs:138-141 | A blank line after rows for other addresses gives null, whatever follows it. |
| LinuxLookupService.FirstHit | src/ArpLookup/LinuxLookupService.cs:145-149 | After rows for other addresses, the first row for the query gives the octets of its MAC group, whatever follows. |
| LinuxLookupService.MalformedRow | src/ArpLookup/LinuxLookupService.cs:151-154 | A non-blank row the pattern rejects, before any hit, gives PlatformNotSupportedException, never null. |
| LinuxLookupService.UnparsableIp | src/ArpLookup/LinuxLookupService.cs:170 | A matched row whose IP does not parse, before any hit, gives PlatformNotSupportedException. |
| LinuxLookupService.OtherAddressSkipped | src/ArpLookup/LinuxLookupService.cs:171-174 | A matched row for another parsable address is passed over without error. |
| LinuxLookupService.Exhausted | src/ArpLookup/LinuxLookupService.cs:157 | Reaching the end with only rows for other addresses gives null. |
| LinuxLookupService.HitIsFirst | src/ArpLookup/LinuxLookupService.cs:145-149 | A returned MAC is what the first row not passed over yields for the query, and every row before it was for another address. |
| LinuxLookupService.NullRowNever | src/ArpLookup/LinuxLookupService.cs:171-174 | No row is the row of a null address: `tableIp.Equals(null)` is false. |
| LinuxLookupService.NullNeverFound | src/ArpLookup/LinuxLookupService.cs:131-158 | A scan of the table for a null address never returns a MAC. |
| LinuxLookupService.MatchedNotBlank | src/ArpLookup/LinuxLookupService.cs:138 | A row the pattern matches is never blank. |
| LinuxLookupService.ParseProcNetArp | src/ArpLookup/LinuxLookupService.cs:131-158 | The while loop over the lines computes exactly the scan of the lines after the header. The asynchronous loop, lines 65-92, is the same loop. |
| LinuxLookupService.IsSupported | src/ArpLookup/LinuxLookupService.cs:24 | Linux, and the arp file exists. `TryReadStep` and `PingThenTryReadSequence` show that an unsupported host gets PlatformNotSupportedException before any I/O. |
| LinuxLookupService.TryReadStep | src/ArpLookup/LinuxLookupService.cs:120-129 | Unsupported: PlatformNotSupportedException with no I/O. Supported: exactly one table read, whose scan is the result. The table is unchanged. |
| LinuxLookupService.PingThenTryReadStep | src/ArpLookup/LinuxLookupService.cs:102-112 | When supported, the ping is the first I/O step. `PingThenTryReadSequence` gives the rest. |
| LinuxLookupService.PingThenTryReadSequence | src/ArpLookup/LinuxLookupService.cs:102-112 | Unsupported: no I/O at all. Supported: exactly one ping to `ip` with the timeout. Unless it raised, exactly one read of the table as the ping left it. A null `ip` gives ArgumentNullException, and `IPAddress.Any` gives ArgumentException, both with the table untouched. Only another address reaches the network. |
| LinuxLookupService.TryReadFromArpTable | src/ArpLookup/LinuxLookupService.cs:120-129 | Result, I/O trace and table are those of `TryReadStep`. |
| LinuxLookupService.TryReadFromArpTableAsync | src/ArpLookup/LinuxLookupService.cs:54-63 | Performs the same steps, with the same result, as the synchronous read. |
| LinuxLookupService.PingThenTryReadFromArpTable | src/ArpLookup/LinuxLookupService.cs:102-112 | Result, I/O trace and table are those of `PingThenTryReadStep`. |
| LinuxLookupService.PingThenTryReadFromArpTableAsync | src/ArpLookup/LinuxLookupService.cs:35-45 | Performs the same steps, with the same result, as the synchronous one. |
| Os.Host.ReadArpTable | src/ArpLookup/LinuxLookupService.cs:127-128 | Reading gives the current table, leaves it unchanged, and records one read. |
| Os.PingOutcome | src/ArpLookup/LinuxLookupService.cs:110 | `Ping.Send`: null is ArgumentNullException and `IPAddress.Any` is ArgumentException, both leaving the table alone. Any other address is what the network does. `Host.Ping`, `PingThenTryReadSequence` and `NullLookup` state it. |
| Os.Host.Ping | src/ArpLookup/LinuxLookupService.cs:109-110 | One call of `Ping.Send` is recorded. Its argument checks come first: null raises ArgumentNullException, `IPAddress.Any` raises ArgumentException, and neither touches the table. For any other address, the exception and the table afterwards are the network's. |
| Os.Host.SendArp | src/ArpLookup/WindowsLookupService.cs:43 | The native call returns its status and writes its bytes into at most the first `len` buffer places, in place. |
| Os.Filled | src/ArpLookup/WindowsLookupService.cs:43 | The buffer after the call is the written bytes where the call wrote, and the old bytes elsewhere. |
| WindowsLookupService.ToInt32LittleEndian | src/ArpLookup/WindowsLookupService.cs:38 | The first address byte is the least significant one. The value is negative exactly when the last byte's top bit is set. |
| WindowsLookupService.Int32Bytes | src/ArpLookup/WindowsLookupService.cs:38 | The first byte of the unpacking is the value modulo 256. |
| WindowsLookupService.BytesOfPacked | src/ArpLookup/WindowsLookupService.cs:38 | Unpacking the packed integer gives the four address bytes back, so the packing loses nothing. |
| WindowsLookupService.PackedOfBytes | src/ArpLookup/WindowsLookupService.cs:38 | Every 32-bit integer is the packing of the bytes it unpacks to. |
| WindowsLookupService.PackingExamples | src/ArpLookup/WindowsLookupService.cs:38 | 192.168.0.1 packs to 0x0100A8C0. 10.0.0.200 packs to a negative integer. |
| WindowsLookupService.IsSupported | src/ArpLookup/WindowsLookupService.cs:21 | The host runs Windows. `NotWindows` shows it is checked before the native call. |
| WindowsLookupService.LookupStep | src/ArpLookup/WindowsLookupService.cs:29-51 | At most one native call. An address it returns has exactly six bytes. `NullFirst`, `NotWindows`, `OneNativeCall`, `StatusZero` and `StatusNonZero` characterise it case by case. |
| WindowsLookupService.NullFirst | src/ArpLookup/WindowsLookupService.cs:31 | A null address is ArgumentNullException on any platform, with no native call. |
| WindowsLookupService.NotWindows | src/ArpLookup/WindowsLookupService.cs:32-35 | Off Windows, PlatformNotSupportedException, with no native call. |
| WindowsLookupService.OneNativeCall | src/ArpLookup/WindowsLookupService.cs:38-43 | Exactly one native call, with the packed address whose low byte is the first address byte, source 0, and length 6. |
| WindowsLookupService.StatusZero | src/ArpLookup/WindowsLookupService.cs:40-48 | Status 0 gives the address over exactly the six buffer bytes after the call: what the call wrote, and 0 elsewhere. |
| WindowsLookupService.StatusNonZero | src/ArpLookup/WindowsLookupService.cs:50 | Any other status is Win32Exception carrying that status. This path never returns an address. |
| WindowsLookupService.Lookup | src/ArpLookup/WindowsLookupService.cs:29-51 | Allocates a zeroed 6-byte array, passes length 6, and calls `SendARP`. Result and I/O trace are those of `LookupStep`, and the arp table is untouched. |
| ArpLookup.IsSupported | src/ArpLookup/Arp.cs:18 | Either strategy is supported. `SupportDecides` shows what it decides. |
| ArpLookup.LookupStep | src/ArpLookup/Arp.cs:62-81 | A null address never gets a result, only an exception. `WindowsFirst`, `LinuxHit`, `LinuxReadFails`, `LinuxMiss`, `Unsupported`, `NullLookup` and `AtMostOneProbe` characterise it. |
| ArpLookup.NullLookup | src/ArpLookup/Arp.cs:62-81 | A null address: on Windows, ArgumentNullException with no I/O. On Linux the first read cannot find it, so either that read's PlatformNotSupportedException or the ping's ArgumentNullException, with the table untouched. With neither strategy, PlatformNotSupportedException. Never a MAC and never null. |
| ArpLookup.SupportDecides | src/ArpLookup/Arp.cs:18 | Neither strategy supported: PlatformNotSupportedException with no I/O. A supported host hands a non-null address to a strategy, which performs I/O. |
| ArpLookup.WindowsFirst | src/ArpLookup/Arp.cs:64-67 | On Windows the result is the Windows lookup's, null never. No table read, no ping, and the table is unchanged. |
| ArpLookup.LinuxHit | src/ArpLookup/Arp.cs:69-75 | A hit on the first read is returned after exactly one read and no ping. |
| ArpLookup.LinuxReadFails | src/ArpLookup/Arp.cs:71 | An exception from the first read propagates, with no ping. |
| ArpLookup.LinuxMiss | src/ArpLookup/Arp.cs:77 | On a miss, exactly one ping with the configured timeout follows. Its exception, or the outcome of one more read (null included), is the result. |
| ArpLookup.Unsupported | src/ArpLookup/Arp.cs:80 | Neither strategy: PlatformNotSupportedException whatever the input, with no I/O. |
| ArpLookup.AtMostOneProbe | src/ArpLookup/Arp.cs:62-81 | At most one ping and at most two table reads per lookup. A ping happens only after a Linux miss. |
| ArpLookup.CountsAppend | src/ArpLookup/Arp.cs:62-81 | The reads and pings of a run of steps are the sums over its parts. `AtMostOneProbe` counts with it. |
| ArpLookup.CountsOne | src/ArpLookup/Arp.cs:62-81 | A single step is one read, one ping, or neither. |
| ArpLookup.Arp.constructor | src/ArpLookup/Arp.cs:23 | `LinuxPingTimeout` starts at 750 ms. |
| ArpLookup.Arp.SetLinuxPingTimeout | src/ArpLookup/Arp.cs:23 | The timeout reads back as the value last set. |
| ArpLookup.Arp.Lookup | src/ArpLookup/Arp.cs:62-81 | Result, I/O trace and table after are those of `LookupStep` with the current timeout. |
| ArpLookup.Arp.LookupAsync | src/ArpLookup/Arp.cs:33-52 | Performs the same steps, with the same result, as `Lookup`, through the asynchronous Linux entry points. |

## Left out

- File and stream I/O:
  - the table is a sequence of lines;
  - exceptions from opening or reading `/proc/net/arp` are not modelled;
  - nor are the line-ending details of `StreamReader.ReadLine`.
- `async`/`await`, `Task` and `ConfigureAwait`: each asynchronous entry point is
  a method performing the same steps as the synchronous one.
  `ParseProcNetArpAsync` is the same loop as `ParseProcNetArp` and is modelled
  by that one method.
- The unsynchronised reads of the static `LinuxPingTimeout` are not modelled.
  The timeout is a `nat` of whole milliseconds.
- The `(int)timeout.TotalMilliseconds` conversion (double to int) is not
  modelled, nor are negative or out-of-range timeouts.
- Os.Host.Ping: for an address that passes its argument checks, `Ping.Send` and
  `SendPingAsync` are an oracle. It gives the exception raised, if any, and the
  table afterwards; which of its exceptions can occur is not constrained.
  `Error.PingFailed` stands for the PingException it typically raises, but the
  oracle may name any error. The
  library never looks at the reply. The null and `IPAddress.Any` checks are
  modelled. The negative-timeout check cannot arise, since the timeout is a
  `nat`.
- `SendARP` is an oracle: a fixed function of its arguments.
  - Win32 error-code meanings are not modelled.
  - The value it writes back through `ref len` is not modelled; the library
    never reads it.
- `PlatformHelpers.IsWindows`/`IsLinux` and `File.Exists` are booleans of the host.
- Addresses are IPv4 only. For an IPv6 `IPAddress`, `GetAddressBytes` gives 16
  bytes and `Equals` never matches a table row. That case is not modelled.
- The `m.Groups.Count != 3` test in `ParseIfMatch` is not modelled as a
  separate branch. The pattern has exactly two groups, so the count is always
  3 when the match succeeds.
- IPv4Text.ParseIPv4: only the four-part form with decimal digit fields up to
  255 is accepted.
  - A field with a leading zero is read as decimal here. `IPAddress.Parse` reads
    it as octal, so the outcome differs. `010` gives 10 here but 8 in .NET.
    `08` and `09` are accepted here but rejected by .NET. Such fields match the
    row pattern's `[0-9]{1,3}`, so the Linux path is affected for such rows.
  - Hexadecimal fields (`0x..`) and shortened forms with fewer than four parts
    are rejected with FormatException here. .NET accepts them, but they never
    match the row pattern, so the Linux path is unaffected.
- Extensions.ParsePhysicalAddress: only the six-pair hyphen form is accepted.
  Forms `PhysicalAddress.Parse` also takes (no separators, other lengths) are a
  FormatException here. Text from a matched table row is always six pairs, so
  the Linux path is unaffected.
- Extensions.ToUpperInvariant: upper-cases ASCII letters only.
  - Other letters are kept unchanged.
  - No non-ASCII character upper-cases to a hex digit or `-`, so acceptance and
    the parsed octets are unchanged.
- RowPattern.InClass: `\w` covers ASCII letters, digits and `_` only. .NET's
  `\w` is `[\p{L}\p{Mn}\p{Nd}\p{Pc}]`. It also takes every Unicode letter,
  the non-spacing marks, the non-ASCII decimal digits and all connector
  punctuation, such as U+203F. The kernel writes hex numbers in these columns.
