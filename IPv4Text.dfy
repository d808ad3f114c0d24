/** The text form of IPv4 addresses as `IPAddress.Parse` reads it for the
    dotted-decimal form: four decimal fields separated by '.', each at most 255.
    `FormatIPv4` is the inverse direction (`IPAddress.ToString`), used to state
    what the parser accepts. */
module IPv4Text {
  import opened Net

  predicate IsDigit(c: char) {
    '0' <= c <= '9'
  }

  function DigitValue(c: char): (v: nat)
    requires IsDigit(c)
    ensures v < 10
  {
    c as int - '0' as int
  }

  function DigitChar(v: nat): (c: char)
    requires v < 10
    ensures IsDigit(c) && DigitValue(c) == v
  {
    ('0' as int + v) as char
  }

  predicate AllDigits(t: string) {
    forall j :: 0 <= j < |t| ==> IsDigit(t[j])
  }

  /** A non-empty run of decimal digits. */
  predicate IsDecimalField(t: string) {
    |t| >= 1 && AllDigits(t)
  }

  /** The number a digit string spells in base 10, most significant digit first. */
  function DecimalValue(t: string): nat
    requires AllDigits(t)
    decreases |t|
  {
    if |t| == 0 then 0 else 10 * DecimalValue(t[..|t| - 1]) + DigitValue(t[|t| - 1])
  }

  /** The shortest decimal text of `n`: no leading zero, except for "0" itself. */
  function DecimalText(n: nat): (t: string)
    ensures IsDecimalField(t)
    ensures |t| > 1 ==> t[0] != '0'
  {
    if n < 10 then [DigitChar(n)] else DecimalText(n / 10) + [DigitChar(n % 10)]
  }

  lemma {:induction false} DecimalValueOfText(n: nat)
    ensures DecimalValue(DecimalText(n)) == n
  {
    if n >= 10 {
      DecimalValueOfText(n / 10);
      var t := DecimalText(n);
      assert t[..|t| - 1] == DecimalText(n / 10);
    }
  }

  /** A decimal field without a redundant leading zero is the text of its own value. */
  lemma {:induction false} DecimalTextOfValue(t: string)
    requires IsDecimalField(t) && (|t| == 1 || t[0] != '0')
    ensures DecimalText(DecimalValue(t)) == t
    decreases |t|
  {
    if |t| > 1 {
      var p := t[..|t| - 1];
      LeadingDigitBound(p);
      DecimalTextOfValue(p);
      var v := DecimalValue(t);
      assert v / 10 == DecimalValue(p) && v % 10 == DigitValue(t[|t| - 1]);
      assert t == p + [t[|t| - 1]];
    }
  }

  /** A digit string is worth at least its first digit. */
  lemma {:induction false} LeadingDigitBound(t: string)
    requires IsDecimalField(t)
    ensures DecimalValue(t) >= DigitValue(t[0])
    decreases |t|
  {
    if |t| > 1 {
      LeadingDigitBound(t[..|t| - 1]);
    }
  }

  predicate NoDot(t: string) {
    forall j :: 0 <= j < |t| ==> t[j] != '.'
  }

  /** `s.Split('.')`: the texts between the dots, in order; there is always one more field than dots. */
  function SplitDots(s: string): (parts: seq<string>)
    ensures |parts| >= 1
    decreases |s|
  {
    if |s| == 0 then [""]
    else
      var rest := SplitDots(s[1..]);
      if s[0] == '.' then [""] + rest else [[s[0]] + rest[0]] + rest[1..]
  }

  /** `string.Join(".", parts)`. */
  function JoinDots(parts: seq<string>): string
    requires |parts| >= 1
    decreases |parts|
  {
    if |parts| == 1 then parts[0] else parts[0] + "." + JoinDots(parts[1..])
  }

  /** Joining the fields of a split gives the text back. */
  lemma {:induction false} JoinSplit(s: string)
    ensures JoinDots(SplitDots(s)) == s
    decreases |s|
  {
    if |s| > 0 {
      var rest := SplitDots(s[1..]);
      JoinSplit(s[1..]);
      if s[0] == '.' {
        assert s == "." + s[1..];
      } else if |rest| == 1 {
        assert s == [s[0]] + s[1..];
      } else {
        assert JoinDots(rest) == rest[0] + "." + JoinDots(rest[1..]);
        assert s == [s[0]] + s[1..];
      }
    }
  }

  /** Splitting joined dot-free fields gives the fields back. */
  lemma {:induction false} SplitJoin(parts: seq<string>)
    requires |parts| >= 1 && forall i :: 0 <= i < |parts| ==> NoDot(parts[i])
    ensures SplitDots(JoinDots(parts)) == parts
    decreases |parts|
  {
    if |parts| == 1 {
      SplitPrefix(parts[0], "");
      assert parts[0] + "" == parts[0];
    } else {
      var rest := JoinDots(parts[1..]);
      SplitJoin(parts[1..]);
      assert SplitDots("." + rest) == [""] + SplitDots(rest);
      SplitPrefix(parts[0], "." + rest);
      assert parts[0] + "" == parts[0];
      assert parts[0] + "." + rest == parts[0] + ("." + rest);
      assert parts == [parts[0]] + parts[1..];
    }
  }

  lemma {:induction false} SplitPrefix(p: string, s: string)
    requires NoDot(p)
    ensures SplitDots(p + s) == [p + SplitDots(s)[0]] + SplitDots(s)[1..]
    decreases |p|
  {
    if |p| > 0 {
      SplitPrefix(p[1..], s);
      assert (p + s)[0] == p[0];
      assert (p + s)[1..] == p[1..] + s;
      var rest := SplitDots(p[1..] + s);
      assert rest[0] == p[1..] + SplitDots(s)[0];
      assert rest[1..] == SplitDots(s)[1..];
      assert p[0] != '.';
      assert SplitDots(p + s) == [[p[0]] + rest[0]] + rest[1..];
      assert p + SplitDots(s)[0] == [p[0]] + (p[1..] + SplitDots(s)[0]);
    } else {
      assert p + s == s && p + SplitDots(s)[0] == SplitDots(s)[0];
      assert SplitDots(s) == [SplitDots(s)[0]] + SplitDots(s)[1..];
    }
  }

  /** One address byte: a decimal field whose value fits in a byte. */
  predicate IsOctetField(t: string) {
    IsDecimalField(t) && DecimalValue(t) <= 255
  }

  /** `IPAddress.Parse` on the dotted-decimal form: exactly four fields, each
      an octet field; any other text is a FormatException. */
  function ParseIPv4(t: string): (r: Result<IPAddress>)
    ensures r.Err? ==> r.error == Format
    ensures r.Ok? <==> |SplitDots(t)| == 4 && forall i :: 0 <= i < 4 ==> IsOctetField(SplitDots(t)[i])
    ensures r.Ok? ==> forall i :: 0 <= i < 4 ==> r.value.addressBytes[i] == DecimalValue(SplitDots(t)[i])
  {
    var parts := SplitDots(t);
    if |parts| == 4 && forall i :: 0 <= i < 4 ==> IsOctetField(parts[i])
    then Ok(IPAddress(seq(4, i requires 0 <= i < 4 => DecimalValue(parts[i]))))
    else Err(Format)
  }

  lemma JoinFour(a: string, b: string, c: string, d: string)
    ensures JoinDots([a, b, c, d]) == a + "." + b + "." + c + "." + d
  {
    var parts := [a, b, c, d];
    assert parts[1..] == [b, c, d] && parts[1..][1..] == [c, d] && parts[1..][1..][1..] == [d];
    assert JoinDots([c, d]) == c + "." + d;
    assert JoinDots([b, c, d]) == b + "." + (c + "." + d);
  }

  /** Four dot-free fields joined by dots parse exactly when each is an octet field, to those octets. */
  lemma ParseFour(a: string, b: string, c: string, d: string)
    requires NoDot(a) && NoDot(b) && NoDot(c) && NoDot(d)
    ensures var r := ParseIPv4(JoinDots([a, b, c, d]));
      (r.Ok? <==> IsOctetField(a) && IsOctetField(b) && IsOctetField(c) && IsOctetField(d)) &&
      (r.Ok? ==> r.value.addressBytes == [DecimalValue(a), DecimalValue(b), DecimalValue(c), DecimalValue(d)])
  {
    var parts := [a, b, c, d];
    forall i | 0 <= i < 4 ensures NoDot(parts[i]) {
      if i == 0 {} else if i == 1 {} else if i == 2 {} else {}
    }
    SplitJoin(parts);
    var r := ParseIPv4(JoinDots(parts));
    if IsOctetField(a) && IsOctetField(b) && IsOctetField(c) && IsOctetField(d) {
      forall i | 0 <= i < 4 ensures IsOctetField(parts[i]) {
        if i == 0 {} else if i == 1 {} else if i == 2 {} else {}
      }
      assert r.value.addressBytes == [DecimalValue(a), DecimalValue(b), DecimalValue(c), DecimalValue(d)];
    } else {
      assert !(IsOctetField(parts[0]) && IsOctetField(parts[1]) && IsOctetField(parts[2]) && IsOctetField(parts[3]));
    }
  }

  /** `IPAddress.ToString` for IPv4: the four bytes in decimal, joined by dots. */
  function FormatIPv4(ip: IPAddress): string {
    JoinDots(FormatFields(ip))
  }

  function FormatFields(ip: IPAddress): (fields: seq<string>)
    ensures |fields| == 4
  {
    seq(4, i requires 0 <= i < 4 => DecimalText(ip.addressBytes[i]))
  }

  /** Every address survives a trip through its text form. */
  lemma ParseFormat(ip: IPAddress)
    ensures ParseIPv4(FormatIPv4(ip)) == Ok(ip)
  {
    var fields := FormatFields(ip);
    forall i | 0 <= i < 4 ensures NoDot(fields[i]) && IsOctetField(fields[i]) &&
                                  DecimalValue(fields[i]) == ip.addressBytes[i] {
      DecimalValueOfText(ip.addressBytes[i]);
    }
    SplitJoin(fields);
    assert IPAddress(seq(4, i requires 0 <= i < 4 => DecimalValue(fields[i]))) == ip;
  }

  /** Text the parser accepts, with no redundant leading zero in any field, is
      the text form of the address it parses to. */
  lemma FormatParse(t: string)
    requires ParseIPv4(t).Ok?
    requires forall i :: 0 <= i < 4 ==> |SplitDots(t)[i]| == 1 || SplitDots(t)[i][0] != '0'
    ensures FormatIPv4(ParseIPv4(t).value) == t
  {
    var parts := SplitDots(t);
    var fields := FormatFields(ParseIPv4(t).value);
    forall i | 0 <= i < 4 ensures fields[i] == parts[i] {
      DecimalTextOfValue(parts[i]);
    }
    assert fields == parts;
    JoinSplit(t);
  }
}
