/** `Extensions.ParseMacAddress`: replace every ':' by '-', upper-case with the
    invariant culture, then `PhysicalAddress.Parse`. Both copies of the library
    (the current one and the older one) have this same expression chain. */
module Extensions {
  import opened Net

  predicate IsHexDigit(c: char) {
    ('0' <= c <= '9') || ('A' <= c <= 'F') || ('a' <= c <= 'f')
  }

  predicate IsUpperHexDigit(c: char) {
    ('0' <= c <= '9') || ('A' <= c <= 'F')
  }

  predicate IsMacSeparator(c: char) {
    c == ':' || c == '-'
  }

  function HexValue(c: char): (v: nat)
    requires IsHexDigit(c)
    ensures v < 16
  {
    if '0' <= c <= '9' then c as int - '0' as int
    else if 'A' <= c <= 'F' then c as int - 'A' as int + 10
    else c as int - 'a' as int + 10
  }

  /** A textual hardware address of six hex pairs joined by ':' or '-', in any
      letter case: the group `(?:[0-9A-Fa-f]{2}[:-]){5}(?:[0-9A-Fa-f]{2})` of the
      arp table row pattern. Every third character, from the third on, is a separator. */
  predicate IsMacToken(t: string) {
    |t| == 17 &&
    forall j :: 0 <= j < 17 ==> if j % 3 == 2 then IsMacSeparator(t[j]) else IsHexDigit(t[j])
  }

  /** The six octets a MAC token spells, hex pair by hex pair, in order. */
  function MacOctets(t: string): (b: seq<Byte>)
    requires IsMacToken(t)
    ensures |b| == 6
  {
    seq(6, i requires 0 <= i < 6 => 16 * HexValue(t[3 * i]) + HexValue(t[3 * i + 1]))
  }

  /** `Char.ToUpperInvariant` on the ASCII letters; every other character is kept. */
  function ToUpperInvariant(c: char): (u: char)
    ensures !('a' <= u <= 'z')
    ensures 'a' <= c <= 'z' ==> u as int == c as int - 32
    ensures !('a' <= c <= 'z') ==> u == c
  {
    if 'a' <= c <= 'z' then (c as int - 32) as char else c
  }

  /** `mac.Replace(":", "-")`. */
  function ReplaceColons(s: string): (r: string)
    ensures |r| == |s| && forall i :: 0 <= i < |r| ==> r[i] != ':'
  {
    seq(|s|, i requires 0 <= i < |s| => if s[i] == ':' then '-' else s[i])
  }

  /** `s.ToUpper(CultureInfo.InvariantCulture)`. */
  function ToUpper(s: string): (r: string)
    ensures |r| == |s| && forall i :: 0 <= i < |r| ==> !('a' <= r[i] <= 'z')
  {
    seq(|s|, i requires 0 <= i < |s| => ToUpperInvariant(s[i]))
  }

  /** The text handed to `PhysicalAddress.Parse`. */
  function Normalize(s: string): (r: string)
    ensures |r| == |s| && forall i :: 0 <= i < |r| ==> r[i] != ':' && !('a' <= r[i] <= 'z')
  {
    ToUpper(ReplaceColons(s))
  }

  /** The canonical form the parser takes: six upper-case hex pairs joined by '-'. */
  predicate IsCanonicalMacText(t: string) {
    |t| == 17 &&
    forall j :: 0 <= j < 17 ==> if j % 3 == 2 then t[j] == '-' else IsUpperHexDigit(t[j])
  }

  /** `PhysicalAddress.Parse` for the six-pair hyphen form; any other text is a FormatException. */
  function ParsePhysicalAddress(t: string): (r: Result<PhysicalAddress>)
    ensures r.Ok? <==> IsCanonicalMacText(t)
    ensures r.Err? ==> r.error == Format
    ensures r.Ok? ==> |r.value.bytes| == 6
  {
    if IsCanonicalMacText(t) then
      Ok(PhysicalAddress(MacOctets(t)))
    else Err(Format)
  }

  lemma NormalizedHex(s: string, j: nat)
    requires j < |s|
    ensures |Normalize(s)| == |s|
    ensures IsUpperHexDigit(Normalize(s)[j]) <==> IsHexDigit(s[j])
    ensures Normalize(s)[j] == '-' <==> IsMacSeparator(s[j])
    ensures IsHexDigit(s[j]) ==> HexValue(Normalize(s)[j]) == HexValue(s[j])
  {
  }

  /** Parsing the normalised text accepts exactly the MAC tokens, and reads their octets. */
  lemma NormalizedParse(s: string)
    ensures ParsePhysicalAddress(Normalize(s)) ==
            if IsMacToken(s) then Ok(PhysicalAddress(MacOctets(s))) else Err(Format)
  {
    if |s| == 17 {
      forall j | 0 <= j < 17 {
        NormalizedHex(s, j);
      }
      if IsMacToken(s) {
        var t := Normalize(s);
        assert IsCanonicalMacText(t);
        forall i | 0 <= i < 6 ensures MacOctets(t)[i] == MacOctets(s)[i] {
          NormalizedHex(s, 3 * i);
          NormalizedHex(s, 3 * i + 1);
        }
        assert MacOctets(t) == MacOctets(s);
      }
    }
  }

  /** `ParseMacAddress`: null is an ArgumentNullException; otherwise the text is
      accepted exactly when it is six hex pairs with ':' or '-' separators in
      any case, and then the address is those six octets; no partial address is
      ever returned. */
  function ParseMacAddress(mac: Option<string>): (r: Result<PhysicalAddress>)
    ensures mac.None? ==> r == Err(ArgumentNull)
    ensures mac.Some? ==> (r.Ok? <==> IsMacToken(mac.value))
    ensures mac.Some? && r.Err? ==> r.error == Format
    ensures r.Ok? ==> mac.Some? && IsMacToken(mac.value) && r.value.bytes == MacOctets(mac.value)
  {
    match mac
    case None => Err(ArgumentNull)
    case Some(s) =>
      NormalizedParse(s);
      ParsePhysicalAddress(Normalize(s))
  }

  /** The normalisation step changes nothing when applied a second time. */
  lemma NormalizeIdempotent(s: string)
    ensures Normalize(Normalize(s)) == Normalize(s)
  {
  }

  /** Two texts that differ only in which separator, ':' or '-', stands at each place. */
  predicate SameUpToSeparators(s: string, t: string) {
    |s| == |t| &&
    forall j :: 0 <= j < |s| ==> s[j] == t[j] || (IsMacSeparator(s[j]) && IsMacSeparator(t[j]))
  }

  /** Two texts that differ only in the case of their ASCII letters. */
  predicate SameUpToCase(s: string, t: string) {
    |s| == |t| &&
    forall j :: 0 <= j < |s| ==> ToUpperInvariant(s[j]) == ToUpperInvariant(t[j])
  }

  /** Colon, hyphen and mixed separators give the same address (or the same exception). */
  lemma {:induction false} SeparatorInsensitive(s: string, t: string)
    requires SameUpToSeparators(s, t)
    ensures ParseMacAddress(Some(s)) == ParseMacAddress(Some(t))
  {
    assert Normalize(s) == Normalize(t) by {
      forall j | 0 <= j < |s| ensures Normalize(s)[j] == Normalize(t)[j] {
        NormalizedHex(s, j);
        NormalizedHex(t, j);
      }
    }
  }

  /** Letter case does not change the address (or the exception). */
  lemma {:induction false} CaseInsensitive(s: string, t: string)
    requires SameUpToCase(s, t)
    ensures ParseMacAddress(Some(s)) == ParseMacAddress(Some(t))
  {
    assert Normalize(s) == Normalize(t) by {
      forall j | 0 <= j < |s| ensures Normalize(s)[j] == Normalize(t)[j] {
        NormalizedHex(s, j);
        NormalizedHex(t, j);
      }
    }
  }
}
