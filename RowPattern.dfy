/** One row of /proc/net/arp: the row pattern
      ^((?:[0-9]{1,3}\.){3}[0-9]{1,3})(?:\s+\w+){2}\s+((?:[0-9A-Fa-f]{2}[:-]){5}(?:[0-9A-Fa-f]{2}))
    written as a hand-made matcher for exactly that pattern, beside a
    declarative reading of the pattern (`MatchesRowPattern`).

    Every repeated piece of the pattern is followed by a character its own class
    cannot contain (digits by '.' or white space, white space by a word
    character, word characters by white space), so the backtracking engine can
    only ever succeed with maximal runs: the matcher takes maximal runs and never
    backtracks. `MatchRowExact` proves it accepts exactly the rows the pattern
    describes, with the same two groups. */
module RowPattern {
  import opened Net
  import opened Extensions
  import IPv4Text

  /** White space as .NET has it: `Char.IsWhiteSpace`, which is also the set the
      regex class `\s` matches (U+0009 to U+000D, U+0085 and the Unicode
      space, line and paragraph separators). */
  predicate IsWhiteSpace(c: char) {
    ('\t' <= c <= '\r') || c == ' ' || c == '\U{85}' || c == '\U{A0}' || c == '\U{1680}' ||
    ('\U{2000}' <= c <= '\U{200A}') || c == '\U{2028}' || c == '\U{2029}' || c == '\U{202F}' ||
    c == '\U{205F}' || c == '\U{3000}'
  }

  /** The character classes the pattern uses: `[0-9]`, `\s`, and `\w` on ASCII. */
  datatype CharClass = Digit | Space | Word

  predicate InClass(c: char, k: CharClass) {
    match k
    case Digit => IPv4Text.IsDigit(c)
    case Space => IsWhiteSpace(c)
    case Word => IPv4Text.IsDigit(c) || ('A' <= c <= 'Z') || ('a' <= c <= 'z') || c == '_'
  }

  predicate AllIn(t: string, k: CharClass) {
    forall j :: 0 <= j < |t| ==> InClass(t[j], k)
  }

  /** `k+` */
  predicate IsRun(t: string, k: CharClass) {
    |t| >= 1 && AllIn(t, k)
  }

  /** `[0-9]{1,3}` */
  predicate IsDecGroup(t: string) {
    1 <= |t| <= 3 && AllIn(t, Digit)
  }

  /** `(?:[0-9]{1,3}\.){3}[0-9]{1,3}` */
  ghost predicate IsDottedQuad(t: string) {
    exists a, b, c, d ::
      IsDecGroup(a) && IsDecGroup(b) && IsDecGroup(c) && IsDecGroup(d) &&
      t == a + "." + b + "." + c + "." + d
  }

  /** `line` matches the row pattern with `ipText` as group 1 and `macText` as
      group 2: the dotted quad, two white-space-preceded word tokens (the
      hardware type and flags columns), white space, the MAC token, and any text
      after it. */
  ghost predicate MatchesRowPattern(line: string, ipText: string, macText: string) {
    exists ws1, hwType, ws2, flags, ws3, rest ::
      IsDottedQuad(ipText) && IsRun(ws1, Space) && IsRun(hwType, Word) && IsRun(ws2, Space) &&
      IsRun(flags, Word) && IsRun(ws3, Space) && IsMacToken(macText) &&
      line == ipText + ws1 + hwType + ws2 + flags + ws3 + macText + rest
  }

  // ---------------------------------------------------------------------------
  // The matcher: each piece looks at the line from a position and gives the
  // position just after what it matched.

  /** The length of the longest run of class-`k` characters in `s` from position `i`. */
  function RunLength(s: string, i: nat, k: CharClass): (n: nat)
    requires i <= |s|
    ensures i + n <= |s|
    ensures i + n == |s| || !InClass(s[i + n], k)
    decreases |s| - i
  {
    if i < |s| && InClass(s[i], k) then 1 + RunLength(s, i + 1, k) else 0
  }

  /** Every character the run covers is of class `k`. */
  lemma {:induction false} RunLengthAll(s: string, i: nat, k: CharClass)
    requires i <= |s|
    ensures forall j :: i <= j < i + RunLength(s, i, k) ==> InClass(s[j], k)
    decreases |s| - i
  {
    if i < |s| && InClass(s[i], k) {
      RunLengthAll(s, i + 1, k);
    }
  }

  /** `[0-9]{1,3}` at position `i`, taken as a maximal digit run. */
  function DecGroupEnd(s: string, i: nat): (r: Option<nat>)
    requires i <= |s|
    ensures r.Some? ==> i + 1 <= r.value <= i + 3 && r.value <= |s|
  {
    var n := RunLength(s, i, Digit);
    if 1 <= n <= 3 then Some(i + n) else None
  }

  /** `[0-9]{1,3}\.` at position `i`. */
  function GroupDotEnd(s: string, i: nat): (r: Option<nat>)
    requires i <= |s|
    ensures r.Some? ==> i + 2 <= r.value <= |s|
  {
    match DecGroupEnd(s, i)
    case None => None
    case Some(e) => if e < |s| && s[e] == '.' then Some(e + 1) else None
  }

  /** `(?:[0-9]{1,3}\.){3}[0-9]{1,3}` at position `i`. */
  function DottedQuadEnd(s: string, i: nat): (r: Option<nat>)
    requires i <= |s|
    ensures r.Some? ==> i <= r.value <= |s|
  {
    match GroupDotEnd(s, i)
    case None => None
    case Some(e1) =>
      match GroupDotEnd(s, e1)
      case None => None
      case Some(e2) =>
        match GroupDotEnd(s, e2)
        case None => None
        case Some(e3) => DecGroupEnd(s, e3)
  }

  /** `k+` at position `i`. */
  function RunPlusEnd(s: string, i: nat, k: CharClass): (r: Option<nat>)
    requires i <= |s|
    ensures r.Some? ==> i + 1 <= r.value <= |s|
  {
    var n := RunLength(s, i, k);
    if n >= 1 then Some(i + n) else None
  }

  /** `(?:\s+\w+){2}\s+` at position `i`: the hardware-type and flags columns
      and the white space before the MAC column. */
  function ColumnsEnd(s: string, i: nat): (r: Option<nat>)
    requires i <= |s|
    ensures r.Some? ==> i <= r.value <= |s|
  {
    match RunPlusEnd(s, i, Space)
    case None => None
    case Some(e1) =>
      match RunPlusEnd(s, e1, Word)
      case None => None
      case Some(e2) =>
        match RunPlusEnd(s, e2, Space)
        case None => None
        case Some(e3) =>
          match RunPlusEnd(s, e3, Word)
          case None => None
          case Some(e4) => RunPlusEnd(s, e4, Space)
  }

  /** The two groups of a successful match. */
  datatype RowMatch = RowMatch(ipText: string, macText: string)

  /** `LineRegex.Match(line)`: the match anchored at the start of the line, or None. */
  function MatchRow(line: string): (r: Option<RowMatch>)
    ensures r.Some? ==> r.value.ipText <= line && IsMacToken(r.value.macText)
  {
    match DottedQuadEnd(line, 0)
    case None => None
    case Some(q) =>
      match ColumnsEnd(line, q)
      case None => None
      case Some(c) =>
        if c + 17 <= |line| && IsMacToken(line[c..c + 17])
        then Some(RowMatch(line[..q], line[c..c + 17]))
        else None
  }

  // ---------------------------------------------------------------------------
  // The matcher accepts exactly the pattern

  /** `t` occurs in `s` at position `i`. */
  predicate Occurs(s: string, i: nat, t: string) {
    i + |t| <= |s| && forall j :: 0 <= j < |t| ==> s[i + j] == t[j]
  }

  lemma OccursSplit(s: string, i: nat, a: string, b: string)
    requires Occurs(s, i, a + b)
    ensures Occurs(s, i, a) && Occurs(s, i + |a|, b)
  {
    forall j | 0 <= j < |a| ensures s[i + j] == a[j] {
      assert (a + b)[j] == a[j];
    }
    forall j | 0 <= j < |b| ensures s[i + |a| + j] == b[j] {
      assert (a + b)[|a| + j] == b[j];
    }
  }

  lemma SliceJoin(s: string, i: nat, j: nat, k: nat)
    requires i <= j <= k <= |s|
    ensures s[i..j] + s[j..k] == s[i..k]
  {
  }

  lemma OccursSlice(s: string, i: nat, t: string)
    requires Occurs(s, i, t)
    ensures s[i..i + |t|] == t
  {
    forall j | 0 <= j < |t| ensures s[i..i + |t|][j] == t[j] {
      assert s[i + j] == t[j];
    }
  }

  /** A maximal run: a class-`k` text at `i` that the next character does not continue. */
  lemma RunAt(s: string, i: nat, t: string, k: CharClass)
    requires Occurs(s, i, t) && AllIn(t, k)
    requires i + |t| == |s| || !InClass(s[i + |t|], k)
    ensures RunLength(s, i, k) == |t|
  {
    RunLengthAll(s, i, k);
    forall j | i <= j < i + |t| ensures InClass(s[j], k) {
      assert s[i + (j - i)] == t[j - i];
    }
  }

  /** A dotted quad at `i` that is not followed by a digit is matched whole. */
  lemma {:induction false} DottedQuadAt(s: string, i: nat, ip: string)
    requires Occurs(s, i, ip) && IsDottedQuad(ip)
    requires i + |ip| == |s| || !InClass(s[i + |ip|], Digit)
    ensures DottedQuadEnd(s, i) == Some(i + |ip|)
  {
    var a, b, c, d :|
      IsDecGroup(a) && IsDecGroup(b) && IsDecGroup(c) && IsDecGroup(d) &&
      ip == a + "." + b + "." + c + "." + d;
    QuadOccurs(s, i, a, b, c, d);
    var e1 := i + |a| + 1;
    var e2 := e1 + |b| + 1;
    var e3 := e2 + |c| + 1;
    GroupDotAt(s, i, a);
    GroupDotAt(s, e1, b);
    GroupDotAt(s, e2, c);
    DecGroupAt(s, e3, d);
  }

  lemma GroupDotAt(s: string, i: nat, g: string)
    requires Occurs(s, i, g) && IsDecGroup(g)
    requires i + |g| < |s| && s[i + |g|] == '.'
    ensures GroupDotEnd(s, i) == Some(i + |g| + 1)
  {
    RunAt(s, i, g, Digit);
  }

  lemma DecGroupAt(s: string, i: nat, g: string)
    requires Occurs(s, i, g) && IsDecGroup(g)
    requires i + |g| == |s| || !InClass(s[i + |g|], Digit)
    ensures DecGroupEnd(s, i) == Some(i + |g|)
  {
    RunAt(s, i, g, Digit);
  }

  lemma QuadOccurs(s: string, i: nat, a: string, b: string, c: string, d: string)
    requires Occurs(s, i, a + "." + b + "." + c + "." + d)
    ensures var e1 := i + |a| + 1; var e2 := e1 + |b| + 1; var e3 := e2 + |c| + 1;
      Occurs(s, i, a) && s[e1 - 1] == '.' && Occurs(s, e1, b) && s[e2 - 1] == '.' &&
      Occurs(s, e2, c) && s[e3 - 1] == '.' && Occurs(s, e3, d)
  {
    OccursSplit(s, i, a + "." + b + "." + c + ".", d);
    OccursSplit(s, i, a + "." + b + "." + c, ".");
    OccursSplit(s, i, a + "." + b + ".", c);
    OccursSplit(s, i, a + "." + b, ".");
    OccursSplit(s, i, a + ".", b);
    OccursSplit(s, i, a, ".");
    OccursAt(s, i + |a|, ".", 0);
    OccursAt(s, i + |a| + 1 + |b|, ".", 0);
    OccursAt(s, i + |a| + 1 + |b| + 1 + |c|, ".", 0);
  }

  lemma OccursAt(s: string, i: nat, t: string, j: nat)
    requires Occurs(s, i, t) && j < |t|
    ensures s[i + j] == t[j]
  {
  }

  lemma DottedQuadSound(s: string, i: nat)
    requires i <= |s| && DottedQuadEnd(s, i).Some?
    ensures IsDottedQuad(s[i..DottedQuadEnd(s, i).value])
    ensures var q := DottedQuadEnd(s, i).value; q == |s| || !InClass(s[q], Digit)
  {
    var e1 := GroupDotEnd(s, i).value;
    var e2 := GroupDotEnd(s, e1).value;
    var e3 := GroupDotEnd(s, e2).value;
    var q := DecGroupEnd(s, e3).value;
    GroupDotSound(s, i);
    GroupDotSound(s, e1);
    GroupDotSound(s, e2);
    DecGroupSound(s, e3);
    var a, b, c, d := s[i..e1 - 1], s[e1..e2 - 1], s[e2..e3 - 1], s[e3..q];
    DotJoin(s, i, e1, e2, e3, q);
    QuadOf(s[i..q], a, b, c, d);
  }

  lemma QuadOf(t: string, a: string, b: string, c: string, d: string)
    requires IsDecGroup(a) && IsDecGroup(b) && IsDecGroup(c) && IsDecGroup(d)
    requires t == a + "." + b + "." + c + "." + d
    ensures IsDottedQuad(t)
  {
  }

  lemma DecGroupSound(s: string, i: nat)
    requires i <= |s| && DecGroupEnd(s, i).Some?
    ensures IsDecGroup(s[i..DecGroupEnd(s, i).value])
  {
    RunLengthAll(s, i, Digit);
  }

  lemma GroupDotSound(s: string, i: nat)
    requires i <= |s| && GroupDotEnd(s, i).Some?
    ensures var e := GroupDotEnd(s, i).value; IsDecGroup(s[i..e - 1]) && s[e - 1] == '.'
  {
    DecGroupSound(s, i);
  }

  lemma RunPlusSound(s: string, i: nat, k: CharClass)
    requires i <= |s| && RunPlusEnd(s, i, k).Some?
    ensures IsRun(s[i..RunPlusEnd(s, i, k).value], k)
  {
    RunLengthAll(s, i, k);
  }

  lemma DotJoin(s: string, i: nat, e1: nat, e2: nat, e3: nat, q: nat)
    requires i < e1 - 1 < e1 < e2 - 1 < e2 < e3 - 1 < e3 <= q <= |s|
    requires s[e1 - 1] == '.' && s[e2 - 1] == '.' && s[e3 - 1] == '.'
    ensures s[i..q] == s[i..e1 - 1] + "." + s[e1..e2 - 1] + "." + s[e2..e3 - 1] + "." + s[e3..q]
  {
    DotSplit(s, i, e3, q);
    DotSplit(s, i, e2, e3 - 1);
    DotSplit(s, i, e1, e2 - 1);
  }

  lemma DotSplit(s: string, x: nat, d: nat, y: nat)
    requires x <= d - 1 < d <= y <= |s| && s[d - 1] == '.'
    ensures s[x..y] == s[x..d - 1] + "." + s[d..y]
  {
    assert s[d - 1..d] == ".";
    SliceJoin(s, x, d - 1, d);
    SliceJoin(s, x, d, y);
  }

  /** The two columns and the spaces around them, at `i`, followed by a
      non-space, are matched whole. */
  lemma {:induction false} ColumnsAt(s: string, i: nat, ws1: string, hwType: string, ws2: string, flags: string, ws3: string)
    requires IsRun(ws1, Space) && IsRun(hwType, Word) && IsRun(ws2, Space) && IsRun(flags, Word) && IsRun(ws3, Space)
    requires var e1 := i + |ws1|; var e2 := e1 + |hwType|; var e3 := e2 + |ws2|; var e4 := e3 + |flags|;
      Occurs(s, i, ws1) && Occurs(s, e1, hwType) && Occurs(s, e2, ws2) && Occurs(s, e3, flags) && Occurs(s, e4, ws3)
    requires var e := i + |ws1| + |hwType| + |ws2| + |flags| + |ws3|; e == |s| || !InClass(s[e], Space)
    ensures ColumnsEnd(s, i) == Some(i + |ws1| + |hwType| + |ws2| + |flags| + |ws3|)
  {
    var e1 := i + |ws1|;
    var e2 := e1 + |hwType|;
    var e3 := e2 + |ws2|;
    var e4 := e3 + |flags|;
    OccursAt(s, e1, hwType, 0);
    OccursAt(s, e2, ws2, 0);
    OccursAt(s, e3, flags, 0);
    OccursAt(s, e4, ws3, 0);
    RunPlusAt(s, i, ws1, Space);
    RunPlusAt(s, e1, hwType, Word);
    RunPlusAt(s, e2, ws2, Space);
    RunPlusAt(s, e3, flags, Word);
    RunPlusAt(s, e4, ws3, Space);
  }

  lemma RunPlusAt(s: string, i: nat, t: string, k: CharClass)
    requires Occurs(s, i, t) && IsRun(t, k)
    requires i + |t| == |s| || !InClass(s[i + |t|], k)
    ensures RunPlusEnd(s, i, k) == Some(i + |t|)
  {
    RunAt(s, i, t, k);
  }

  lemma ColumnsSound(s: string, i: nat)
    requires i <= |s| && ColumnsEnd(s, i).Some?
    ensures exists ws1, hwType, ws2, flags, ws3 ::
      IsRun(ws1, Space) && IsRun(hwType, Word) && IsRun(ws2, Space) && IsRun(flags, Word) && IsRun(ws3, Space) &&
      s[i..ColumnsEnd(s, i).value] == ws1 + hwType + ws2 + flags + ws3
    ensures var c := ColumnsEnd(s, i).value; c == |s| || !InClass(s[c], Space)
  {
    var e1 := RunPlusEnd(s, i, Space).value;
    var e2 := RunPlusEnd(s, e1, Word).value;
    var e3 := RunPlusEnd(s, e2, Space).value;
    var e4 := RunPlusEnd(s, e3, Word).value;
    var c := RunPlusEnd(s, e4, Space).value;
    RunPlusSound(s, i, Space);
    RunPlusSound(s, e1, Word);
    RunPlusSound(s, e2, Space);
    RunPlusSound(s, e3, Word);
    RunPlusSound(s, e4, Space);
    var ws1, hwType, ws2, flags, ws3 := s[i..e1], s[e1..e2], s[e2..e3], s[e3..e4], s[e4..c];
    assert IsRun(ws1, Space) && IsRun(hwType, Word) && IsRun(ws2, Space) && IsRun(flags, Word) && IsRun(ws3, Space);
    ColumnsJoin(s, i, e1, e2, e3, e4, c);
  }

  lemma ColumnsJoin(s: string, i: nat, e1: nat, e2: nat, e3: nat, e4: nat, c: nat)
    requires i <= e1 <= e2 <= e3 <= e4 <= c <= |s|
    ensures s[i..c] == s[i..e1] + s[e1..e2] + s[e2..e3] + s[e3..e4] + s[e4..c]
  {
    SliceJoin(s, i, e1, e2);
    SliceJoin(s, i, e2, e3);
    SliceJoin(s, i, e3, e4);
    SliceJoin(s, i, e4, c);
  }

  /** The matcher finds a row exactly when the pattern matches it, and then
      yields the pattern's two groups; so a row can match in one way only. */
  lemma MatchRowExact(line: string, ipText: string, macText: string)
    ensures MatchRow(line) == Some(RowMatch(ipText, macText)) <==> MatchesRowPattern(line, ipText, macText)
  {
    if MatchRow(line) == Some(RowMatch(ipText, macText)) {
      MatchRowSound(line);
    }
    if MatchesRowPattern(line, ipText, macText) {
      MatchRowComplete(line, ipText, macText);
    }
  }

  lemma MatchRowSound(line: string)
    requires MatchRow(line).Some?
    ensures MatchesRowPattern(line, MatchRow(line).value.ipText, MatchRow(line).value.macText)
  {
    var q := DottedQuadEnd(line, 0).value;
    var c := ColumnsEnd(line, q).value;
    DottedQuadSound(line, 0);
    ColumnsSound(line, q);
    var ws1, hwType, ws2, flags, ws3 :|
      IsRun(ws1, Space) && IsRun(hwType, Word) && IsRun(ws2, Space) && IsRun(flags, Word) && IsRun(ws3, Space) &&
      line[q..c] == ws1 + hwType + ws2 + flags + ws3;
    RowJoin(line, q, c, ws1, hwType, ws2, flags, ws3);
    assert line[0..q] == line[..q];
  }

  lemma RowJoin(line: string, q: nat, c: nat, ws1: string, hwType: string, ws2: string, flags: string, ws3: string)
    requires q <= c && c + 17 <= |line|
    requires line[q..c] == ws1 + hwType + ws2 + flags + ws3
    ensures line == line[..q] + ws1 + hwType + ws2 + flags + ws3 + line[c..c + 17] + line[c + 17..]
  {
    SliceJoin(line, 0, q, c);
    SliceJoin(line, 0, c, c + 17);
    SliceJoin(line, 0, c + 17, |line|);
    assert line[..q] + line[q..c] == line[..q] + ws1 + hwType + ws2 + flags + ws3;
  }

  lemma MatchRowComplete(line: string, ipText: string, macText: string)
    requires MatchesRowPattern(line, ipText, macText)
    ensures MatchRow(line) == Some(RowMatch(ipText, macText))
  {
    var ws1, hwType, ws2, flags, ws3, rest :|
      IsDottedQuad(ipText) && IsRun(ws1, Space) && IsRun(hwType, Word) && IsRun(ws2, Space) &&
      IsRun(flags, Word) && IsRun(ws3, Space) && IsMacToken(macText) &&
      line == ipText + ws1 + hwType + ws2 + flags + ws3 + macText + rest;
    var r := RowPieces(ipText, ws1, hwType, ws2, flags, ws3, macText);
    RowOccurs(line, r, rest);
    MatchRowAt(line, r);
  }

  /** The pieces of a row the pattern describes, in order. */
  datatype RowPieces = RowPieces(ipText: string, ws1: string, hwType: string, ws2: string, flags: string,
                                 ws3: string, macText: string)
  {
    /** Where the hardware-type run starts, and so on: the start of each piece. */
    function ColumnsStart(): nat { |ipText| }
    function HwTypeStart(): nat { ColumnsStart() + |ws1| }
    function Ws2Start(): nat { HwTypeStart() + |hwType| }
    function FlagsStart(): nat { Ws2Start() + |ws2| }
    function Ws3Start(): nat { FlagsStart() + |flags| }
    function MacStart(): nat { Ws3Start() + |ws3| }

    ghost predicate WellFormed() {
      IsDottedQuad(ipText) && IsRun(ws1, Space) && IsRun(hwType, Word) && IsRun(ws2, Space) &&
      IsRun(flags, Word) && IsRun(ws3, Space) && IsMacToken(macText)
    }

    /** Every piece occurs in `line` at its own start. */
    predicate LaidIn(line: string) {
      Occurs(line, 0, ipText) && Occurs(line, ColumnsStart(), ws1) && Occurs(line, HwTypeStart(), hwType) &&
      Occurs(line, Ws2Start(), ws2) && Occurs(line, FlagsStart(), flags) && Occurs(line, Ws3Start(), ws3) &&
      Occurs(line, MacStart(), macText)
    }
  }

  /** A row built from the pattern's pieces, each found at its own place, is matched with those groups. */
  lemma MatchRowAt(line: string, r: RowPieces)
    requires r.WellFormed() && r.LaidIn(line)
    ensures MatchRow(line) == Some(RowMatch(r.ipText, r.macText))
  {
    QuadAtStart(line, r);
    ColumnsBeforeMac(line, r);
    MacAt(line, r);
    MatchRowOf(line, r.ColumnsStart(), r.MacStart(), r.ipText, r.macText);
  }

  /** The dotted quad at the start of a row, followed by white space, is group 1. */
  lemma QuadAtStart(line: string, r: RowPieces)
    requires r.WellFormed() && r.LaidIn(line)
    ensures r.ColumnsStart() <= |line|
    ensures DottedQuadEnd(line, 0) == Some(r.ColumnsStart()) && line[..r.ColumnsStart()] == r.ipText
  {
    var q := r.ColumnsStart();
    OccursAt(line, q, r.ws1, 0);
    DottedQuadAt(line, 0, r.ipText);
    OccursSlice(line, 0, r.ipText);
    assert line[0..q] == line[..q];
  }

  /** The columns after group 1 end where the MAC token starts. */
  lemma ColumnsBeforeMac(line: string, r: RowPieces)
    requires r.WellFormed() && r.LaidIn(line)
    ensures r.MacStart() <= |line| && ColumnsEnd(line, r.ColumnsStart()) == Some(r.MacStart())
  {
    assert IsHexDigit(r.macText[0]);
    OccursAt(line, r.MacStart(), r.macText, 0);
    ColumnsAt(line, r.ColumnsStart(), r.ws1, r.hwType, r.ws2, r.flags, r.ws3);
  }

  /** The MAC token is the 17 characters from where it starts. */
  lemma MacAt(line: string, r: RowPieces)
    requires r.WellFormed() && r.LaidIn(line)
    ensures r.MacStart() + 17 <= |line| && line[r.MacStart()..r.MacStart() + 17] == r.macText
  {
    OccursSlice(line, r.MacStart(), r.macText);
  }

  lemma MatchRowOf(line: string, q: nat, c: nat, ipText: string, macText: string)
    requires q <= |line| && DottedQuadEnd(line, 0) == Some(q) && line[..q] == ipText
    requires c + 17 <= |line| && ColumnsEnd(line, q) == Some(c) && line[c..c + 17] == macText
    requires IsMacToken(macText)
    ensures MatchRow(line) == Some(RowMatch(ipText, macText))
  {
  }

  lemma RowOccurs(line: string, r: RowPieces, rest: string)
    requires line == r.ipText + r.ws1 + r.hwType + r.ws2 + r.flags + r.ws3 + r.macText + rest
    ensures r.LaidIn(line)
  {
    var RowPieces(ipText, ws1, hwType, ws2, flags, ws3, macText) := r;
    OccursSelf(line);
    OccursSplit(line, 0, ipText + ws1 + hwType + ws2 + flags + ws3 + macText, rest);
    OccursSplit(line, 0, ipText + ws1 + hwType + ws2 + flags + ws3, macText);
    OccursSplit(line, 0, ipText + ws1 + hwType + ws2 + flags, ws3);
    OccursSplit(line, 0, ipText + ws1 + hwType + ws2, flags);
    OccursSplit(line, 0, ipText + ws1 + hwType, ws2);
    OccursSplit(line, 0, ipText + ws1, hwType);
    OccursSplit(line, 0, ipText, ws1);
  }

  lemma OccursSelf(s: string)
    ensures Occurs(s, 0, s)
  {
  }
}
