/**
 * The decorated-line parser of the offline symbolicator: `StackFrame.FromString`
 * and the one regular expression it relies on,
 *
 *     ^\s*(at (.*)) IL_([A-Fa-f0-9]*) T_([A-Fa-f0-9]*)
 *
 * written out as a hand-made matcher with the same backtracking outcome.
 */
module StackFrames {
  import opened Wrappers
  import opened Numerals

  /** The parsed frame; its integer fields are C# `int`s. */
  datatype StackFrame = StackFrame(
    symbol: string,
    offset: int32,
    tokenType: int32,
    tokenValue: int32,
    partialLine: string)

  /** Where the pattern's four groups lie in a line it matches. */
  datatype LineMatch = LineMatch(symbolStart: nat, symbolEnd: nat, offsetDigits: string, tokenDigits: string)

  /** .NET's `\s`: `[\f\n\r\t\v\x85\p{Z}]`. */
  predicate IsRegexSpace(c: char) {
    var n := c as int;
    (0x09 <= n <= 0x0D) || n == 0x20 || n == 0x85 || n == 0xA0 || n == 0x1680
    || (0x2000 <= n <= 0x200A) || n == 0x2028 || n == 0x2029 || n == 0x202F
    || n == 0x205F || n == 0x3000
  }

  /** .NET's `.` without the single-line option: anything but a line feed. */
  predicate IsRegexDot(c: char) {
    c != '\n'
  }

  /** No line feed anywhere in `s`. */
  predicate NoLineFeed(s: string) {
    forall i :: 0 <= i < |s| ==> s[i] != '\n'
  }

  /** The end of the longest run of characters satisfying `p` that starts at `i`. */
  function Span(s: string, i: nat, p: char -> bool): (k: nat)
    requires i <= |s|
    ensures i <= k <= |s|
    ensures forall j :: i <= j < k ==> p(s[j])
    ensures k < |s| ==> !p(s[k])
    decreases |s| - i
  {
    if i == |s| || !p(s[i]) then i else Span(s, i + 1, p)
  }

  /** Where `(.*)` starts: after the leading white space and `at `, if they are there. */
  function SymbolStart(line: string): (a: Option<nat>)
    ensures a.Some? ==> 3 <= a.value <= |line| && line[a.value - 3..a.value] == "at "
  {
    var w := Span(line, 0, IsRegexSpace);
    if w + 3 <= |line| && line[w..w + 3] == "at " then Some(w + 3) else None
  }

  /** The longest run of hexadecimal digits starting at `i`. */
  function HexRun(s: string, i: nat): (h: string)
    requires i <= |s|
    ensures AllHex(h) && h == s[i..Span(s, i, IsHexDigit)]
  {
    var k := Span(s, i, IsHexDigit);
    assert forall j :: 0 <= j < k - i ==> s[i..k][j] == s[i + j];
    s[i..k]
  }

  /**
   * The rest of the pattern, ` IL_([A-Fa-f0-9]*) T_`, matches at position `e`.
   * The offset digits can only be the longest hexadecimal run: a shorter one
   * is followed by a digit, not by the space of ` T_`.
   */
  predicate SuffixAt(line: string, e: nat) {
    && e + 4 <= |line|
    && line[e..e + 4] == " IL_"
    && var j := Span(line, e + 4, IsHexDigit);
       j + 3 <= |line| && line[j..j + 3] == " T_"
  }

  /** `(.*)` may end at `e` and the rest of the pattern match from there. */
  predicate ViableEnd(line: string, a: nat, e: nat)
    requires a <= |line|
  {
    a <= e <= Span(line, a, IsRegexDot) && SuffixAt(line, e)
  }

  /** The line matches the pattern. */
  ghost predicate Matches(line: string) {
    SymbolStart(line).Some? && exists e :: ViableEnd(line, SymbolStart(line).value, e)
  }

  /** Backtracking of the greedy `(.*)`: the last position in `[a, e]` where the rest matches. */
  function LastSuffix(line: string, a: nat, e: nat): (r: Option<nat>)
    requires a <= e <= |line|
    ensures r.Some? ==> a <= r.value <= e && SuffixAt(line, r.value)
    ensures r.Some? ==> forall k :: r.value < k <= e ==> !SuffixAt(line, k)
    ensures r.None? ==> forall k :: a <= k <= e ==> !SuffixAt(line, k)
    decreases e - a
  {
    if SuffixAt(line, e) then Some(e)
    else if e == a then None
    else LastSuffix(line, a, e - 1)
  }

  /** The offset and token groups once `(.*)` ends at `e`. */
  function Groups(line: string, a: nat, e: nat): (m: LineMatch)
    requires SuffixAt(line, e)
    ensures m.symbolStart == a && m.symbolEnd == e
    ensures AllHex(m.offsetDigits) && AllHex(m.tokenDigits)
  {
    var j := Span(line, e + 4, IsHexDigit);
    LineMatch(a, e, HexRun(line, e + 4), HexRun(line, j + 3))
  }

  /**
   * `LineRegex().Match(line)`: the groups of the match, or nothing. The symbol
   * group ends at the LAST viable position, because `.*` is greedy.
   */
  function MatchLine(line: string): (r: Option<LineMatch>)
    ensures r.Some? <==> Matches(line)
    ensures r.Some? ==>
      var m := r.value;
      && SymbolStart(line) == Some(m.symbolStart)
      && ViableEnd(line, m.symbolStart, m.symbolEnd)
      && (forall e :: m.symbolEnd < e ==> !ViableEnd(line, m.symbolStart, e))
      && r.value == Groups(line, m.symbolStart, m.symbolEnd)
  {
    match SymbolStart(line)
    case None => None
    case Some(a) =>
      match LastSuffix(line, a, Span(line, a, IsRegexDot))
      case None => None
      case Some(e) =>
        assert ViableEnd(line, a, e);
        Some(Groups(line, a, e))
  }

  /** The symbol group contains no line feed: `.` does not match one. */
  function SymbolText(line: string, m: LineMatch): (symbol: string)
    requires SymbolStart(line) == Some(m.symbolStart) && ViableEnd(line, m.symbolStart, m.symbolEnd)
    ensures symbol == line[m.symbolStart..m.symbolEnd]
    ensures NoLineFeed(symbol)
    ensures line[m.symbolStart - 3..m.symbolEnd] == "at " + symbol
  {
    var symbol := line[m.symbolStart..m.symbolEnd];
    assert forall i :: 0 <= i < |symbol| ==> symbol[i] == line[m.symbolStart + i];
    assert line[m.symbolStart - 3..m.symbolEnd] == line[m.symbolStart - 3..m.symbolStart] + symbol;
    symbol
  }

  /**
   * The body of `StackFrame.FromString` once the pattern has matched: the
   * hexadecimal conversions, which throw on empty offset digits, on fewer
   * than three token digits and on values beyond 32 bits.
   */
  function FrameOf(line: string, m: LineMatch): (r: Outcome<StackFrame>)
    requires SymbolStart(line) == Some(m.symbolStart) && ViableEnd(line, m.symbolStart, m.symbolEnd)
    requires AllHex(m.offsetDigits) && AllHex(m.tokenDigits)
    ensures r.Returned? ==>
      && r.value.symbol == line[m.symbolStart..m.symbolEnd]
      && r.value.partialLine == "    at " + r.value.symbol
      && NoLineFeed(r.value.symbol)
  {
    var symbol := SymbolText(line, m);
    var offset := ParseHexInt32(m.offsetDigits);
    var tokenString := m.tokenDigits;
    if |tokenString| < 2 then Threw
    else
      AllHexSplit(tokenString, 2);
      var tokenType := ParseHexInt32(tokenString[..2]);
      var tokenValue := ParseHexInt32(tokenString[2..]);
      if offset.Threw? || tokenType.Threw? || tokenValue.Threw? then Threw
      else
        var partialLine := "    " + line[m.symbolStart - 3..m.symbolEnd];
        assert partialLine == "    at " + symbol;
        Returned(StackFrame(symbol, offset.value, tokenType.value, tokenValue.value, partialLine))
  }

  /**
   * `StackFrame.FromString`: `null` exactly when the line does not match the
   * pattern; otherwise a frame, or the exception a conversion throws.
   */
  function FromString(line: string): (r: Outcome<Option<StackFrame>>)
    ensures r == Returned(None) <==> !Matches(line)
    ensures r.Returned? && r.value.Some? ==>
      var f := r.value.value;
      && f.partialLine == "    at " + f.symbol
      && NoLineFeed(f.symbol)
  {
    match MatchLine(line)
    case None => Returned(None)
    case Some(m) =>
      match FrameOf(line, m)
      case Threw => Threw
      case Returned(f) => Returned(Some(f))
  }

  /**
   * What the conversions make of a matched line: empty offset digits or
   * fewer than three token digits throw; up to eight digits each convert,
   * the first two token digits giving the token type and the rest its value.
   */
  lemma FrameOfConversions(line: string, m: LineMatch)
    requires SymbolStart(line) == Some(m.symbolStart) && ViableEnd(line, m.symbolStart, m.symbolEnd)
    requires AllHex(m.offsetDigits) && AllHex(m.tokenDigits)
    ensures |m.offsetDigits| == 0 || |m.tokenDigits| < 3 ==> FrameOf(line, m) == Threw
    ensures 1 <= |m.offsetDigits| <= 8 && 3 <= |m.tokenDigits| <= 8 ==>
      && FrameOf(line, m).Returned?
      && var f := FrameOf(line, m).value;
         && Unsigned32(f.offset) == HexValue(m.offsetDigits)
         && (AllHexSplit(m.tokenDigits, 2);
             && f.tokenType as int == HexValue(m.tokenDigits[..2])
             && f.tokenValue as int == HexValue(m.tokenDigits[2..]))
         && 0 <= f.tokenType as int < 256 && 0 <= f.tokenValue as int < TwoTo24
  {
    var tok := m.tokenDigits;
    if |tok| >= 2 {
      AllHexSplit(tok, 2);
      HexValueBound(tok[..2]);
      assert Pow16(2) == 256;
      if |tok| == 2 {
        assert ParseHexInt32(tok[2..]) == Threw;
      }
    }
    if 1 <= |m.offsetDigits| <= 8 && 3 <= |tok| <= 8 {
      EightDigitsFit(m.offsetDigits);
      HexValueBound(tok[2..]);
      Pow16Monotonic(|tok| - 2, 6);
      assert Pow16(6) == TwoTo24;
      var tokenType, tokenValue := HexValue(tok[..2]), HexValue(tok[2..]);
      assert ParseHexInt32(tok[..2]) == Returned(tokenType as int32);
      assert ParseHexInt32(tok[2..]) == Returned(tokenValue as int32);
    }
  }

  /** The text a decorated frame line consists of. */
  function DecoratedLine(symbol: string, offsetDigits: string, tokenDigits: string): string {
    "    at " + symbol + " IL_" + offsetDigits + " T_" + tokenDigits
  }

  /** The leading `    at ` of a decorated line. */
  lemma DecoratedPrefix(symbol: string, h: string, k: string)
    ensures var line := DecoratedLine(symbol, h, k);
      && |line| >= 7 + |symbol|
      && line[0] == ' ' && line[1] == ' ' && line[2] == ' ' && line[3] == ' '
      && line[4..7] == "at "
      && line[7..7 + |symbol|] == symbol
  {
    var rest := " IL_" + h + " T_" + k;
    assert DecoratedLine(symbol, h, k) == "    at " + symbol + rest;
  }

  /** The offset part of a decorated line: ` IL_` and the offset digits. */
  lemma DecoratedOffsetChars(symbol: string, h: string, k: string)
    ensures var line := DecoratedLine(symbol, h, k);
      var e := 7 + |symbol|;
      && e + 4 + |h| + 3 <= |line|
      && line[e..e + 4] == " IL_"
      && line[e + 4..e + 4 + |h|] == h
  {
    var line := DecoratedLine(symbol, h, k);
    var e := 7 + |symbol|;
    var before := "    at " + symbol;
    assert line == before + " IL_" + h + (" T_" + k);
    assert line[e..e + 4] == " IL_";
    assert line[e + 4..e + 4 + |h|] == h;
  }

  /** The token part of a decorated line: ` T_` and the token digits, up to the end. */
  lemma DecoratedTokenChars(symbol: string, h: string, k: string)
    ensures var line := DecoratedLine(symbol, h, k);
      var j := 7 + |symbol| + 4 + |h|;
      && |line| == j + 3 + |k|
      && line[j..j + 3] == " T_"
      && line[j + 3..] == k
  {
    var line := DecoratedLine(symbol, h, k);
    var j := 7 + |symbol| + 4 + |h|;
    var before := "    at " + symbol + " IL_" + h;
    assert line == before + " T_" + k;
    assert line[j..j + 3] == " T_";
    assert line[j + 3..] == k;
  }

  lemma NoLineFeedAppend(a: string, b: string)
    requires NoLineFeed(a) && NoLineFeed(b)
    ensures NoLineFeed(a + b)
  {
    assert forall i :: 0 <= i < |a + b| ==> (a + b)[i] == if i < |a| then a[i] else b[i - |a|];
  }

  lemma HexHasNoLineFeed(s: string)
    requires AllHex(s)
    ensures NoLineFeed(s)
  {
  }

  /** A decorated line has a line feed only where its symbol has one. */
  lemma DecoratedNoLineFeed(symbol: string, h: string, k: string)
    requires NoLineFeed(symbol) && AllHex(h) && AllHex(k)
    ensures NoLineFeed(DecoratedLine(symbol, h, k))
  {
    HexHasNoLineFeed(h);
    HexHasNoLineFeed(k);
    var l1 := "    at " + symbol;
    NoLineFeedAppend("    at ", symbol);
    NoLineFeedAppend(l1, " IL_");
    NoLineFeedAppend(l1 + " IL_", h);
    NoLineFeedAppend(l1 + " IL_" + h, " T_");
    NoLineFeedAppend(l1 + " IL_" + h + " T_", k);
  }

  /** `^\s*(at ` of the pattern: the symbol starts right after `    at `. */
  lemma DecoratedSymbolStart(symbol: string, h: string, k: string)
    ensures SymbolStart(DecoratedLine(symbol, h, k)) == Some(7)
  {
    var line := DecoratedLine(symbol, h, k);
    DecoratedPrefix(symbol, h, k);
    assert line[4] == line[4..7][0];
    assert forall j :: 0 <= j < 4 ==> IsRegexSpace(line[j]);
    assert !IsRegexSpace(line[4]);
    assert Span(line, 0, IsRegexSpace) == 4;
  }

  /** `.` can run from the symbol to the end of a decorated line. */
  lemma DecoratedDotSpan(symbol: string, h: string, k: string)
    requires NoLineFeed(symbol)
    requires AllHex(h) && AllHex(k)
    ensures var line := DecoratedLine(symbol, h, k);
      7 <= |line| && Span(line, 7, IsRegexDot) == |line|
  {
    var line := DecoratedLine(symbol, h, k);
    DecoratedPrefix(symbol, h, k);
    DecoratedNoLineFeed(symbol, h, k);
    assert forall i :: 7 <= i < |line| ==> IsRegexDot(line[i]);
  }

  /** The offset digits of a decorated line are its longest hexadecimal run after ` IL_`. */
  lemma DecoratedOffsetRun(symbol: string, h: string, k: string)
    requires AllHex(h)
    ensures var line := DecoratedLine(symbol, h, k);
      var j := 7 + |symbol| + 4 + |h|;
      && j + 3 <= |line|
      && Span(line, j - |h|, IsHexDigit) == j
      && HexRun(line, j - |h|) == h
  {
    var line := DecoratedLine(symbol, h, k);
    DecoratedOffsetChars(symbol, h, k);
    DecoratedTokenChars(symbol, h, k);
    var j := 7 + |symbol| + 4 + |h|;
    var digits := line[j - |h|..j];
    assert line[j] == line[j..j + 3][0];
    assert forall i :: j - |h| <= i < j ==> line[i] == digits[i - (j - |h|)];
    assert Span(line, j - |h|, IsHexDigit) == j;
  }

  /** The token digits of a decorated line are its longest hexadecimal run after ` T_`. */
  lemma DecoratedTokenRun(symbol: string, h: string, k: string)
    requires AllHex(k)
    ensures var line := DecoratedLine(symbol, h, k);
      var j := 7 + |symbol| + 4 + |h|;
      && j + 3 <= |line|
      && Span(line, j + 3, IsHexDigit) == |line|
      && HexRun(line, j + 3) == k
  {
    var line := DecoratedLine(symbol, h, k);
    DecoratedTokenChars(symbol, h, k);
    var j := 7 + |symbol| + 4 + |h|;
    var digits := line[j + 3..];
    assert forall i :: j + 3 <= i < |line| ==> line[i] == digits[i - (j + 3)];
    assert Span(line, j + 3, IsHexDigit) == |line|;
  }

  /** The groups of a decorated line, once `(.*)` ends right after the symbol. */
  lemma DecoratedGroups(symbol: string, h: string, k: string)
    requires AllHex(h) && AllHex(k)
    ensures SuffixAt(DecoratedLine(symbol, h, k), 7 + |symbol|)
    ensures Groups(DecoratedLine(symbol, h, k), 7, 7 + |symbol|) == LineMatch(7, 7 + |symbol|, h, k)
  {
    DecoratedSuffix(symbol, h, k);
    DecoratedOffsetRun(symbol, h, k);
    DecoratedTokenRun(symbol, h, k);
  }

  /** ` IL_([A-Fa-f0-9]*) T_` matches right after the symbol of a decorated line. */
  lemma DecoratedSuffix(symbol: string, h: string, k: string)
    requires AllHex(h) && AllHex(k)
    ensures SuffixAt(DecoratedLine(symbol, h, k), 7 + |symbol|)
  {
    DecoratedOffsetChars(symbol, h, k);
    DecoratedTokenChars(symbol, h, k);
    DecoratedOffsetRun(symbol, h, k);
  }

  /** No ` IL_` starts inside the offset part or later: ` IL_` has a space, then a letter `I`. */
  lemma DecoratedNoLaterSuffix(symbol: string, h: string, k: string, e': nat)
    requires AllHex(h) && AllHex(k)
    requires 7 + |symbol| < e'
    ensures !SuffixAt(DecoratedLine(symbol, h, k), e')
  {
    var line := DecoratedLine(symbol, h, k);
    var e := 7 + |symbol|;
    var j := e + 4 + |h|;
    if e' + 4 <= |line| {
      DecoratedOffsetChars(symbol, h, k);
      DecoratedTokenChars(symbol, h, k);
      var w := line[e'..e' + 4];
      assert w[0] == line[e'] && w[1] == line[e' + 1];
      if e' < e + 4 {
        assert line[e'] == line[e..e + 4][e' - e];
        assert w[0] != ' ';
      } else if e' < j {
        assert line[e'] == h[e' - e - 4];
        assert IsHexDigit(w[0]);
      } else if e' == j {
        assert line[j + 1] == line[j..j + 3][1];
        assert w[1] == 'T';
      } else if e' < j + 3 {
        assert line[e'] == line[j..j + 3][e' - j];
        assert w[0] != ' ';
      } else {
        assert line[e'] == k[e' - j - 3];
        assert IsHexDigit(w[0]);
      }
      assert w != " IL_";
    }
  }

  /**
   * A line laid out as the decorator writes it matches with exactly the
   * pieces it was made from, whatever the symbol text holds, as long as it
   * has no line feed: the greedy `(.*)` stops at the last viable suffix, and
   * nothing after the real ` IL_` qualifies.
   */
  lemma DecoratedLineMatches(symbol: string, offsetDigits: string, tokenDigits: string)
    requires NoLineFeed(symbol)
    requires AllHex(offsetDigits) && AllHex(tokenDigits)
    ensures MatchLine(DecoratedLine(symbol, offsetDigits, tokenDigits))
         == Some(LineMatch(7, 7 + |symbol|, offsetDigits, tokenDigits))
  {
    var h, k := offsetDigits, tokenDigits;
    var line := DecoratedLine(symbol, h, k);
    var e := 7 + |symbol|;
    DecoratedSymbolStart(symbol, h, k);
    DecoratedDotSpan(symbol, h, k);
    DecoratedGroups(symbol, h, k);
    forall e' | e < e'
      ensures !SuffixAt(line, e')
    {
      DecoratedNoLaterSuffix(symbol, h, k, e');
    }
    assert LastSuffix(line, 7, |line|) == Some(e);
  }

  /**
   * A decorated line with up to eight offset digits and eight token digits
   * parses to its symbol, the offset, and the token split into the value of
   * its first two digits and of the other six.
   */
  lemma DecoratedLineParses(symbol: string, h: string, k: string)
    requires NoLineFeed(symbol)
    requires AllHex(h) && AllHex(k) && 1 <= |h| <= 8 && |k| == 8
    ensures AllHex(k[..2]) && AllHex(k[2..])
    ensures FromString(DecoratedLine(symbol, h, k)).Returned?
    ensures var r := FromString(DecoratedLine(symbol, h, k)).value;
      && r.Some?
      && r.value.symbol == symbol
      && Unsigned32(r.value.offset) == HexValue(h)
      && r.value.tokenType as int == HexValue(k[..2])
      && r.value.tokenValue as int == HexValue(k[2..])
      && r.value.partialLine == "    at " + symbol
  {
    AllHexSplit(k, 2);
    var line := DecoratedLine(symbol, h, k);
    var m := LineMatch(7, 7 + |symbol|, h, k);
    DecoratedLineMatches(symbol, h, k);
    DecoratedPrefix(symbol, h, k);
    FrameOfConversions(line, m);
  }
}
