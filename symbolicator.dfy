/**
 * The offline symbolicator: for each decorated frame it finds the binary
 * module named after the symbol, looks the method up in that module's debug
 * metadata and maps the instruction offset to a source location through the
 * method's sequence points. Reading executable images and debug-metadata
 * containers is not modelled: an opened module is a `MetadataReader` value,
 * and opening one is a function supplied by the caller.
 */
module Symbolicator {
  import opened Wrappers
  import opened Numerals
  import opened StackFrames

  // ------------------------------------------------------------ debug data

  /** One sequence point: where a statement's instructions begin and its source range. */
  datatype SequencePoint = SequencePoint(
    offset: int32,
    isHidden: bool,
    startLine: int32,
    startColumn: int32,
    endLine: int32,
    endColumn: int32)

  /** C#'s `default(SequencePoint)`. */
  const DefaultPoint := SequencePoint(0, false, 0, 0, 0, 0)

  /** A method's debug information: its document (`None` for a nil handle) and its points. */
  datatype MethodDebugInformation = MethodDebugInformation(document: Option<string>, sequencePoints: seq<SequencePoint>)

  /** An opened debug-metadata reader, as the method-debug-information rows it holds. */
  datatype MetadataReader = MetadataReader(methods: map<nat, MethodDebugInformation>)

  /**
   * The row of `MetadataTokens.MethodDebugInformationHandle(tokenValue)`: the
   * low 24 bits of the number; row 0 is the nil handle.
   */
  function HandleRow(tokenValue: int32): (row: nat)
    ensures row < TwoTo24
    ensures 0 <= tokenValue as int < TwoTo24 ==> row == tokenValue as int
  {
    (tokenValue as int) % TwoTo24
  }

  // ------------------------------------------------------------ matching

  /** The points the scan does not skip, in order. */
  function Visible(points: seq<SequencePoint>): (v: seq<SequencePoint>)
    ensures |v| <= |points|
  {
    if |points| == 0 then []
    else
      var last := points[|points| - 1];
      Visible(points[..|points| - 1]) + (if last.isHidden then [] else [last])
  }

  /** The visible points are exactly the points that are not hidden. */
  lemma {:induction false} VisibleMembers(points: seq<SequencePoint>)
    ensures forall p :: p in Visible(points) <==> p in points && !p.isHidden
  {
    if |points| > 0 {
      var init := points[..|points| - 1];
      VisibleMembers(init);
      assert points == init + [points[|points| - 1]];
    }
  }

  lemma {:induction false} VisibleAppend(a: seq<SequencePoint>, b: seq<SequencePoint>)
    ensures Visible(a + b) == Visible(a) + Visible(b)
  {
    if |b| == 0 {
      assert a + b == a;
    } else {
      var b' := b[..|b| - 1];
      assert (a + b)[..|a + b| - 1] == a + b';
      VisibleAppend(a, b');
    }
  }

  /**
   * The scan stops at visible point `i`: it has the target offset, or it lies
   * beyond the target while an earlier visible point is remembered.
   */
  predicate StopsAt(v: seq<SequencePoint>, target: int32, i: nat)
    requires i < |v|
  {
    v[i].offset == target || (0 < i && v[i].offset > target)
  }

  /** The first visible point at or after `from` where the scan stops, or `|v|`. */
  function FirstStop(v: seq<SequencePoint>, target: int32, from: nat): (i: nat)
    requires from <= |v|
    ensures from <= i <= |v|
    ensures i < |v| ==> StopsAt(v, target, i)
    ensures forall k :: from <= k < i ==> !StopsAt(v, target, k)
    decreases |v| - from
  {
    if from == |v| || StopsAt(v, target, from) then from else FirstStop(v, target, from + 1)
  }

  /**
   * The point whose source location is reported for `target`: the visible
   * point where the scan stops if its offset is the target, otherwise the
   * visible point before it; nothing when there is no visible point.
   */
  function Matched(points: seq<SequencePoint>, target: int32): (r: Option<SequencePoint>)
    ensures r.Some? ==> r.value in points && !r.value.isHidden
    ensures r.None? <==> forall p :: p in points ==> p.isHidden
  {
    var v := Visible(points);
    VisibleMembers(points);
    var i := FirstStop(v, target, 0);
    if i < |v| && v[i].offset == target then Some(v[i])
    else if 0 < i then Some(v[i - 1])
    else
      assert |v| == 0;
      None
  }

  /** Visible offsets never decrease: the order compilers emit sequence points in. */
  predicate NonDecreasing(v: seq<SequencePoint>) {
    forall i, j :: 0 <= i < j < |v| ==> v[i].offset <= v[j].offset
  }

  /**
   * An exact offset match is reported as soon as the scan reaches it: the
   * first visible point with the target offset wins when no visible point
   * between the first one and it lies beyond the target.
   */
  lemma ExactMatchWins(points: seq<SequencePoint>, target: int32, k: nat)
    requires k < |Visible(points)| && Visible(points)[k].offset == target
    requires forall j :: 0 <= j < k ==> Visible(points)[j].offset != target
    requires forall j :: 0 < j < k ==> Visible(points)[j].offset < target
    ensures Matched(points, target) == Some(Visible(points)[k])
  {
    var v := Visible(points);
    assert StopsAt(v, target, k);
    assert forall j :: 0 <= j < k ==> !StopsAt(v, target, j);
  }

  /** In a non-decreasing table, a visible point with the target offset is always the one reported. */
  lemma ExactMatchSorted(points: seq<SequencePoint>, target: int32, k: nat)
    requires NonDecreasing(Visible(points))
    requires k < |Visible(points)| && Visible(points)[k].offset == target
    requires forall j :: 0 <= j < k ==> Visible(points)[j].offset != target
    ensures Matched(points, target) == Some(Visible(points)[k])
  {
    var v := Visible(points);
    forall j | 0 < j < k ensures v[j].offset < target {
      assert v[j].offset <= v[k].offset;
    }
    ExactMatchWins(points, target, k);
  }

  /**
   * Without an exact match, a non-decreasing table reports the visible point
   * with the greatest offset below the target: the statement the faulting
   * instruction lies inside.
   */
  lemma NearestPrecedingPoint(points: seq<SequencePoint>, target: int32, k: nat)
    requires NonDecreasing(Visible(points))
    requires forall j :: 0 <= j < |Visible(points)| ==> Visible(points)[j].offset != target
    requires k < |Visible(points)| && Visible(points)[k].offset < target
    requires k + 1 == |Visible(points)| || Visible(points)[k + 1].offset > target
    ensures Matched(points, target) == Some(Visible(points)[k])
    ensures forall j :: 0 <= j < |Visible(points)| && Visible(points)[j].offset < target ==>
      Visible(points)[j].offset <= Visible(points)[k].offset
  {
    var v := Visible(points);
    assert forall j :: 0 <= j <= k ==> !StopsAt(v, target, j) by {
      forall j | 0 <= j <= k ensures !StopsAt(v, target, j) {
        assert v[j].offset <= v[k].offset;
      }
    }
    assert k + 1 < |v| ==> StopsAt(v, target, k + 1);
    forall j | 0 <= j < |v| && v[j].offset < target ensures v[j].offset <= v[k].offset {
      if j <= k {
        assert v[j].offset <= v[k].offset;
      }
    }
  }

  /**
   * A target below every visible offset still resolves, to the first visible
   * point: the scan remembers it before it can stop.
   */
  lemma BelowEveryPoint(points: seq<SequencePoint>, target: int32)
    requires |Visible(points)| > 0
    requires forall j :: 0 <= j < |Visible(points)| ==> Visible(points)[j].offset > target
    ensures Matched(points, target) == Some(Visible(points)[0])
  {
    var v := Visible(points);
    assert !StopsAt(v, target, 0);
    assert 1 < |v| ==> StopsAt(v, target, 1);
  }

  // ------------------------------------------------------------ frame text

  /** The document name written in a resolved line; `?` for a nil document handle. */
  function DocumentName(document: Option<string>): string {
    match document
    case None => "?"
    case Some(name) => name
  }

  /** `GetSourceLocation`: `StartLine [StartLine:StartColumn-EndLine:EndColumn]`. */
  function GetSourceLocation(point: SequencePoint): string {
    FormatDecimal(point.startLine) + " [" + FormatDecimal(point.startLine) + ":"
    + FormatDecimal(point.startColumn) + "-" + FormatDecimal(point.endLine) + ":"
    + FormatDecimal(point.endColumn) + "]"
  }

  /** Lines and columns that are not negative, as every valid debug-metadata file holds. */
  predicate ValidRange(point: SequencePoint) {
    point.startLine >= 0 && point.startColumn >= 0 && point.endLine >= 0 && point.endColumn >= 0
  }

  /** Digits, then a separator starting with a non-digit: both parts are recovered. */
  lemma DigitsThenSeparator(x: string, y: string, sep: string, r: string, r': string)
    requires DecimalDigitsOf(x) && DecimalDigitsOf(y)
    requires |sep| > 0 && !IsDecimalDigit(sep[0])
    requires x + (sep + r) == y + (sep + r')
    ensures x == y && r == r'
  {
    DigitsBeforeSeparator(x, y, sep + r, sep + r');
    assert r == (sep + r)[|sep|..] && r' == (sep + r')[|sep|..];
  }

  /** The location text, grouped from the right. */
  lemma SourceLocationGrouped(point: SequencePoint)
    ensures var a, b, c, d := FormatDecimal(point.startLine), FormatDecimal(point.startColumn),
                              FormatDecimal(point.endLine), FormatDecimal(point.endColumn);
      GetSourceLocation(point) == a + (" [" + (a + (":" + (b + ("-" + (c + (":" + (d + "]"))))))))
  {
  }

  /**
   * The location text determines the range: two points with valid ranges
   * that print the same location have the same start and end lines and
   * columns.
   */
  lemma SourceLocationDeterminesRange(p: SequencePoint, q: SequencePoint)
    requires ValidRange(p) && ValidRange(q)
    requires GetSourceLocation(p) == GetSourceLocation(q)
    ensures p.startLine == q.startLine && p.startColumn == q.startColumn
    ensures p.endLine == q.endLine && p.endColumn == q.endColumn
  {
    var a, b, c, d := FormatDecimal(p.startLine), FormatDecimal(p.startColumn),
                      FormatDecimal(p.endLine), FormatDecimal(p.endColumn);
    var a', b', c', d' := FormatDecimal(q.startLine), FormatDecimal(q.startColumn),
                          FormatDecimal(q.endLine), FormatDecimal(q.endColumn);
    FormatDecimalReadsBack(p.startLine);
    FormatDecimalReadsBack(p.startColumn);
    FormatDecimalReadsBack(p.endLine);
    FormatDecimalReadsBack(p.endColumn);
    FormatDecimalReadsBack(q.startLine);
    FormatDecimalReadsBack(q.startColumn);
    FormatDecimalReadsBack(q.endLine);
    FormatDecimalReadsBack(q.endColumn);
    SourceLocationGrouped(p);
    SourceLocationGrouped(q);
    var tail := c + (":" + (d + "]"));
    var tail' := c' + (":" + (d' + "]"));
    DigitsThenSeparator(a, a', " [", a + (":" + (b + ("-" + tail))), a' + (":" + (b' + ("-" + tail'))));
    DigitsThenSeparator(a, a', ":", b + ("-" + tail), b' + ("-" + tail'));
    DigitsThenSeparator(b, b', "-", tail, tail');
    DigitsThenSeparator(c, c', ":", d + "]", d' + "]");
    assert d + "]" == d + ("]" + "") && d' + "]" == d' + ("]" + "");
    DigitsThenSeparator(d, d', "]", "", "");
    FormatDecimalInjective(p.startLine, q.startLine);
    FormatDecimalInjective(p.startColumn, q.startColumn);
    FormatDecimalInjective(p.endLine, q.endLine);
    FormatDecimalInjective(p.endColumn, q.endColumn);
  }

  function ResolvedLine(partialLine: string, documentName: string, point: SequencePoint): string {
    partialLine + " in " + documentName + ":" + GetSourceLocation(point)
  }

  /**
   * What `SymbolicateFrame` returns or throws: the partial line for a nil
   * handle or a method without visible points, an exception for a row the
   * reader does not hold, and otherwise the partial line with the matched
   * point's source location.
   */
  function FrameText(frame: StackFrame, reader: MetadataReader): Outcome<string> {
    var row := HandleRow(frame.tokenValue);
    if row == 0 then Returned(frame.partialLine)
    else if row !in reader.methods then Threw
    else
      var info := reader.methods[row];
      match Matched(info.sequencePoints, frame.offset)
      case None => Returned(frame.partialLine)
      case Some(point) => Returned(ResolvedLine(frame.partialLine, DocumentName(info.document), point))
  }

  /** No stop anywhere in `before`, as the scan establishes it point by point. */
  predicate NoStop(before: seq<SequencePoint>, target: int32) {
    forall k :: 0 <= k < |before| ==> !StopsAt(before, target, k)
  }

  /** A visible point the scan does not stop at extends the stretch without a stop. */
  lemma NoStopExtend(before: seq<SequencePoint>, point: SequencePoint, target: int32)
    requires NoStop(before, target)
    requires point.offset != target && !(|before| > 0 && point.offset > target)
    ensures NoStop(before + [point], target)
  {
    var after := before + [point];
    forall k | 0 <= k < |after| ensures !StopsAt(after, target, k) {
      if k < |before| {
        assert after[k] == before[k];
        assert !StopsAt(before, target, k);
      }
    }
  }

  /**
   * When the scan stops at visible point `points[n]`, the matched point is
   * that point on an exact offset, and otherwise the last visible point
   * before it.
   */
  lemma ScanStopsAt(points: seq<SequencePoint>, n: nat, target: int32)
    requires n < |points| && !points[n].isHidden
    requires NoStop(Visible(points[..n]), target)
    requires points[n].offset == target || (|Visible(points[..n])| > 0 && points[n].offset > target)
    ensures points[n].offset == target ==> Matched(points, target) == Some(points[n])
    ensures points[n].offset != target ==>
      Matched(points, target) == Some(Visible(points[..n])[|Visible(points[..n])| - 1])
  {
    var before := Visible(points[..n]);
    VisibleAround(points, n);
    FirstStopAfter(Visible(points), before, target);
  }

  /** The visible points around a visible point `points[n]`. */
  lemma VisibleAround(points: seq<SequencePoint>, n: nat)
    requires n < |points| && !points[n].isHidden
    ensures |Visible(points[..n])| < |Visible(points)|
    ensures Visible(points)[..|Visible(points[..n])|] == Visible(points[..n])
    ensures Visible(points)[|Visible(points[..n])|] == points[n]
  {
    var point := points[n];
    assert points == points[..n] + [point] + points[n + 1..];
    VisibleAppend(points[..n], [point]);
    VisibleAppend(points[..n] + [point], points[n + 1..]);
    assert Visible([point]) == [point] by {
      assert [point][..0] == [];
    }
  }

  /** The scan's first stop is right after a stretch without one. */
  lemma FirstStopAfter(v: seq<SequencePoint>, before: seq<SequencePoint>, target: int32)
    requires |before| < |v| && v[..|before|] == before
    requires NoStop(before, target) && StopsAt(v, target, |before|)
    ensures FirstStop(v, target, 0) == |before|
  {
    forall k | 0 <= k < |before| ensures !StopsAt(v, target, k) {
      assert v[k] == before[k];
      assert !StopsAt(before, target, k);
    }
  }

  /** One more point: it joins the visible points unless it is hidden. */
  lemma VisibleSnoc(points: seq<SequencePoint>, n: nat)
    requires n < |points|
    ensures Visible(points[..n + 1]) == Visible(points[..n]) + (if points[n].isHidden then [] else [points[n]])
  {
    assert points[..n + 1][..n] == points[..n];
  }


  /** When the scan runs off the end, the matched point is the last visible one, if any. */
  lemma ScanCompletes(points: seq<SequencePoint>, target: int32)
    requires NoStop(Visible(points), target)
    ensures Matched(points, target)
         == if |Visible(points)| > 0 then Some(Visible(points)[|Visible(points)| - 1]) else None
  {
  }

  /**
   * `SymbolicateFrame`: one pass over the method's sequence points that skips
   * hidden points, returns on an exact offset, and otherwise remembers the
   * last visible point until a later one lies beyond the offset.
   */
  method SymbolicateFrame(frame: StackFrame, reader: MetadataReader) returns (r: Outcome<string>)
    ensures r == FrameText(frame, reader)
  {
    var row := HandleRow(frame.tokenValue);
    if row == 0 {
      return Returned(frame.partialLine);
    }
    if row !in reader.methods {
      return Threw;
    }
    var info := reader.methods[row];
    var documentName := DocumentName(info.document);
    var points := info.sequencePoints;
    if |points| == 0 {
      return Returned(frame.partialLine);
    }

    var previousPoint := DefaultPoint;
    var hasPreviousPoint := false;
    var n := 0;
    while n < |points|
      invariant 0 <= n <= |points|
      invariant NoStop(Visible(points[..n]), frame.offset)
      invariant hasPreviousPoint <==> |Visible(points[..n])| > 0
      invariant hasPreviousPoint ==> previousPoint == Visible(points[..n])[|Visible(points[..n])| - 1]
    {
      var point := points[n];
      VisibleSnoc(points, n);
      if point.isHidden {
        assert Visible(points[..n]) + [] == Visible(points[..n]);
        n := n + 1;
        continue;
      }
      if point.offset == frame.offset {
        ScanStopsAt(points, n, frame.offset);
        return Returned(ResolvedLine(frame.partialLine, documentName, point));
      }
      if hasPreviousPoint && point.offset > frame.offset {
        ScanStopsAt(points, n, frame.offset);
        break;
      }
      NoStopExtend(Visible(points[..n]), point, frame.offset);
      previousPoint := point;
      hasPreviousPoint := true;
      n := n + 1;
    }

    if n == |points| {
      assert points[..n] == points;
      ScanCompletes(points, frame.offset);
    }
    if hasPreviousPoint {
      return Returned(ResolvedLine(frame.partialLine, documentName, previousPoint));
    }
    return Returned(frame.partialLine);
  }

  /**
   * A frame keeps its partial line, unresolved, when the method handle is nil
   * or the method has no visible sequence point.
   */
  lemma UnresolvedFrameKeepsPartialLine(frame: StackFrame, reader: MetadataReader)
    requires HandleRow(frame.tokenValue) == 0
          || (HandleRow(frame.tokenValue) in reader.methods
              && forall p :: p in reader.methods[HandleRow(frame.tokenValue)].sequencePoints ==> p.isHidden)
    ensures FrameText(frame, reader) == Returned(frame.partialLine)
  {
  }

  /**
   * A method with a visible point always resolves, and the line names the
   * document (`?` when it has none) and the range of a visible point.
   */
  lemma ResolvedFrameLine(frame: StackFrame, reader: MetadataReader)
    requires HandleRow(frame.tokenValue) in reader.methods && HandleRow(frame.tokenValue) != 0
    requires exists p :: p in reader.methods[HandleRow(frame.tokenValue)].sequencePoints && !p.isHidden
    ensures var info := reader.methods[HandleRow(frame.tokenValue)];
      exists p :: p in info.sequencePoints && !p.isHidden
        && FrameText(frame, reader)
           == Returned(frame.partialLine + " in " + DocumentName(info.document) + ":" + GetSourceLocation(p))
  {
    var info := reader.methods[HandleRow(frame.tokenValue)];
    var p := Matched(info.sequencePoints, frame.offset).value;
    assert FrameText(frame, reader) == Returned(ResolvedLine(frame.partialLine, DocumentName(info.document), p));
  }

  // ------------------------------------------------------------ module resolution

  /** The index of the last `.` in `s[..n]`, if any. */
  function LastDot(s: string, n: nat): (r: Option<nat>)
    requires n <= |s|
    ensures r.None? <==> forall i :: 0 <= i < n ==> s[i] != '.'
    ensures r.Some? ==> r.value < n && s[r.value] == '.' && forall i :: r.value < i < n ==> s[i] != '.'
  {
    if n == 0 then None
    else if s[n - 1] == '.' then Some(n - 1)
    else LastDot(s, n - 1)
  }

  /** `RemoveSymbolTail`: the text before the last `.`, or `null` when there is none. */
  function RemoveSymbolTail(symbol: string): (r: Option<string>)
    ensures r.None? <==> forall i :: 0 <= i < |symbol| ==> symbol[i] != '.'
    ensures r.Some? ==>
      && |r.value| < |symbol|
      && r.value == symbol[..|r.value|]
      && symbol[|r.value|] == '.'
      && forall i :: |r.value| < i < |symbol| ==> symbol[i] != '.'
  {
    match LastDot(symbol, |symbol|)
    case None => None
    case Some(index) => Some(symbol[..index])
  }

  /** The names `FindDllPath` tries, in order: the symbol, then each cut at its last `.`. */
  function Candidates(symbol: string): (names: seq<string>)
    ensures 1 <= |names| && names[0] == symbol
    decreases |symbol|
  {
    var tail := RemoveSymbolTail(symbol);
    if tail.None? then [symbol] else [symbol] + Candidates(tail.value)
  }

  /**
   * Each candidate name is the previous one cut at its last `.`, and the last
   * one has no `.` left: the search tries strictly shorter names and ends.
   */
  lemma {:induction false} CandidatesChain(symbol: string)
    ensures var names := Candidates(symbol);
      && (forall i :: 0 <= i < |names| - 1 ==> RemoveSymbolTail(names[i]) == Some(names[i + 1]))
      && RemoveSymbolTail(names[|names| - 1]) == None
    decreases |symbol|
  {
    var names := Candidates(symbol);
    var tail := RemoveSymbolTail(symbol);
    if tail.Some? {
      var rest := Candidates(tail.value);
      CandidatesChain(tail.value);
      assert names == [symbol] + rest;
      forall i | 0 < i < |names| - 1 ensures RemoveSymbolTail(names[i]) == Some(names[i + 1]) {
        assert names[i] == rest[i - 1] && names[i + 1] == rest[i];
      }
      assert names[|names| - 1] == rest[|rest| - 1];
    }
  }

  /** Every candidate name is a prefix of the symbol. */
  lemma {:induction false} CandidatesArePrefixes(symbol: string)
    ensures forall name :: name in Candidates(symbol) ==> |name| <= |symbol| && name == symbol[..|name|]
    decreases |symbol|
  {
    var names := Candidates(symbol);
    var tail := RemoveSymbolTail(symbol);
    if tail.Some? {
      var shorter := tail.value;
      var rest := Candidates(shorter);
      CandidatesArePrefixes(shorter);
      assert names == [symbol] + rest;
      forall name | name in rest ensures |name| <= |symbol| && name == symbol[..|name|] {
        assert name == shorter[..|name|];
        assert shorter == symbol[..|shorter|];
      }
    }
  }

  /** `Path.Combine` on a Unix file system. */
  function Combine(directory: string, file: string): string {
    if |file| > 0 && file[0] == '/' then file
    else if |directory| == 0 then file
    else if directory[|directory| - 1] == '/' then directory + file
    else directory + "/" + file
  }

  function DllPath(binariesPath: string, name: string): string {
    Combine(binariesPath, name + ".dll")
  }

  /** The first of `names` whose dll exists among `files`. */
  function FirstExisting(binariesPath: string, names: seq<string>, files: set<string>): Option<string> {
    if |names| == 0 then None
    else if DllPath(binariesPath, names[0]) in files then Some(DllPath(binariesPath, names[0]))
    else FirstExisting(binariesPath, names[1..], files)
  }

  /**
   * The search finds nothing exactly when no name's dll exists; otherwise it
   * finds the dll of the first name whose dll exists.
   */
  lemma {:induction false} FirstExistingFindsFirst(binariesPath: string, names: seq<string>, files: set<string>)
    ensures var r := FirstExisting(binariesPath, names, files);
      && (r.None? <==> forall i :: 0 <= i < |names| ==> DllPath(binariesPath, names[i]) !in files)
      && (r.Some? ==> r.value in files && exists i :: (
        && 0 <= i < |names|
        && r.value == DllPath(binariesPath, names[i])
        && forall j :: 0 <= j < i ==> DllPath(binariesPath, names[j]) !in files))
  {
    if |names| > 0 && DllPath(binariesPath, names[0]) !in files {
      var rest := names[1..];
      FirstExistingFindsFirst(binariesPath, rest, files);
      assert forall i :: 0 < i < |names| ==> names[i] == rest[i - 1];
      var r := FirstExisting(binariesPath, rest, files);
      if r.Some? {
        var i :| 0 <= i < |rest| && r.value == DllPath(binariesPath, rest[i])
          && forall j :: 0 <= j < i ==> DllPath(binariesPath, rest[j]) !in files;
        assert r.value == DllPath(binariesPath, names[i + 1]);
      }
    }
  }

  function ResolveDll(binariesPath: string, symbol: string, files: set<string>): Option<string> {
    FirstExisting(binariesPath, Candidates(symbol), files)
  }

  /** `FindDllPath`: try `<name>.dll` for each candidate name, longest first. */
  method FindDllPath(binariesPath: string, symbol: string, files: set<string>) returns (r: Option<string>)
    ensures r == ResolveDll(binariesPath, symbol, files)
  {
    ghost var names := Candidates(symbol);
    CandidatesChain(symbol);
    var str := Some(symbol);
    ghost var i := 0;
    while str.Some?
      invariant 0 <= i <= |names|
      invariant str.Some? <==> i < |names|
      invariant str.Some? ==> str.value == names[i]
      invariant FirstExisting(binariesPath, names, files) == FirstExisting(binariesPath, names[i..], files)
      decreases |names| - i
    {
      var path := DllPath(binariesPath, str.value);
      if path in files {
        return Some(path);
      }
      assert names[i..][1..] == names[i + 1..];
      str := RemoveSymbolTail(str.value);
      i := i + 1;
    }
    return None;
  }

  /** With only `A.B.dll` present, `A.B.C` resolves to it: `A.B.C.dll` is missing, `A.B.dll` is next. */
  lemma ResolveToShorterName()
    ensures ResolveDll("bin", "A.B.C", {"bin/A.B.dll"}) == Some("bin/A.B.dll")
  {
    assert LastDot("A.B.C", 5) == Some(3);
    assert "A.B.C"[..3] == "A.B";
    assert LastDot("A.B", 3) == Some(1);
    assert "A.B"[..1] == "A";
    assert Candidates("A.B.C")[..2] == ["A.B.C", "A.B"];
    assert DllPath("bin", "A.B.C") == "bin/A.B.C.dll";
    assert DllPath("bin", "A.B") == "bin/A.B.dll";
  }

  /** With only `A.B.dll` present, `A` resolves to nothing: names are only ever cut shorter. */
  lemma NoLongerName()
    ensures ResolveDll("bin", "A", {"bin/A.B.dll"}) == None
  {
    assert LastDot("A", 1) == None;
    assert Candidates("A") == ["A"];
    assert DllPath("bin", "A") == "bin/A.dll";
  }

  // ------------------------------------------------------------ orchestration

  /**
   * What the symbolicator works with: the binaries directory, the files that
   * exist there (`File.Exists`), and `GetMetadataReader`, which may find no
   * reader (`null`) or throw.
   */
  datatype Environment = Environment(
    binariesPath: string,
    files: set<string>,
    openReader: string -> Outcome<Option<MetadataReader>>)

  /**
   * What one input line becomes: printed verbatim when it is not decorated,
   * when no dll is found or when no reader opens or symbolication throws;
   * the frame's text otherwise. Exceptions from `FromString` and from
   * opening the reader are not caught.
   */
  function LineOutcome(env: Environment, line: string): Outcome<string> {
    match FromString(line)
    case Threw => Threw
    case Returned(None) => Returned(line)
    case Returned(Some(frame)) => FrameOutcome(env, line, frame)
  }

  /** What a decorated line becomes once its frame is parsed. */
  function FrameOutcome(env: Environment, line: string, frame: StackFrame): Outcome<string> {
    match ResolveDll(env.binariesPath, frame.symbol, env.files)
    case None => Returned(line)
    case Some(dllPath) =>
      match env.openReader(dllPath)
      case Threw => Threw
      case Returned(None) => Returned(line)
      case Returned(Some(reader)) =>
        match FrameText(frame, reader)
        case Threw => Returned(line)
        case Returned(text) => Returned(text)
  }

  /** The body of the loop over decorated lines: resolve the module, open it, symbolicate. */
  method SymbolicateDecoratedLine(env: Environment, line: string, frame: StackFrame) returns (r: Outcome<string>)
    ensures r == FrameOutcome(env, line, frame)
  {
    r := Returned(line);
    var dllPath := FindDllPath(env.binariesPath, frame.symbol, env.files);
    if dllPath.Some? {
      var reader := env.openReader(dllPath.value);
      if reader.Threw? {
        return Threw;
      }
      if reader.value.Some? {
        var text := SymbolicateFrame(frame, reader.value.value);
        if text.Returned? {
          r := text;
        }
      }
    }
  }

  /** One input line: parse it, then print it verbatim or symbolicated. */
  method SymbolicateLine(env: Environment, line: string) returns (r: Outcome<string>)
    ensures r == LineOutcome(env, line)
  {
    var frame := FromString(line);
    if frame.Threw? {
      return Threw;
    }
    if frame.value.None? {
      return Returned(line);
    }
    r := SymbolicateDecoratedLine(env, line, frame.value.value);
  }

  /** What a run prints, and whether an uncaught exception ended it early. */
  datatype Transcript = Transcript(printed: seq<string>, aborted: bool)

  /**
   * The run over `lines`, line by line, each line printed as `step` makes
   * it: an exception stops the run, and later lines are not read.
   */
  function Run(step: string -> Outcome<string>, lines: seq<string>): Transcript {
    if |lines| == 0 then Transcript([], false)
    else
      var before := Run(step, lines[..|lines| - 1]);
      if before.aborted then before
      else
        match step(lines[|lines| - 1])
        case Threw => Transcript(before.printed, true)
        case Returned(text) => Transcript(before.printed + [text], false)
  }

  lemma RunSnoc(step: string -> Outcome<string>, lines: seq<string>, n: nat)
    requires n < |lines|
    ensures Run(step, lines[..n + 1]) == (
      var before := Run(step, lines[..n]);
      if before.aborted then before
      else match step(lines[n])
        case Threw => Transcript(before.printed, true)
        case Returned(text) => Transcript(before.printed + [text], false))
  {
    assert lines[..n + 1][..n] == lines[..n];
  }

  /** Once a run has aborted, the lines after the one that threw change nothing. */
  lemma {:induction false} AbortedRunStops(step: string -> Outcome<string>, lines: seq<string>, n: nat)
    requires n <= |lines| && Run(step, lines[..n]).aborted
    ensures Run(step, lines) == Run(step, lines[..n])
    decreases |lines| - n
  {
    if n < |lines| {
      RunSnoc(step, lines, n);
      AbortedRunStops(step, lines, n + 1);
    } else {
      assert lines[..n] == lines;
    }
  }

  /**
   * A run prints one line per input line, in input order, each what `step`
   * makes of it; it aborts exactly when it stops short, and then the first
   * line not printed is one on which `step` threw.
   */
  lemma {:induction false} RunPrintsEachLine(step: string -> Outcome<string>, lines: seq<string>)
    ensures var t := Run(step, lines);
      && |t.printed| <= |lines|
      && (forall i :: 0 <= i < |t.printed| ==> step(lines[i]) == Returned(t.printed[i]))
      && (!t.aborted <==> |t.printed| == |lines|)
      && (t.aborted ==> step(lines[|t.printed|]).Threw?)
  {
    if |lines| > 0 {
      var n := |lines| - 1;
      var front := lines[..n];
      RunPrintsEachLine(step, front);
      var before := Run(step, front);
      if !before.aborted && step(lines[n]).Returned? {
        var text := step(lines[n]).value;
        assert Run(step, lines).printed == before.printed + [text];
        forall i | 0 <= i < |before.printed| + 1
          ensures step(lines[i]) == Returned((before.printed + [text])[i])
        {
          if i < |before.printed| {
            assert lines[i] == front[i];
          }
        }
      } else {
        forall i | 0 <= i < |before.printed|
          ensures step(lines[i]) == Returned(before.printed[i])
        {
          assert lines[i] == front[i];
        }
        if before.aborted {
          assert lines[|before.printed|] == front[|before.printed|];
        }
      }
    }
  }

  /**
   * `Symbolicate`: prints each line as `LineOutcome` says, and stops at the
   * first exception it does not catch.
   */
  method Symbolicate(env: Environment, lines: seq<string>) returns (output: seq<string>, aborted: bool)
    ensures Transcript(output, aborted) == Run(line => LineOutcome(env, line), lines)
  {
    ghost var step := line => LineOutcome(env, line);
    output, aborted := [], false;
    var n := 0;
    while n < |lines|
      invariant 0 <= n <= |lines|
      invariant Run(step, lines[..n]) == Transcript(output, false)
    {
      RunSnoc(step, lines, n);
      var printed := SymbolicateLine(env, lines[n]);
      assert step(lines[n]) == printed;
      if printed.Threw? {
        AbortedRunStops(step, lines, n + 1);
        return output, true;
      }
      output, n := output + [printed.value], n + 1;
    }
    assert lines[..n] == lines;
  }

  /**
   * A decorated line is printed verbatim when no dll is found, when no
   * reader is found for it, or when symbolicating the frame throws; an
   * exception while opening the reader is not caught.
   */
  lemma FrameOutcomeFallsBack(env: Environment, line: string, frame: StackFrame)
    ensures ResolveDll(env.binariesPath, frame.symbol, env.files).None? ==> FrameOutcome(env, line, frame) == Returned(line)
    ensures ResolveDll(env.binariesPath, frame.symbol, env.files).Some? ==>
      var attempt := env.openReader(ResolveDll(env.binariesPath, frame.symbol, env.files).value);
      && (attempt.Threw? ==> FrameOutcome(env, line, frame).Threw?)
      && (attempt == Returned(None) ==> FrameOutcome(env, line, frame) == Returned(line))
      && (attempt.Returned? && attempt.value.Some? && FrameText(frame, attempt.value.value).Threw? ==>
            FrameOutcome(env, line, frame) == Returned(line))
  {
  }

  /** A line that is not decorated is printed verbatim. */
  lemma UndecoratedLinePassesThrough(env: Environment, line: string)
    requires !Matches(line)
    ensures LineOutcome(env, line) == Returned(line)
  {
  }

  lemma PrefixOfAppends(a: string, b: string, c: string, d: string)
    ensures |a| <= |a + b + c + d| && (a + b + c + d)[..|a|] == a
  {
  }

  /**
   * Every line printed for a decorated frame is the input line itself, or
   * the frame's partial line, bare or followed by ` in ` and a location.
   */
  lemma DecoratedLineOutcome(env: Environment, line: string, frame: StackFrame)
    requires FrameOutcome(env, line, frame).Returned?
    ensures var text := FrameOutcome(env, line, frame).value;
      || text == line
      || text == frame.partialLine
      || (|frame.partialLine + " in "| <= |text| && text[..|frame.partialLine + " in "|] == frame.partialLine + " in ")
  {
    var text := FrameOutcome(env, line, frame).value;
    var prefix := frame.partialLine + " in ";
    var dllPath := ResolveDll(env.binariesPath, frame.symbol, env.files);
    if dllPath.Some? && env.openReader(dllPath.value).Returned? && env.openReader(dllPath.value).value.Some? {
      var reader := env.openReader(dllPath.value).value.value;
      var row := HandleRow(frame.tokenValue);
      if row != 0 && row in reader.methods {
        var info := reader.methods[row];
        var matched := Matched(info.sequencePoints, frame.offset);
        if matched.Some? {
          var location := GetSourceLocation(matched.value);
          PrefixOfAppends(prefix, DocumentName(info.document), ":", location);
        }
      }
    }
  }
}
