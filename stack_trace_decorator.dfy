// The decorating half: renders a captured stack trace as text in which
// every frame line ends with the frame's IL offset and its method's
// metadata token, so the frames can be symbolicated later.

module StackTraceDecorator {
  import opened Wrappers
  import opened Numerals
  import opened StackFrames

  /** A parameter as reflection reports it: the short name of its type, and its name, which may be null. */
  datatype ParameterInfo = ParameterInfo(typeName: string, name: Option<string>)

  /**
   * A method as reflection reports it. `reflectedTypeFullName` is `None`
   * when the method has no reflected type or that type has no full name;
   * `parameters` is `Threw` when asking for the parameters throws.
   */
  datatype MethodInfo = MethodInfo(
    reflectedTypeFullName: Option<string>,
    name: string,
    parameters: Outcome<seq<ParameterInfo>>,
    metadataToken: int32)

  /** A captured frame: its method, when the runtime knows it, and its IL offset (-1 when unknown). */
  datatype FrameInfo = FrameInfo(methodInfo: Option<MethodInfo>, ilOffset: int32)

  /**
   * The exception being reported: the full name of its type (`None` when it
   * is null) and its message (a null one reads as ""), or `Threw` when the
   * `Message` getter throws.
   */
  datatype ExceptionInfo = ExceptionInfo(typeFullName: Option<string>, message: Outcome<string>)

  // ------------------------------------------------------------ parameters

  /** One parameter: its type name, then a space and its name when the name is neither null nor empty. */
  function ParameterText(p: ParameterInfo): string {
    if p.name.Some? && |p.name.value| > 0 then p.typeName + " " + p.name.value else p.typeName
  }

  /** The parameters, each rendered by `ParameterText`, separated by ", ". */
  function ParametersText(ps: seq<ParameterInfo>): string
    decreases |ps|
  {
    if |ps| == 0 then ""
    else if |ps| == 1 then ParameterText(ps[0])
    else ParametersText(ps[..|ps| - 1]) + ", " + ParameterText(ps[|ps| - 1])
  }

  /** One more parameter: its text follows the others after a separator, or stands alone. */
  lemma ParametersTextSnoc(ps: seq<ParameterInfo>, i: nat)
    requires i < |ps|
    ensures ParametersText(ps[..i + 1])
         == if i == 0 then ParameterText(ps[0]) else ParametersText(ps[..i]) + ", " + ParameterText(ps[i])
  {
    assert ps[..i + 1][..i] == ps[..i];
  }

  lemma AppendsAssociate(a: string, b: string, c: string)
    ensures a + b + " " + c == a + (b + " " + c)
  {
  }

  lemma SeparatorAssociates(a: string, b: string)
    ensures a + ", " + b == a + (", " + b)
  {
  }

  lemma SeparatorsAssociate(a: string, b: string, c: string)
    ensures a + ", " + b + ", " + c == a + ", " + (b + ", " + c)
  {
  }

  /** Joining is associative: the text of two non-empty lists is their texts around one separator. */
  lemma {:induction false} ParametersTextConcat(ps: seq<ParameterInfo>, qs: seq<ParameterInfo>)
    requires |ps| > 0 && |qs| > 0
    ensures ParametersText(ps + qs) == ParametersText(ps) + ", " + ParametersText(qs)
    decreases |qs|
  {
    var all := ps + qs;
    var n := |all|;
    var last := ParameterText(qs[|qs| - 1]);
    assert all[n - 1] == qs[|qs| - 1];
    assert ParametersText(all) == ParametersText(all[..n - 1]) + ", " + last;
    if |qs| == 1 {
      assert all[..n - 1] == ps;
    } else {
      var front := qs[..|qs| - 1];
      assert all[..n - 1] == ps + front;
      ParametersTextConcat(ps, front);
      SeparatorsAssociate(ParametersText(ps), ParametersText(front), last);
    }
  }

  /** The text holds a line feed only when some type name or parameter name does. */
  lemma {:induction false} ParametersTextNoLineFeed(ps: seq<ParameterInfo>)
    requires forall i :: 0 <= i < |ps| ==> NoLineFeed(ps[i].typeName)
    requires forall i :: 0 <= i < |ps| ==> ps[i].name.Some? ==> NoLineFeed(ps[i].name.value)
    ensures NoLineFeed(ParametersText(ps))
    decreases |ps|
  {
    if |ps| > 1 {
      ParametersTextNoLineFeed(ps[..|ps| - 1]);
    }
  }

  /**
   * `TryGetMethodParameters`: the parameter list text and `true`, or
   * `false` and null when asking for the parameters throws.
   */
  method TryGetMethodParameters(methodInfo: MethodInfo) returns (ok: bool, parametersString: Option<string>)
    ensures ok <==> methodInfo.parameters.Returned?
    ensures ok ==> parametersString == Some(ParametersText(methodInfo.parameters.value))
    ensures !ok ==> parametersString == None
  {
    if methodInfo.parameters.Threw? {
      return false, None;
    }
    var parameters := methodInfo.parameters.value;
    var length := |parameters|;
    var sb := "";
    for i := 0 to length
      invariant sb == ParametersText(parameters[..i]) + (if 0 < i < length then ", " else "")
    {
      ParametersTextSnoc(parameters, i);
      ghost var before := sb;
      var parameter := parameters[i];
      sb := sb + parameter.typeName;
      if parameter.name.Some? && |parameter.name.value| > 0 {
        sb := sb + " ";
        sb := sb + parameter.name.value;
        AppendsAssociate(before, parameter.typeName, parameter.name.value);
      }
      assert sb == before + ParameterText(parameter);
      assert sb == ParametersText(parameters[..i + 1]) by {
        if i > 0 {
          SeparatorAssociates(ParametersText(parameters[..i]), ParameterText(parameter));
        }
      }
      if i < length - 1 {
        sb := sb + ", ";
      }
    }
    assert parameters[..length] == parameters;
    assert sb == ParametersText(parameters[..length]) + "";
    assert sb == ParametersText(parameters);
    return true, Some(sb);
  }

  // ------------------------------------------------------------ frame lines

  /** A frame is rendered when its method is known and has a reflected type with a full name. */
  predicate Renders(f: FrameInfo) {
    f.methodInfo.Some? && f.methodInfo.value.reflectedTypeFullName.Some?
  }

  /** The parameter text a frame line carries: empty when the parameters cannot be read. */
  function ShownParameters(m: MethodInfo): string {
    match m.parameters
    case Threw => ""
    case Returned(ps) => ParametersText(ps)
  }

  /** The symbol part of a rendered frame's line, which the parser reads back: `Type.Method(parameters)`. */
  function FrameSymbol(f: FrameInfo): string
    requires Renders(f)
  {
    var m := f.methodInfo.value;
    m.reflectedTypeFullName.value + "." + m.name + "(" + ShownParameters(m) + ")"
  }

  /**
   * The line of a rendered frame, without its line terminator: the frame's
   * symbol, then `IL_` and the offset in four hex digits, then `T_` and the
   * token in eight.
   */
  function FrameLine(f: FrameInfo): string
    requires Renders(f)
  {
    DecoratedLine(FrameSymbol(f), FormatHex(f.ilOffset, 4), FormatHex(f.methodInfo.value.metadataToken, 8))
  }

  /** The frames that are rendered, in their order: those skipped have no method or no type name. */
  function RenderedFrames(frames: seq<FrameInfo>): (fs: seq<FrameInfo>)
    ensures |fs| <= |frames|
    ensures forall i :: 0 <= i < |fs| ==> Renders(fs[i])
  {
    if |frames| == 0 then []
    else
      var last := frames[|frames| - 1];
      var rest := RenderedFrames(frames[..|frames| - 1]);
      if Renders(last) then rest + [last] else rest
  }

  /** The lines of frames that all render, one per frame. */
  function Lines(fs: seq<FrameInfo>): (ls: seq<string>)
    requires forall i :: 0 <= i < |fs| ==> Renders(fs[i])
    ensures |ls| == |fs|
  {
    if |fs| == 0 then [] else Lines(fs[..|fs| - 1]) + [FrameLine(fs[|fs| - 1])]
  }

  /** Line `i` is the line of frame `i`. */
  lemma {:induction false} LinesAt(fs: seq<FrameInfo>, i: nat)
    requires forall j :: 0 <= j < |fs| ==> Renders(fs[j])
    requires i < |fs|
    ensures Lines(fs)[i] == FrameLine(fs[i])
  {
    if i < |fs| - 1 {
      LinesAt(fs[..|fs| - 1], i);
    }
  }

  /** The lines `Decorate` writes for the frames, in frame order. */
  function RenderedLines(frames: seq<FrameInfo>): seq<string> {
    Lines(RenderedFrames(frames))
  }

  /** Rendering is a filter: the frames of two runs are the frames of each, in order. */
  lemma {:induction false} RenderedFramesConcat(xs: seq<FrameInfo>, ys: seq<FrameInfo>)
    ensures RenderedFrames(xs + ys) == RenderedFrames(xs) + RenderedFrames(ys)
    decreases |ys|
  {
    if |ys| == 0 {
      assert xs + ys == xs;
    } else {
      var all := xs + ys;
      assert all[..|all| - 1] == xs + ys[..|ys| - 1];
      assert all[|all| - 1] == ys[|ys| - 1];
      RenderedFramesConcat(xs, ys[..|ys| - 1]);
    }
  }

  /** When every frame renders, the filter keeps them all. */
  lemma {:induction false} AllFramesKept(frames: seq<FrameInfo>)
    requires forall i :: 0 <= i < |frames| ==> Renders(frames[i])
    ensures RenderedFrames(frames) == frames
  {
    if |frames| > 0 {
      var front := frames[..|frames| - 1];
      AllFramesKept(front);
      assert front + [frames[|frames| - 1]] == frames;
    }
  }

  /** When every frame renders, there is one line per frame, in frame order. */
  lemma AllFramesRender(frames: seq<FrameInfo>)
    requires forall i :: 0 <= i < |frames| ==> Renders(frames[i])
    ensures |RenderedLines(frames)| == |frames|
    ensures forall i :: 0 <= i < |frames| ==> RenderedLines(frames)[i] == FrameLine(frames[i])
  {
    AllFramesKept(frames);
    forall i | 0 <= i < |frames|
      ensures RenderedLines(frames)[i] == FrameLine(frames[i])
    {
      LinesAt(frames, i);
    }
  }

  /** Frames without a known method or type name contribute nothing. */
  lemma {:induction false} NoFrameRenders(frames: seq<FrameInfo>)
    requires forall i :: 0 <= i < |frames| ==> !Renders(frames[i])
    ensures RenderedLines(frames) == []
  {
    if |frames| > 0 {
      NoFrameRenders(frames[..|frames| - 1]);
    }
  }

  /** Every rendered frame is one of the input frames, and it renders. */
  lemma {:induction false} RenderedFramesComeFromFrames(frames: seq<FrameInfo>, j: nat)
    requires j < |RenderedFrames(frames)|
    ensures RenderedFrames(frames)[j] in frames
  {
    var prefix := frames[..|frames| - 1];
    if j < |RenderedFrames(prefix)| {
      RenderedFramesComeFromFrames(prefix, j);
    }
  }

  /** The next frame is kept when it renders and dropped otherwise. */
  lemma RenderedFramesSnoc(frames: seq<FrameInfo>, i: nat)
    requires i < |frames|
    ensures RenderedFrames(frames[..i + 1])
         == RenderedFrames(frames[..i]) + (if Renders(frames[i]) then [frames[i]] else [])
  {
    assert frames[..i + 1][..i] == frames[..i];
  }

  lemma LinesSnoc(fs: seq<FrameInfo>, f: FrameInfo)
    requires forall i :: 0 <= i < |fs| ==> Renders(fs[i])
    requires Renders(f)
    ensures Lines(fs + [f]) == Lines(fs) + [FrameLine(f)]
  {
    assert (fs + [f])[..|fs|] == fs;
  }

  /** The next frame adds its line when it renders and nothing otherwise. */
  lemma RenderedLinesSnoc(frames: seq<FrameInfo>, i: nat)
    requires i < |frames|
    ensures Renders(frames[i]) ==> RenderedLines(frames[..i + 1]) == RenderedLines(frames[..i]) + [FrameLine(frames[i])]
    ensures !Renders(frames[i]) ==> RenderedLines(frames[..i + 1]) == RenderedLines(frames[..i])
  {
    RenderedFramesSnoc(frames, i);
    var fs := RenderedFrames(frames[..i]);
    if Renders(frames[i]) {
      LinesSnoc(fs, frames[i]);
    } else {
      assert fs + [] == fs;
    }
  }

  // ------------------------------------------------------------ the trace text

  /** Each line followed by the line terminator, as `StringBuilder.AppendLine` writes them. */
  function JoinLines(ls: seq<string>, newline: string): (s: string)
    ensures |ls| == 0 ==> s == ""
  {
    if |ls| == 0 then "" else JoinLines(ls[..|ls| - 1], newline) + ls[|ls| - 1] + newline
  }

  lemma JoinLinesSnoc(ls: seq<string>, line: string, newline: string)
    ensures JoinLines(ls + [line], newline) == JoinLines(ls, newline) + line + newline
  {
    assert (ls + [line])[..|ls|] == ls;
  }

  /**
   * The text the loop of `Decorate` builds, frame by frame, after `header`:
   * each rendered frame's line, then the terminator.
   */
  function TraceText(header: string, frames: seq<FrameInfo>, newline: string): string {
    if |frames| == 0 then header
    else
      var last := frames[|frames| - 1];
      var before := TraceText(header, frames[..|frames| - 1], newline);
      if Renders(last) then before + FrameLine(last) + newline else before
  }

  lemma TraceTextSnoc(header: string, frames: seq<FrameInfo>, i: nat, newline: string)
    requires i < |frames|
    ensures Renders(frames[i]) ==>
      TraceText(header, frames[..i + 1], newline) == TraceText(header, frames[..i], newline) + FrameLine(frames[i]) + newline
    ensures !Renders(frames[i]) ==> TraceText(header, frames[..i + 1], newline) == TraceText(header, frames[..i], newline)
  {
    assert frames[..i + 1][..i] == frames[..i];
  }

  lemma AppendsRegroup(a: string, b: string, c: string, d: string)
    ensures a + b + c + d == a + (b + c + d)
  {
  }

  /** The text is the header followed by the rendered lines, each with its terminator. */
  lemma {:induction false} TraceTextIsHeaderAndLines(header: string, frames: seq<FrameInfo>, newline: string)
    ensures TraceText(header, frames, newline) == header + JoinLines(RenderedLines(frames), newline)
  {
    if |frames| > 0 {
      var i := |frames| - 1;
      assert frames[..i + 1] == frames;
      TraceTextIsHeaderAndLines(header, frames[..i], newline);
      RenderedLinesSnoc(frames, i);
      if Renders(frames[i]) {
        var lines := RenderedLines(frames[..i]);
        JoinLinesSnoc(lines, FrameLine(frames[i]), newline);
        AppendsRegroup(header, JoinLines(lines, newline), FrameLine(frames[i]), newline);
      }
    }
  }

  /** The text an interpolation hole writes for a string that may be null. */
  function HoleText(s: Option<string>): string {
    if s.Some? then s.value else ""
  }

  /**
   * What the header's `AppendLine` leaves in the builder. With C# 10 on
   * .NET 6 or later, the interpolated string is handed to the builder piece
   * by piece, so a `Message` getter that throws leaves `Type: ` behind,
   * without a line terminator, and the inner `catch` does not take it back.
   */
  function Header(ex: Option<ExceptionInfo>, newline: string): (h: string)
    ensures ex.None? <==> h == ""
    ensures ex.Some? ==>
      var lead := HoleText(ex.value.typeFullName) + ": ";
      && |lead| <= |h| && h[..|lead|] == lead
      && (ex.value.message.Returned? ==> h == lead + ex.value.message.value + newline)
      && (ex.value.message.Threw? ==> h == lead)
  {
    if ex.None? then ""
    else
      var lead := HoleText(ex.value.typeFullName) + ": ";
      match ex.value.message
      case Threw => lead
      case Returned(message) =>
        assert (lead + message + newline)[..|lead|] == lead;
        lead + message + newline
  }

  /**
   * The body of the loop of `Decorate` for one frame: nothing for a frame
   * without method or type name, otherwise its line.
   */
  method RenderFrame(stackFrame: FrameInfo) returns (line: Option<string>)
    ensures line.Some? <==> Renders(stackFrame)
    ensures line.Some? ==> line.value == FrameLine(stackFrame)
  {
    var methodInfo := stackFrame.methodInfo;
    if methodInfo.None? {
      return None;
    }
    var typeFullName := methodInfo.value.reflectedTypeFullName;
    if typeFullName.None? {
      return None;
    }
    var ok, parameters := TryGetMethodParameters(methodInfo.value);
    var shown := if parameters.Some? then parameters.value else "";
    var symbol := typeFullName.value + "." + methodInfo.value.name + "(" + shown + ")";
    var offset := "IL_" + FormatHex(stackFrame.ilOffset, 4);
    var token := "T_" + FormatHex(methodInfo.value.metadataToken, 8);
    SpacedFields(symbol, FormatHex(stackFrame.ilOffset, 4), FormatHex(methodInfo.value.metadataToken, 8));
    return Some("    at " + symbol + " " + offset + " " + token);
  }

  /** The offset and token fields, each behind a space, make up the tail of a decorated line. */
  lemma SpacedFields(symbol: string, h: string, k: string)
    ensures "    at " + symbol + " " + ("IL_" + h) + " " + ("T_" + k) == DecoratedLine(symbol, h, k)
  {
    assert " " + ("IL_" + h) == " IL_" + h;
    assert " " + ("T_" + k) == " T_" + k;
  }

  /**
   * `Decorate`: null when the frames cannot be captured or there are none;
   * otherwise the header followed by one line per rendered frame. `ex` is
   * `None` when the current thread's stack is decorated, and the captured
   * frames (or the exception capturing throws) are a parameter.
   */
  method Decorate(ex: Option<ExceptionInfo>, capture: Outcome<seq<FrameInfo>>, newline: string) returns (r: Option<string>)
    ensures capture.Threw? ==> r == None
    ensures capture.Returned? && |capture.value| == 0 ==> r == None
    ensures capture.Returned? && |capture.value| > 0 ==>
      r == Some(Header(ex, newline) + JoinLines(RenderedLines(capture.value), newline))
  {
    if capture.Threw? {
      return None;
    }
    var stackFrames := capture.value;
    if |stackFrames| == 0 {
      return None;
    }
    var sb := "";
    if ex.Some? {
      // The interpolation handler appends each piece as soon as it is evaluated.
      sb := sb + HoleText(ex.value.typeFullName);
      sb := sb + ": ";
      if ex.value.message.Returned? {
        sb := sb + ex.value.message.value;
        sb := sb + newline;
      }
    }
    ghost var header := sb;
    assert header == Header(ex, newline);
    for i := 0 to |stackFrames|
      invariant sb == TraceText(header, stackFrames[..i], newline)
    {
      TraceTextSnoc(header, stackFrames, i, newline);
      var line := RenderFrame(stackFrames[i]);
      if line.Some? {
        sb := sb + line.value;
        sb := sb + newline;
      }
    }
    assert stackFrames[..|stackFrames|] == stackFrames;
    TraceTextIsHeaderAndLines(header, stackFrames, newline);
    return Some(sb);
  }

  /** Joined lines begin with the first line and its terminator. */
  lemma {:induction false} JoinLinesFirst(ls: seq<string>, newline: string)
    requires |ls| > 0
    ensures |ls[0] + newline| <= |JoinLines(ls, newline)|
    ensures JoinLines(ls, newline)[..|ls[0] + newline|] == ls[0] + newline
  {
    var first := ls[0] + newline;
    if |ls| > 1 {
      var init := ls[..|ls| - 1];
      JoinLinesFirst(init, newline);
      var before := JoinLines(init, newline);
      assert JoinLines(ls, newline) == before + (ls[|ls| - 1] + newline);
      assert (before + (ls[|ls| - 1] + newline))[..|first|] == before[..|first|];
    } else {
      assert JoinLines(ls, newline) == "" + ls[0] + newline;
    }
  }

  /**
   * When the exception's message cannot be read, the first frame line is
   * written straight after the unterminated `Type: `: the decorated text
   * begins with `Type: ` followed by that frame's line.
   */
  lemma UnreadableMessageGluesFirstLine(ex: Option<ExceptionInfo>, frames: seq<FrameInfo>, newline: string)
    requires ex.Some? && ex.value.message.Threw?
    requires |RenderedFrames(frames)| > 0
    ensures var text := Header(ex, newline) + JoinLines(RenderedLines(frames), newline);
      var first := HoleText(ex.value.typeFullName) + ": " + FrameLine(RenderedFrames(frames)[0]) + newline;
      |first| <= |text| && text[..|first|] == first
  {
    var lead := HoleText(ex.value.typeFullName) + ": ";
    var lines := RenderedLines(frames);
    LinesAt(RenderedFrames(frames), 0);
    JoinLinesFirst(lines, newline);
    var joined := JoinLines(lines, newline);
    var line := lines[0] + newline;
    assert (lead + joined)[..|lead + line|] == lead + joined[..|line|];
    assert lead + line == lead + FrameLine(RenderedFrames(frames)[0]) + newline;
  }

  // ------------------------------------------------------------ round trip

  /** A frame whose symbol text holds no line feed: every frame of ordinary .NET code. */
  predicate PlainNames(f: FrameInfo)
    requires Renders(f)
  {
    NoLineFeed(FrameSymbol(f))
  }

  /** A token's 32 bits split as the parser splits them: the top byte and the low 24 bits. */
  lemma TokenDigitsSplit(token: int32)
    ensures var k := FormatHex(token, 8);
      && AllHex(k[..2]) && AllHex(k[2..])
      && HexValue(k[..2]) == Unsigned32(token) / TwoTo24
      && HexValue(k[2..]) == Unsigned32(token) % TwoTo24
  {
    var k := FormatHex(token, 8);
    AllHexSplit(k, 2);
    HexValueConcat(k[..2], k[2..]);
    HexValueBound(k[2..]);
    assert Pow16(6) == TwoTo24;
    var hi, lo := HexValue(k[..2]), HexValue(k[2..]);
    assert Unsigned32(token) == hi * TwoTo24 + lo;
  }

  /**
   * A rendered frame line parses back to the frame it was written for: the
   * symbol `Type.Method(parameters)`, the IL offset, and the token split
   * into its table byte and its row, with the partial line `    at` symbol.
   */
  lemma FrameLineRoundTrip(f: FrameInfo)
    requires Renders(f) && PlainNames(f)
    ensures var m := f.methodInfo.value;
      var symbol := FrameSymbol(f);
      var token := Unsigned32(m.metadataToken);
      FromString(FrameLine(f)) == Returned(Some(StackFrame(
        symbol, f.ilOffset, (token / TwoTo24) as int32, (token % TwoTo24) as int32, "    at " + symbol)))
  {
    var m := f.methodInfo.value;
    var symbol := FrameSymbol(f);
    var h, k := FormatHex(f.ilOffset, 4), FormatHex(m.metadataToken, 8);
    DecoratedLineParses(symbol, h, k);
    var frame := FromString(DecoratedLine(symbol, h, k)).value.value;
    SignedOfUnsigned(frame.offset);
    SignedOfUnsigned(f.ilOffset);
    TokenDigitsSplit(m.metadataToken);
  }
}
