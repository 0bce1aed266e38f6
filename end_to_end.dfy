/**
 * The two halves together: a frame line the decorator writes at crash time
 * is read back by the symbolicator, which looks the method up by the row
 * of the token the decorator wrote and reports the frame's source location.
 */
module EndToEnd {
  import opened Wrappers
  import opened Numerals
  import opened StackFrames
  import opened Symbolicator
  import opened StackTraceDecorator

  /** The method-debug-information row of the method a rendered frame ran. */
  function MethodRow(f: FrameInfo): (row: nat)
    requires Renders(f)
    ensures row < TwoTo24
  {
    Unsigned32(f.methodInfo.value.metadataToken) % TwoTo24
  }

  /** The frame the symbolicator reads back from a rendered frame's line. */
  lemma ParsedFrame(f: FrameInfo)
    requires Renders(f) && PlainNames(f)
    ensures FromString(FrameLine(f)).Returned? && FromString(FrameLine(f)).value.Some?
    ensures var frame := FromString(FrameLine(f)).value.value;
      && frame.symbol == FrameSymbol(f)
      && frame.offset == f.ilOffset
      && frame.partialLine == "    at " + FrameSymbol(f)
      && HandleRow(frame.tokenValue) == MethodRow(f)
  {
    FrameLineRoundTrip(f);
    var token := Unsigned32(f.methodInfo.value.metadataToken);
    var frame := FromString(FrameLine(f)).value.value;
    assert frame.tokenValue as int == token % TwoTo24;
  }

  /**
   * A decorated frame whose module is found and opened, and whose method has
   * a visible sequence point, is printed as `    at Type.Method(parameters)`
   * followed by ` in `, the document and the location of the point matched
   * for the frame's IL offset.
   */
  lemma DecoratedFrameSymbolicates(env: Environment, f: FrameInfo, dllPath: string, reader: MetadataReader)
    requires Renders(f) && PlainNames(f)
    requires ResolveDll(env.binariesPath, FrameSymbol(f), env.files) == Some(dllPath)
    requires env.openReader(dllPath) == Returned(Some(reader))
    requires MethodRow(f) != 0 && MethodRow(f) in reader.methods
    requires exists p :: p in reader.methods[MethodRow(f)].sequencePoints && !p.isHidden
    ensures var info := reader.methods[MethodRow(f)];
      && Matched(info.sequencePoints, f.ilOffset).Some?
      && LineOutcome(env, FrameLine(f))
         == Returned(ResolvedLine("    at " + FrameSymbol(f), DocumentName(info.document),
                                  Matched(info.sequencePoints, f.ilOffset).value))
  {
    ParsedFrame(f);
  }

  /**
   * A decorated frame whose module cannot be found is printed verbatim, with
   * its ` IL_` offset and ` T_` token still on it.
   */
  lemma UnresolvedModuleKeepsLine(env: Environment, f: FrameInfo)
    requires Renders(f) && PlainNames(f)
    requires ResolveDll(env.binariesPath, FrameSymbol(f), env.files) == None
    ensures LineOutcome(env, FrameLine(f)) == Returned(FrameLine(f))
  {
    ParsedFrame(f);
  }

  /**
   * A frame line glued behind text that starts with neither white space nor
   * `a` (the `Type: ` left by an unreadable exception message, for a type
   * name like `System.Exception`) is not a decorated line: it is printed
   * verbatim, unsymbolicated.
   */
  lemma GluedLineIsNotParsed(env: Environment, lead: string, f: FrameInfo)
    requires |lead| > 0 && !IsRegexSpace(lead[0]) && lead[0] != 'a'
    requires Renders(f)
    ensures FromString(lead + FrameLine(f)) == Returned(None)
    ensures LineOutcome(env, lead + FrameLine(f)) == Returned(lead + FrameLine(f))
  {
    var line := lead + FrameLine(f);
    assert line[0] == lead[0];
    assert Span(line, 0, IsRegexSpace) == 0;
    assert |line| >= 3 ==> line[0..3][0] == lead[0];
  }
}
