# Crash sharpener, modelled in Dafny

Crash sharpener symbolicates .NET stack traces offline. It has two halves:

- **The decorator** (`example/StackTraceDecorator.cs`) runs inside the crashing process. It renders each stack frame as
  `    at Type.Method(parameters) IL_<offset:x4> T_<token:x8>`, so the frame carries its IL offset and its method's metadata token.
- **The symbolicator** (`sharpener/`) runs later, with the binaries and their portable PDBs at hand. For each line it does four things:
  - parses the decorated frame (`StackFrame.FromString`);
  - finds the dll named after the longest dotted prefix of the symbol (`FindDllPath`);
  - looks the method up by the low 24 bits of the token;
  - maps the IL offset to a source location through the method's sequence points (`SymbolicateFrame`).

  A line that does not parse, whose dll is not found, whose reader is null or whose symbolication throws is printed verbatim. A frame whose method has no visible sequence point is printed as its partial line. An exception from `FromString` (a matching line with empty `IL_` digits, fewer than three `T_` digits, or digits worth 2^32 or more) or from opening the reader ends the run.

The model is split into modules:

- `Wrappers` holds `Option` (a null) and `Outcome` (a returned value or a thrown exception).
- `Numerals` holds C#'s `int` as the newtype `int32`, the `x4`/`x8` hexadecimal formats, `Convert.ToInt32(s, 16)` and decimal rendering.
- `StackFrames` holds the parser. The regular expression `^\s*(at (.*)) IL_([A-Fa-f0-9]*) T_([A-Fa-f0-9]*)` is written as a hand-made matcher. It uses .NET's `\s` class, and `.` never matches a line feed. The greedy `.*` backtracks to the LAST position where ` IL_<hex> T_` follows.
- `Symbolicator` holds the rest of the symbolicator:
  - the sequence-point scan as a method with a loop, proved against the function `Matched`;
  - the dll search as a method with a loop, proved against `ResolveDll`;
  - the per-line orchestration as methods proved against `LineOutcome` and the run function `Run`.
- `StackTraceDecorator` holds the decorator. It uses `StringBuilder` loops over parameters and frames, proved against `ParametersText` and `TraceText`.
- `EndToEnd` holds what the two halves do together. A frame line the decorator writes parses back to the frame it was written for, and it is symbolicated with the source location of the right method.

I/O and reflection are taken as input:

- `File.Exists` is a set of file names.
- `GetMetadataReader` is a function `Environment.openReader` from a dll path to "throws", "null" or a reader.
- A reader is a map from method-debug-information rows to a method's document and sequence points.
- The frames `StackTrace` captures and what reflection reports about their methods are plain records.
- `Environment.NewLine` is a parameter.
- Console output is the returned sequence of printed lines.

Some of what the code does is easy to misread. The model follows the code:

- **Target below every point.** A target offset below every visible sequence point still resolves, to the first visible point. The first visible point is always remembered before the loop can break (`Symbolicator.BelowEveryPoint`).
- **Resolved line text.** A resolved line is built from `PartialLine`, which drops ` IL_… T_…` and anything after it. It is not the whole input line.
- **No frame renders.** `Decorate` does not return null when no frame renders. It returns the header, or the empty string. Null comes only from an empty capture or an escaping exception.
- **Unreadable message.** On C# 10 with .NET 6 or later, which this repository's targets use, the header `AppendLine($"{FullName}: {Message}")` goes through the builder's interpolated-string handler, which appends each piece as it is evaluated. So a `Message` getter that throws leaves `Type: ` in the builder without a line terminator, and the inner `catch` keeps it. The first frame line is then glued onto it (`StackTraceDecorator.UnreadableMessageGluesFirstLine`), and the symbolicator no longer sees that frame as a decorated line (`EndToEnd.GluedLineIsNotParsed`).
- **Exceptions that end the run.** `FromString` (sharpener/Symbolicator.cs:15) and `GetMetadataReader` (:29) are called outside the `try`, so an exception from either stops the whole run, and later lines are not printed (`Symbolicator.RunPrintsEachLine`, `Symbolicator.AbortedRunStops`).
- **Dll search only shortens.** With only `A.B.dll` present, symbol `A` resolves to nothing (`Symbolicator.NoLongerName`).

## Model

| member | source | states |
|---|---|---|
| StackFrames.MatchLine | sharpener/StackFrame.cs:58 | the pattern matches iff the groups are found. The symbol group starts after the leading `\s*` and `at `, ends at a viable position and no later position is viable (greedy `.*`). The offset and token groups are the hex runs that follow |
| StackFrames.LastSuffix | sharpener/StackFrame.cs:58 | backtracking of the greedy `(.*)`: the result is a position where ` IL_<hex*> T_` matches, and none later in the range matches; None iff no position in the range matches |
| StackFrames.SymbolText | sharpener/StackFrame.cs:34 | the `Symbol` group is the text between `at ` and the suffix, and it contains no line feed |
| StackFrames.FrameOf | sharpener/StackFrame.cs:33-42 | a converted frame's symbol is the matched text, and its partial line is four spaces, `at ` and the symbol |
| StackFrames.FromString | sharpener/StackFrame.cs:13-56 | returns null exactly when the line does not match the pattern. A returned frame has `PartialLine == "    at " + Symbol` and no line feed in its symbol |
| StackFrames.FrameOfConversions | sharpener/StackFrame.cs:35-39 | empty offset digits or fewer than three token digits throw. With 1-8 offset digits and 3-8 token digits the frame is built: the offset is the hex value, `TokenType` is the value of the first two token digits (< 256) and `TokenValue` the value of the rest (< 2^24) |
| StackFrames.DecoratedLineMatches | sharpener/StackFrame.cs:58 | a line `    at S IL_h T_k` (S without line feed, h and k hex) matches with the symbol group exactly S and the groups h and k, even when S itself contains ` IL_… T_` |
| StackFrames.DecoratedLineParses | sharpener/StackFrame.cs:30-41 | such a line with 1-8 offset digits and 8 token digits parses to symbol S, offset h, token type and value from k's first two and last six digits, and partial line `    at S` |
| Numerals.ParseHexInt32 | sharpener/StackFrame.cs:35 | `Convert.ToInt32(s, 16)` returns iff s is non-empty and its value fits 32 bits; the result's bit pattern is that value |
| Numerals.FormatHex | example/StackTraceDecorator.cs:62-63 | `x4`/`x8` formatting: only lower-case hex digits (`0-9a-f`) whose value is the two's-complement pattern; at least `width` digits, exactly 8 for `x8`, and no leading zero beyond the width |
| Numerals.HexRoundTrip | example/StackTraceDecorator.cs:62-63 | converting the formatted digits back with `Convert.ToInt32(s, 16)` returns the original `int` |
| Numerals.FormatDecimalReadsBack | sharpener/Symbolicator.cs:120 | the decimal text of an `int` in the location is an optional minus sign and the digits of its magnitude |
| Symbolicator.SourceLocationDeterminesRange | sharpener/Symbolicator.cs:118-121 | `GetSourceLocation` writes `StartLine [StartLine:StartColumn-EndLine:EndColumn]` unambiguously: two points with non-negative lines and columns that print the same location have the same start and end lines and columns |
| Symbolicator.HandleRow | sharpener/Symbolicator.cs:55-56 | the method-debug-information row is below 2^24 and equals `TokenValue` when that fits 24 bits |
| Symbolicator.Matched | sharpener/Symbolicator.cs:83-115 | the reported point is a visible (non-hidden) point of the method; nothing is reported iff every point is hidden |
| Symbolicator.VisibleMembers | sharpener/Symbolicator.cs:87-90 | the points the scan considers are exactly the non-hidden ones: a hidden point is never reported or remembered |
| Symbolicator.ExactMatchWins | sharpener/Symbolicator.cs:92-99 | the first visible point with the target offset is reported when the scan reaches it, ahead of earlier lower points |
| Symbolicator.ExactMatchSorted | sharpener/Symbolicator.cs:92-99 | in a non-decreasing table, the first visible point with the target offset is always the one reported |
| Symbolicator.NearestPrecedingPoint | sharpener/Symbolicator.cs:101-112 | in a non-decreasing table without an exact match, the reported point is the visible one with the greatest offset below the target |
| Symbolicator.BelowEveryPoint | sharpener/Symbolicator.cs:101-112 | a target below every visible offset resolves to the first visible point, not to "no match" |
| Symbolicator.SymbolicateFrame | sharpener/Symbolicator.cs:53-116 | the scan returns exactly `FrameText`. That is the partial line for a nil handle or no visible point, an exception for a row the reader lacks, and otherwise the partial line with ` in doc:location` of the matched point |
| Symbolicator.UnresolvedFrameKeepsPartialLine | sharpener/Symbolicator.cs:55-59 | a nil handle, or a method whose points are all hidden (or none), gives `PartialLine` unchanged |
| Symbolicator.ResolvedFrameLine | sharpener/Symbolicator.cs:64-74 | a method with a visible point always resolves, to `PartialLine + " in " + doc + ":" + location` of a visible point, with doc `?` for a nil document |
| Symbolicator.LastDot | sharpener/Symbolicator.cs:125 | finds the last `.` in the string, or reports there is none |
| Symbolicator.RemoveSymbolTail | sharpener/Symbolicator.cs:123-127 | null iff the symbol has no `.`; otherwise the strictly shorter text before its last `.` |
| Symbolicator.CandidatesChain | sharpener/Symbolicator.cs:133-148 | the names tried are the symbol, then each previous name cut at its last `.`, ending at a name without `.`: the search only shortens and terminates |
| Symbolicator.CandidatesArePrefixes | sharpener/Symbolicator.cs:133-148 | every name tried is a prefix of the symbol |
| Symbolicator.FirstExistingFindsFirst | sharpener/Symbolicator.cs:136-147 | the search finds nothing iff no name's dll exists; otherwise it returns an existing `<name>.dll` path, and no earlier name's dll exists |
| Symbolicator.FindDllPath | sharpener/Symbolicator.cs:133-148 | the loop returns exactly the first existing dll among the candidates (`ResolveDll`) |
| Symbolicator.ResolveToShorterName | sharpener/Symbolicator.cs:129-132 | with only `bin/A.B.dll`, the symbol `A.B.C` resolves to it |
| Symbolicator.NoLongerName | sharpener/Symbolicator.cs:129-132 | with only `bin/A.B.dll`, the symbol `A` resolves to nothing |
| Symbolicator.SymbolicateDecoratedLine | sharpener/Symbolicator.cs:22-44 | a parsed line becomes `FrameOutcome`: verbatim without dll, without reader or when symbolication throws; the frame text otherwise; an exception from opening the reader escapes |
| Symbolicator.FrameOutcomeFallsBack | sharpener/Symbolicator.cs:22-44 | each fallback case gives the verbatim line; an exception while opening the reader propagates |
| Symbolicator.SymbolicateLine | sharpener/Symbolicator.cs:15-20 | a line that does not parse is printed verbatim; an exception from `FromString` propagates |
| Symbolicator.UndecoratedLinePassesThrough | sharpener/Symbolicator.cs:15-20 | a line the pattern does not match is printed as it is |
| Symbolicator.DecoratedLineOutcome | sharpener/Symbolicator.cs:22-44 | a decorated line is printed verbatim, as its partial line, or as its partial line followed by ` in ` |
| Symbolicator.Symbolicate | sharpener/Symbolicator.cs:11-46 | the loop prints exactly what `Run` of the per-line outcome prints, and aborts exactly when it does |
| Symbolicator.RunPrintsEachLine | sharpener/Symbolicator.cs:13-45 | one printed line per input line, in input order, each the line's outcome. The run is cut short iff it aborts, and then the first unprinted line threw |
| Symbolicator.AbortedRunStops | sharpener/Symbolicator.cs:15 | once a line throws, later lines are never processed |
| StackTraceDecorator.TryGetMethodParameters | example/StackTraceDecorator.cs:76-109 | returns true iff the parameters can be read, with the text `ParametersText` (each `Type[ Name]`, joined by `, `); false and null otherwise |
| StackTraceDecorator.ParametersTextConcat | example/StackTraceDecorator.cs:84-97 | the text of two non-empty parameter lists is their texts around one `, `: separators only between entries, none trailing |
| StackTraceDecorator.ParametersTextNoLineFeed | example/StackTraceDecorator.cs:84-97 | the parameter text has no line feed when no type or parameter name has one |
| StackTraceDecorator.RenderFrame | example/StackTraceDecorator.cs:49-64 | a frame gives a line iff its method and the method's reflected type name are known, and the line is `FrameLine` |
| StackTraceDecorator.RenderedFrames | example/StackTraceDecorator.cs:47-59 | the rendered frames are at most the captured ones and all render |
| StackTraceDecorator.RenderedFramesConcat | example/StackTraceDecorator.cs:47-59 | skipping is a filter: it keeps order and works frame by frame |
| StackTraceDecorator.RenderedFramesComeFromFrames | example/StackTraceDecorator.cs:47-59 | every rendered frame is a captured frame |
| StackTraceDecorator.AllFramesRender | example/StackTraceDecorator.cs:47-65 | when every frame renders, line i is frame i's line |
| StackTraceDecorator.NoFrameRenders | example/StackTraceDecorator.cs:49-59 | frames without method or type name produce no output |
| StackTraceDecorator.TraceTextIsHeaderAndLines | example/StackTraceDecorator.cs:33-67 | the built text is the header followed by each rendered line with its terminator |
| StackTraceDecorator.Header | example/StackTraceDecorator.cs:35-45 | no exception gives no header. Otherwise the header starts with `Type: ` (a null type name writes nothing). It is `Type: Message` and the terminator when the message can be read, and only the unterminated `Type: ` when the getter throws |
| StackTraceDecorator.Decorate | example/StackTraceDecorator.cs:12-74 | null when capture throws or yields no frames; otherwise `Header` followed by one terminated line per rendered frame, in order |
| StackTraceDecorator.UnreadableMessageGluesFirstLine | example/StackTraceDecorator.cs:37-47 | when the message getter throws, the decorated text begins with `Type: ` immediately followed by the first rendered frame's line |
| StackTraceDecorator.TokenDigitsSplit | example/StackTraceDecorator.cs:63 | the 8 token digits split into the token's top byte and its low 24 bits |
| StackTraceDecorator.FrameLineRoundTrip | example/StackTraceDecorator.cs:61-64 | a rendered frame line whose names have no line feed parses back to symbol `Type.Method(params)`, the IL offset, `TokenType = (uint)token >> 24`, `TokenValue = token & 0xFFFFFF` and partial line `    at` symbol |
| EndToEnd.ParsedFrame | sharpener/StackFrame.cs:30-41 | the frame parsed from a rendered line has the frame's symbol and offset, and its handle row is the method token's row |
| EndToEnd.DecoratedFrameSymbolicates | sharpener/Symbolicator.cs:11-46 | a decorated frame whose dll is found and opened, and whose method has a visible point, is printed as `    at Type.Method(params) in doc:location` of the point matched for its IL offset |
| EndToEnd.UnresolvedModuleKeepsLine | sharpener/Symbolicator.cs:22-27 | a decorated frame whose dll is not found is printed verbatim |
| EndToEnd.GluedLineIsNotParsed | sharpener/Symbolicator.cs:15-20 | a frame line glued behind text that starts with neither white space nor `a` does not parse and is printed verbatim |

## Left out

- Reading PE images and portable PDBs (`GetMetadataReader`, `ReadFileIfExists`, sharpener/Symbolicator.cs:150-179). These are foreign library calls. Opening a reader is a caller-supplied function.
- `MetadataTokens`, `GetMethodDebugInformation` and `GetDocument` are left out too, because they are foreign library calls. The reader is a map from rows to debug information. A row the map lacks throws, as the library does for an out-of-range handle.
- Enumerating sequence points never throws in the model. The library can throw on a corrupt blob.
- Console output, and the `Console.Error` diagnostics of both halves. The printed lines are returned as a sequence; the diagnostics have no effect on the result.
- sharpener/Program.cs and example/Program.cs are not part of this model. The first is argument checking and `File.ReadAllLines`; the second installs process-wide exception hooks.
- Reflection and stack capture (`StackTrace`, `GetFrames`, `GetMethod`, `GetParameters`, `MetadataToken`, `GetILOffset`). Their results are input records. Capture that throws is `Threw`.
- StackTraceDecorator.Decorate: an exception thrown inside the frame loop (for example by a getter on `MethodBase`) is not modelled. The model's loop never throws, so the "null when an exception escapes" case covers only capture.
- Numerals.FormatDecimal: a negative number is written with `-`, the invariant culture's sign. `GetSourceLocation`'s interpolation uses the current culture, whose negative sign may differ. Only negative lines or columns are affected, and valid debug metadata holds none; `Symbolicator.SourceLocationDeterminesRange` is stated for non-negative values only.
- Symbolicator.RemoveSymbolTail: `LastIndexOf(".", InvariantCulture)` is modelled as an ordinal search for `.`. Culture-aware comparison of ignorable characters is left out.
- Symbolicator.Combine: `Path.Combine` follows Unix rules. Windows drive and backslash rules are left out.
- The code opens a reader afresh for each decorated line. `openReader` is a fixed function and `File.Exists` a fixed set, so files that change during a run are not modelled.
- StackTraceDecorator.Header: targets older than .NET 6, where the interpolated header string is built in full before anything is appended, are not modelled. On those a throwing `Message` leaves no header at all.
- .NET's general regular-expression engine is replaced by a matcher for the one pattern. `^` anchors at the string start, and `.` is any character but `\n`.
