/** Scanning streamed chunks for token usage, in the OpenAI and the Anthropic format. */
module TokenScanning {
  import opened Wrappers

  // ----- Lines -----

  /** text.split("\n") */
  function Split(text: string): (lines: seq<string>)
    ensures lines != []
  {
    if text == [] then [[]]
    else
      var rest := Split(text[1..]);
      if text[0] == '\n' then [[]] + rest else [[text[0]] + rest[0]] + rest[1..]
  }

  /** What str.strip removes. */
  predicate IsSpace(c: char) {
    || '\t' <= c <= '\r' || '\U{1c}' <= c <= ' ' || c == '\U{85}' || c == '\U{a0}' || c == '\U{1680}'
    || '\U{2000}' <= c <= '\U{200a}' || c == '\U{2028}' || c == '\U{2029}' || c == '\U{202f}' || c == '\U{205f}'
    || c == '\U{3000}'
  }

  function StripLeft(s: string): string {
    if s != [] && IsSpace(s[0]) then StripLeft(s[1..]) else s
  }

  function StripRight(s: string): string {
    if s != [] && IsSpace(s[|s| - 1]) then StripRight(s[..|s| - 1]) else s
  }

  function Strip(s: string): string {
    StripRight(StripLeft(s))
  }

  const DATA := "data: "
  const DONE := "data: [DONE]"

  // ----- Events -----

  /** The counts kept in the request context. */
  datatype Counts = Counts(promptTokens: Option<int>, completionTokens: Option<int>)

  /** A field of a usage object: missing, or present with a number or null. */
  datatype Field = Missing | Present(value: Option<int>)

  /** What a data line of the OpenAI format decodes to: no usage, or a usage object. */
  datatype OpenAiEvent = NoUsage | Usage(promptTokens: Field, completionTokens: Field)

  /** What a data line of the Anthropic format decodes to, as far as the scanner looks. */
  datatype AnthropicEvent =
    | MessageStart(inputTokens: Option<int>)
    | MessageDelta(outputTokens: Option<int>)
    | OtherEvent

  /** The two formats. An event changes the counts; decoding is left open, and None stands for
      anything that raises. */
  datatype Format =
    | OpenAi(openAi: string -> Option<OpenAiEvent>)
    | Anthropic(anthropic: string -> Option<AnthropicEvent>)

  function Written(f: Field, current: Option<int>): Option<int> {
    match f case Missing => current case Present(v) => v
  }

  /** Which lines are decoded. Only the OpenAI scanner skips the end marker. */
  predicate IsData(fmt: Format, line: string) {
    DATA <= line && (fmt.OpenAi? ==> line != DONE)
  }

  /** The counts after a decoded payload; None if handling it raises. */
  function Apply(fmt: Format, payload: string, c: Counts): Option<Counts> {
    match fmt
    case OpenAi(decode) => (
      match decode(payload)
      case None => None
      case Some(NoUsage) => Some(c)
      case Some(Usage(p, q)) => Some(Counts(Written(p, c.promptTokens), Written(q, c.completionTokens)))
    )
    case Anthropic(decode) => (
      match decode(payload)
      case None => None
      case Some(MessageStart(n)) => Some(if n.Some? then c.(promptTokens := n) else c)
      case Some(MessageDelta(n)) => Some(if n.Some? then c.(completionTokens := n) else c)
      case Some(OtherEvent) => Some(c)
    )
  }

  /** Scan lines in order; the first one that raises ends the scan. */
  function ScanLines(fmt: Format, lines: seq<string>, c: Counts): Counts {
    if lines == [] then c
    else
      var line := Strip(lines[0]);
      if !IsData(fmt, line) then ScanLines(fmt, lines[1..], c)
      else
        match Apply(fmt, line[|DATA|..], c)
        case None => c
        case Some(next) => ScanLines(fmt, lines[1..], next)
  }

  function Scan(fmt: Format, text: string, c: Counts): Counts {
    ScanLines(fmt, Split(text), c)
  }

  function ScanChunks(fmt: Format, chunks: seq<string>, c: Counts): Counts {
    if chunks == [] then c else ScanChunks(fmt, chunks[1..], Scan(fmt, chunks[0], c))
  }

  class TokenContext {
    var promptTokens: Option<int>
    var completionTokens: Option<int>

    function View(): Counts
      reads this
    {
      Counts(promptTokens, completionTokens)
    }

    method ParseOpenAiChunk(text: string, decode: string -> Option<OpenAiEvent>)
      modifies this
      ensures View() == Scan(OpenAi(decode), text, old(View()))
    {
      var lines := Split(text);
      var i := 0;
      while i < |lines|
        invariant 0 <= i <= |lines|
        invariant ScanLines(OpenAi(decode), lines[i..], View()) == Scan(OpenAi(decode), text, old(View()))
      {
        assert lines[i..][0] == lines[i] && lines[i..][1..] == lines[i + 1..];
        var line := Strip(lines[i]);
        if DATA <= line && line != DONE {
          var event := decode(line[|DATA|..]);
          if event.None? {
            return;
          }
          if event.value.Usage? {
            if event.value.promptTokens.Present? {
              promptTokens := event.value.promptTokens.value;
            }
            if event.value.completionTokens.Present? {
              completionTokens := event.value.completionTokens.value;
            }
          }
        }
        i := i + 1;
      }
    }

    method ParseAnthropicChunk(text: string, decode: string -> Option<AnthropicEvent>)
      modifies this
      ensures View() == Scan(Anthropic(decode), text, old(View()))
    {
      var lines := Split(text);
      var i := 0;
      while i < |lines|
        invariant 0 <= i <= |lines|
        invariant ScanLines(Anthropic(decode), lines[i..], View()) == Scan(Anthropic(decode), text, old(View()))
      {
        assert lines[i..][0] == lines[i] && lines[i..][1..] == lines[i + 1..];
        var line := Strip(lines[i]);
        if DATA <= line {
          var event := decode(line[|DATA|..]);
          if event.None? {
            return;
          }
          match event.value {
            case MessageStart(n) =>
              if n.Some? {
                promptTokens := n;
              }
            case MessageDelta(n) =>
              if n.Some? {
                completionTokens := n;
              }
            case OtherEvent =>
          }
        }
        i := i + 1;
      }
    }
  }

  // ----- Chunk invariance -----

  /** Handling the line does not raise. Whether it does never depends on the counts. */
  predicate WellFormed(fmt: Format, line: string) {
    var s := Strip(line);
    IsData(fmt, s) ==> Apply(fmt, s[|DATA|..], Counts(None, None)).Some?
  }

  predicate AllWellFormed(fmt: Format, lines: seq<string>) {
    forall i :: 0 <= i < |lines| ==> WellFormed(fmt, lines[i])
  }

  /** A cut between two pieces of text falls at a line end. */
  predicate CutAtLineEnd(left: string, right: string) {
    left == [] || right == [] || left[|left| - 1] == '\n' || right[0] == '\n'
  }

  lemma {:induction false} ScanConcat(fmt: Format, a: seq<string>, b: seq<string>, c: Counts)
    requires AllWellFormed(fmt, a)
    ensures ScanLines(fmt, a + b, c) == ScanLines(fmt, b, ScanLines(fmt, a, c))
    decreases a
  {
    if a == [] {
      assert a + b == b;
    } else {
      assert (a + b)[0] == a[0] && (a + b)[1..] == a[1..] + b;
      var line := Strip(a[0]);
      assert WellFormed(fmt, a[0]);
      forall i | 0 <= i < |a[1..]| ensures WellFormed(fmt, a[1..][i]) {
        assert a[1..][i] == a[i + 1];
      }
      var next := if IsData(fmt, line) then Apply(fmt, line[|DATA|..], c) else Some(c);
      if next.Some? {
        ScanConcat(fmt, a[1..], b, next.value);
      }
    }
  }

  function Last(lines: seq<string>): string
    requires lines != []
  {
    lines[|lines| - 1]
  }

  function Init(lines: seq<string>): seq<string>
    requires lines != []
  {
    lines[..|lines| - 1]
  }

  /** Joining two pieces glues the last line of the left to the first line of the right. */
  function Glue(x: seq<string>, y: seq<string>): seq<string>
    requires x != [] && y != []
  {
    Init(x) + [Last(x) + y[0]] + y[1..]
  }

  lemma {:induction false} SplitConcat(a: string, b: string)
    ensures Split(a + b) == Glue(Split(a), Split(b))
    decreases a
  {
    if a == [] {
      assert a + b == b;
      assert [] + Split(b)[0] == Split(b)[0];
      assert Split(b) == [Split(b)[0]] + Split(b)[1..];
    } else {
      assert (a + b)[0] == a[0] && (a + b)[1..] == a[1..] + b;
      SplitConcat(a[1..], b);
      var x, y := Split(a[1..]), Split(b);
      if a[0] == '\n' {
        GlueNewLine(x, y);
      } else {
        GlueChar(a[0], x, y);
      }
    }
  }

  lemma GlueNewLine(x: seq<string>, y: seq<string>)
    requires x != [] && y != []
    ensures Glue([[]] + x, y) == [[]] + Glue(x, y)
  {
    assert Init([[]] + x) == [[]] + Init(x);
  }

  lemma GlueChar(ch: char, x: seq<string>, y: seq<string>)
    requires x != [] && y != []
    ensures Glue([[ch] + x[0]] + x[1..], y) == [[ch] + Glue(x, y)[0]] + Glue(x, y)[1..]
  {
    var longer := [[ch] + x[0]] + x[1..];
    if |x| == 1 {
      assert Init(x) == [] && Init(longer) == [];
      assert Glue(x, y) == [x[0] + y[0]] + y[1..];
      assert ([ch] + x[0]) + y[0] == [ch] + (x[0] + y[0]);
    } else {
      assert Init(longer) == [[ch] + x[0]] + Init(x)[1..];
      assert Glue(x, y)[0] == x[0];
      assert Glue(x, y)[1..] == Init(x)[1..] + [Last(x) + y[0]] + y[1..];
    }
  }

  lemma {:induction false} LastLineAfterNewline(a: string)
    requires a != [] && a[|a| - 1] == '\n'
    ensures Last(Split(a)) == []
    decreases a
  {
    if |a| == 1 {
      assert a[1..] == [];
    } else {
      LastLineAfterNewline(a[1..]);
    }
  }

  lemma EmptyLineIsNoData(fmt: Format)
    ensures !IsData(fmt, Strip([]))
  {
  }

  lemma GlueEmptyLast(x: seq<string>, y: seq<string>)
    requires x != [] && y != [] && Last(x) == []
    ensures Glue(x, y) == Init(x) + y
  {
    assert Last(x) + y[0] == y[0];
  }

  lemma GlueEmptyFirst(x: seq<string>, y: seq<string>)
    requires x != [] && y != [] && y[0] == []
    ensures Glue(x, y) == x + y[1..]
  {
    assert Last(x) + y[0] == Last(x);
  }

  /** At a line end one of the two glued lines is empty. */
  lemma SplitAtCut(a: string, b: string)
    requires CutAtLineEnd(a, b)
    ensures var x, y := Split(a), Split(b);
      || (Last(x) == [] && Split(a + b) == Init(x) + y)
      || (y[0] == [] && Split(a + b) == x + y[1..])
  {
    SplitConcat(a, b);
    if a == [] || a[|a| - 1] == '\n' {
      if a != [] {
        LastLineAfterNewline(a);
      }
      GlueEmptyLast(Split(a), Split(b));
    } else {
      GlueEmptyFirst(Split(a), Split(b));
    }
  }

  lemma WellFormedInit(fmt: Format, x: seq<string>)
    requires x != []
    ensures AllWellFormed(fmt, x) <==> AllWellFormed(fmt, Init(x)) && WellFormed(fmt, Last(x))
  {
    assert forall i :: 0 <= i < |Init(x)| ==> Init(x)[i] == x[i];
  }

  lemma DropEmptyLast(fmt: Format, x: seq<string>, y: seq<string>, c: Counts)
    requires x != [] && Last(x) == [] && AllWellFormed(fmt, Init(x))
    ensures ScanLines(fmt, Init(x) + y, c) == ScanLines(fmt, y, ScanLines(fmt, x, c))
  {
    ScanConcat(fmt, Init(x), y, c);
    SkipEmpty(fmt, Init(x), c);
    assert x == Init(x) + [[]];
  }

  lemma DropEmptyFirst(fmt: Format, x: seq<string>, y: seq<string>, c: Counts)
    requires y != [] && y[0] == [] && AllWellFormed(fmt, x)
    ensures ScanLines(fmt, x + y[1..], c) == ScanLines(fmt, y, ScanLines(fmt, x, c))
  {
    ScanConcat(fmt, x, y[1..], c);
    EmptyLineIsNoData(fmt);
  }

  /** Cutting a text at a line end does not change what its scan finds. */
  lemma ScanAcrossCut(fmt: Format, a: string, b: string, c: Counts)
    requires CutAtLineEnd(a, b) && AllWellFormed(fmt, Split(a))
    ensures Scan(fmt, a + b, c) == Scan(fmt, b, Scan(fmt, a, c))
  {
    SplitAtCut(a, b);
    WellFormedInit(fmt, Split(a));
    if Last(Split(a)) == [] && Split(a + b) == Init(Split(a)) + Split(b) {
      DropEmptyLast(fmt, Split(a), Split(b), c);
    } else {
      DropEmptyFirst(fmt, Split(a), Split(b), c);
    }
  }

  lemma OneEmptyLine(fmt: Format, c: Counts)
    ensures ScanLines(fmt, [[]], c) == c
  {
    EmptyLineIsNoData(fmt);
    var lines: seq<string> := [[]];
    assert lines[1..] == [];
  }

  lemma SkipEmpty(fmt: Format, init: seq<string>, c: Counts)
    requires AllWellFormed(fmt, init)
    ensures ScanLines(fmt, init + [[]], c) == ScanLines(fmt, init, c)
  {
    ScanConcat(fmt, init, [[]], c);
    var d := ScanLines(fmt, init, c);
    OneEmptyLine(fmt, d);
  }

  lemma {:induction false} ScanStops(fmt: Format, a: seq<string>, b: seq<string>, c: Counts)
    requires !AllWellFormed(fmt, a)
    ensures ScanLines(fmt, a + b, c) == ScanLines(fmt, a, c)
    decreases a
  {
    assert (a + b)[0] == a[0] && (a + b)[1..] == a[1..] + b;
    if WellFormed(fmt, a[0]) {
      var i :| 0 <= i < |a| && !WellFormed(fmt, a[i]);
      assert a[1..][i - 1] == a[i];
      var line := Strip(a[0]);
      var next := if IsData(fmt, line) then Apply(fmt, line[|DATA|..], c) else Some(c);
      if next.Some? {
        ScanStops(fmt, a[1..], b, next.value);
      }
    }
  }

  lemma StopsBeforeEmptyLast(fmt: Format, x: seq<string>, y: seq<string>, c: Counts)
    requires x != [] && Last(x) == [] && !AllWellFormed(fmt, Init(x))
    ensures ScanLines(fmt, Init(x) + y, c) == ScanLines(fmt, x, c)
  {
    ScanStops(fmt, Init(x), y, c);
    ScanStops(fmt, Init(x), [Last(x)], c);
    assert x == Init(x) + [Last(x)];
  }

  lemma MalformedEndsThePass(fmt: Format, a: string, b: string, c: Counts)
    requires CutAtLineEnd(a, b) && !AllWellFormed(fmt, Split(a))
    ensures Scan(fmt, a + b, c) == Scan(fmt, a, c)
  {
    SplitAtCut(a, b);
    WellFormedInit(fmt, Split(a));
    if Last(Split(a)) == [] && Split(a + b) == Init(Split(a)) + Split(b) {
      EmptyLineIsNoData(fmt);
      StopsBeforeEmptyLast(fmt, Split(a), Split(b), c);
    } else {
      ScanStops(fmt, Split(a), Split(b)[1..], c);
    }
  }

  function Concat(chunks: seq<string>): string {
    if chunks == [] then [] else chunks[0] + Concat(chunks[1..])
  }

  /** Every cut between consecutive chunks falls at a line end. */
  predicate CutAtLineEnds(chunks: seq<string>) {
    chunks == [] || (CutAtLineEnd(chunks[0], Concat(chunks[1..])) && CutAtLineEnds(chunks[1..]))
  }

  predicate EveryChunkWellFormed(fmt: Format, chunks: seq<string>) {
    forall i :: 0 <= i < |chunks| ==> AllWellFormed(fmt, Split(chunks[i]))
  }

  /** Chunk invariance: scanning chunk after chunk leaves the counts of one pass over the whole text. */
  lemma {:induction false} ChunksDoNotMatter(fmt: Format, chunks: seq<string>, c: Counts)
    requires CutAtLineEnds(chunks) && EveryChunkWellFormed(fmt, chunks)
    ensures ScanChunks(fmt, chunks, c) == Scan(fmt, Concat(chunks), c)
    decreases chunks
  {
    if chunks == [] {
      OneEmptyLine(fmt, c);
    } else {
      assert AllWellFormed(fmt, Split(chunks[0]));
      forall i | 0 <= i < |chunks[1..]| ensures AllWellFormed(fmt, Split(chunks[1..][i])) {
        assert chunks[1..][i] == chunks[i + 1];
      }
      ChunksDoNotMatter(fmt, chunks[1..], Scan(fmt, chunks[0], c));
      ScanAcrossCut(fmt, chunks[0], Concat(chunks[1..]), c);
    }
  }

  // ----- Lines and data lines in plain terms -----

  function Join(lines: seq<string>): string
    requires lines != []
  {
    if |lines| == 1 then lines[0] else lines[0] + "\n" + Join(lines[1..])
  }

  lemma JoinNewLine(lines: seq<string>)
    requires lines != []
    ensures Join([[]] + lines) == "\n" + Join(lines)
  {
    assert ([[]] + lines)[1..] == lines;
  }

  lemma JoinChar(ch: char, lines: seq<string>)
    requires lines != []
    ensures Join([[ch] + lines[0]] + lines[1..]) == [ch] + Join(lines)
  {
    var first := [ch] + lines[0];
    assert ([first] + lines[1..])[1..] == lines[1..];
    if |lines| > 1 {
      assert first + "\n" + Join(lines[1..]) == [ch] + (lines[0] + "\n" + Join(lines[1..]));
    }
  }

  lemma {:induction false} NoLineEndInside(text: string)
    ensures forall line :: line in Split(text) ==> '\n' !in line
  {
    if text != [] {
      NoLineEndInside(text[1..]);
      assert forall line :: line in Split(text[1..])[1..] ==> line in Split(text[1..]);
    }
  }

  lemma {:induction false} JoinSplit(text: string)
    ensures Join(Split(text)) == text
  {
    if text != [] {
      JoinSplit(text[1..]);
      assert text == [text[0]] + text[1..];
      if text[0] == '\n' {
        JoinNewLine(Split(text[1..]));
      } else {
        JoinChar(text[0], Split(text[1..]));
      }
    }
  }

  /** Splitting is the inverse of joining with line ends, and no line has a line end in it. */
  lemma SplitIsUnjoined(text: string)
    ensures Join(Split(text)) == text
    ensures forall line :: line in Split(text) ==> '\n' !in line
  {
    JoinSplit(text);
    NoLineEndInside(text);
  }

  predicate AllSpace(s: string) {
    forall i :: 0 <= i < |s| ==> IsSpace(s[i])
  }

  lemma {:induction false} LeftStripped(s: string) returns (gone: string)
    ensures s == gone + StripLeft(s) && AllSpace(gone)
    ensures StripLeft(s) != [] ==> !IsSpace(StripLeft(s)[0])
  {
    if s != [] && IsSpace(s[0]) {
      var more := LeftStripped(s[1..]);
      gone := [s[0]] + more;
      assert s == [s[0]] + s[1..];
      assert gone + StripLeft(s) == [s[0]] + (more + StripLeft(s[1..]));
    } else {
      gone := [];
    }
  }

  lemma {:induction false} RightStripped(s: string) returns (gone: string)
    ensures s == StripRight(s) + gone && AllSpace(gone)
    ensures StripRight(s) != [] ==> !IsSpace(StripRight(s)[|StripRight(s)| - 1])
  {
    if s != [] && IsSpace(s[|s| - 1]) {
      var n := |s| - 1;
      var more := RightStripped(s[..n]);
      gone := more + [s[n]];
      assert s == s[..n] + [s[n]];
      assert StripRight(s) + gone == (StripRight(s[..n]) + more) + [s[n]];
    } else {
      gone := [];
    }
  }

  /** Stripping takes white space off both ends and leaves none there. */
  lemma StripIsMiddle(s: string) returns (left: string, right: string)
    ensures s == left + Strip(s) + right && AllSpace(left) && AllSpace(right)
    ensures Strip(s) != [] ==> !IsSpace(Strip(s)[0]) && !IsSpace(Strip(s)[|Strip(s)| - 1])
  {
    left := LeftStripped(s);
    right := RightStripped(StripLeft(s));
  }

  lemma {:induction false} StripRightEnd(s: string, end: string)
    requires AllSpace(end)
    ensures StripRight(s + end) == StripRight(s)
    decreases |end|
  {
    if end == [] {
      assert s + end == s;
    } else {
      var n := |end| - 1;
      assert (s + end)[..|s + end| - 1] == s + end[..n] && (s + end)[|s + end| - 1] == end[n];
      StripRightEnd(s, end[..n]);
    }
  }

  lemma {:induction false} StripLeftEnd(s: string, end: string)
    requires AllSpace(end)
    ensures StripLeft(s + end) == if StripLeft(s) == [] then StripLeft(end) else StripLeft(s) + end
    decreases |s|
  {
    if s == [] {
      assert s + end == end;
    } else if IsSpace(s[0]) {
      assert (s + end)[1..] == s[1..] + end;
      StripLeftEnd(s[1..], end);
    }
  }

  lemma {:induction false} SpaceStripsToNothing(s: string)
    requires AllSpace(s)
    ensures StripLeft(s) == []
  {
    if s != [] {
      SpaceStripsToNothing(s[1..]);
    }
  }

  /** White space at the end of a line, such as the carriage return of a CRLF line end, does not matter. */
  lemma LineEndDoesNotMatter(line: string, end: string)
    requires AllSpace(end)
    ensures Strip(line + end) == Strip(line)
    ensures AllSpace("\r") && AllSpace(" \t\r")
  {
    StripLeftEnd(line, end);
    SpaceStripsToNothing(end);
    if StripLeft(line) != [] {
      StripRightEnd(StripLeft(line), end);
    }
  }

  /** What a line that starts with "data: " does in the OpenAI format, for any decoder: the end marker is
      passed over, and any other payload is decoded and its usage written field by field. */
  lemma OpenAiDataLine(decode: string -> Option<OpenAiEvent>, payload: string, later: seq<string>, c: Counts)
    requires payload != [] && !IsSpace(payload[|payload| - 1])
    ensures ScanLines(OpenAi(decode), ["data: " + payload] + later, c) ==
      if payload == "[DONE]" then ScanLines(OpenAi(decode), later, c) else
      match decode(payload)
      case None => c
      case Some(NoUsage) => ScanLines(OpenAi(decode), later, c)
      case Some(Usage(p, q)) =>
        ScanLines(OpenAi(decode), later,
                  Counts(if p.Missing? then c.promptTokens else p.value,
                         if q.Missing? then c.completionTokens else q.value))
  {
    DataLine(payload, later);
  }

  /** The same in the Anthropic format, which has no end marker: a message start with a number sets the
      prompt count, a message delta with a number the completion count, and nothing else changes. */
  lemma AnthropicDataLine(decode: string -> Option<AnthropicEvent>, payload: string, later: seq<string>, c: Counts)
    requires payload != [] && !IsSpace(payload[|payload| - 1])
    ensures ScanLines(Anthropic(decode), ["data: " + payload] + later, c) ==
      match decode(payload)
      case None => c
      case Some(MessageStart(Some(n))) => ScanLines(Anthropic(decode), later, Counts(Some(n), c.completionTokens))
      case Some(MessageDelta(Some(n))) => ScanLines(Anthropic(decode), later, Counts(c.promptTokens, Some(n)))
      case Some(_) => ScanLines(Anthropic(decode), later, c)
  {
    DataLine(payload, later);
  }

  lemma DataLine(payload: string, later: seq<string>)
    requires payload != [] && !IsSpace(payload[|payload| - 1])
    ensures Strip("data: " + payload) == "data: " + payload && ("data: " + payload)[|DATA|..] == payload
    ensures "data: " + payload == DONE <==> payload == "[DONE]"
    ensures DATA <= "data: " + payload && (["data: " + payload] + later)[1..] == later
  {
    var line := "data: " + payload;
    assert line[0] == 'd' && line[|line| - 1] == payload[|payload| - 1];
    assert DONE[6..] == "[DONE]" && line[6..] == payload;
    assert DONE[..6] == "data: " && line[..6] == "data: ";
    assert DONE == DONE[..6] + DONE[6..];
  }

  /** A line whose text does not start with "data: " is passed over in both formats. */
  lemma OtherLine(fmt: Format, line: string, later: seq<string>, c: Counts)
    requires !("data: " <= Strip(line))
    ensures ScanLines(fmt, [line] + later, c) == ScanLines(fmt, later, c)
  {
    assert ([line] + later)[1..] == later;
  }

  // ----- Last writer wins -----

  /** What a line writes to the prompt count, and to the completion count. */
  function PromptWrite(fmt: Format, line: string): Field {
    var s := Strip(line);
    if !IsData(fmt, s) then Missing else
    match fmt
    case OpenAi(decode) => (
      match decode(s[|DATA|..])
      case Some(Usage(p, _)) => p
      case _ => Missing
    )
    case Anthropic(decode) => (
      match decode(s[|DATA|..])
      case Some(MessageStart(Some(n))) => Present(Some(n))
      case _ => Missing
    )
  }

  function CompletionWrite(fmt: Format, line: string): Field {
    var s := Strip(line);
    if !IsData(fmt, s) then Missing else
    match fmt
    case OpenAi(decode) => (
      match decode(s[|DATA|..])
      case Some(Usage(_, q)) => q
      case _ => Missing
    )
    case Anthropic(decode) => (
      match decode(s[|DATA|..])
      case Some(MessageDelta(Some(n))) => Present(Some(n))
      case _ => Missing
    )
  }

  function PromptWrites(fmt: Format, lines: seq<string>): seq<Field> {
    if lines == [] then [] else [PromptWrite(fmt, lines[0])] + PromptWrites(fmt, lines[1..])
  }

  function CompletionWrites(fmt: Format, lines: seq<string>): seq<Field> {
    if lines == [] then [] else [CompletionWrite(fmt, lines[0])] + CompletionWrites(fmt, lines[1..])
  }

  /** The lines ahead of the first malformed one. */
  function Before(fmt: Format, lines: seq<string>): seq<string> {
    if lines == [] || !WellFormed(fmt, lines[0]) then [] else [lines[0]] + Before(fmt, lines[1..])
  }

  function LastPresent(writes: seq<Field>): Field {
    if writes == [] then Missing
    else
      var later := LastPresent(writes[1..]);
      if later.Present? then later else writes[0]
  }

  /** What the lines of a text write to each count in the end. */
  function FinalPrompt(fmt: Format, lines: seq<string>): Field {
    LastPresent(PromptWrites(fmt, Before(fmt, lines)))
  }

  function FinalCompletion(fmt: Format, lines: seq<string>): Field {
    LastPresent(CompletionWrites(fmt, Before(fmt, lines)))
  }

  lemma {:induction false} BeforeIsPrefix(fmt: Format, lines: seq<string>)
    ensures var n := |Before(fmt, lines)|;
      n <= |lines| && Before(fmt, lines) == lines[..n] && (n < |lines| ==> !WellFormed(fmt, lines[n]))
  {
    if lines != [] && WellFormed(fmt, lines[0]) {
      var rest := Before(fmt, lines[1..]);
      BeforeIsPrefix(fmt, lines[1..]);
      assert [lines[0]] + lines[1..][..|rest|] == lines[..|rest| + 1];
    }
  }

  lemma {:induction false} BeforeIsWellFormed(fmt: Format, lines: seq<string>)
    ensures AllWellFormed(fmt, Before(fmt, lines))
  {
    if lines != [] && WellFormed(fmt, lines[0]) {
      BeforeIsWellFormed(fmt, lines[1..]);
    }
  }

  lemma BeforeIsTheWellFormedPrefix(fmt: Format, lines: seq<string>)
    ensures Before(fmt, lines) <= lines && AllWellFormed(fmt, Before(fmt, lines))
    ensures AllWellFormed(fmt, lines) ==> Before(fmt, lines) == lines
    ensures Before(fmt, lines) != lines ==> !WellFormed(fmt, lines[|Before(fmt, lines)|])
  {
    BeforeIsPrefix(fmt, lines);
    BeforeIsWellFormed(fmt, lines);
    assert lines[..|lines|] == lines;
  }

  lemma {:induction false} LastPresentIsLast(writes: seq<Field>)
    ensures LastPresent(writes).Missing? ==> forall i :: 0 <= i < |writes| ==> writes[i].Missing?
    ensures LastPresent(writes).Present? ==>
      exists i :: 0 <= i < |writes| && writes[i] == LastPresent(writes)
                  && forall j :: i < j < |writes| ==> writes[j].Missing?
  {
    if writes != [] {
      var rest := writes[1..];
      LastPresentIsLast(rest);
      assert forall i :: 0 < i < |writes| ==> writes[i] == rest[i - 1];
      if LastPresent(rest).Present? {
        var i :| 0 <= i < |rest| && rest[i] == LastPresent(rest) && forall j :: i < j < |rest| ==> rest[j].Missing?;
        assert writes[i + 1] == LastPresent(writes);
      } else if writes[0].Present? {
        assert writes[0] == LastPresent(writes);
      }
    }
  }

  lemma ScanOneLine(fmt: Format, lines: seq<string>, c: Counts)
    requires lines != [] && WellFormed(fmt, lines[0])
    ensures ScanLines(fmt, lines, c) ==
      ScanLines(fmt, lines[1..], Counts(Written(PromptWrite(fmt, lines[0]), c.promptTokens),
                                        Written(CompletionWrite(fmt, lines[0]), c.completionTokens)))
  {
  }

  lemma FirstOfWrites(first: Field, rest: seq<Field>, before: Option<int>)
    ensures Written(LastPresent([first] + rest), before) == Written(LastPresent(rest), Written(first, before))
  {
    assert ([first] + rest)[1..] == rest;
  }

  /** On any text each count ends as the last line ahead of the first malformed one left it, or as it was. */
  lemma {:induction false} LastWriterWins(fmt: Format, lines: seq<string>, c: Counts)
    ensures ScanLines(fmt, lines, c) ==
      Counts(Written(FinalPrompt(fmt, lines), c.promptTokens), Written(FinalCompletion(fmt, lines), c.completionTokens))
    decreases lines
  {
    if lines != [] && WellFormed(fmt, lines[0]) {
      var p, q := PromptWrite(fmt, lines[0]), CompletionWrite(fmt, lines[0]);
      var next := Counts(Written(p, c.promptTokens), Written(q, c.completionTokens));
      ScanOneLine(fmt, lines, c);
      LastWriterWins(fmt, lines[1..], next);
      var rest := Before(fmt, lines[1..]);
      assert Before(fmt, lines)[1..] == rest;
      FirstOfWrites(p, PromptWrites(fmt, rest), c.promptTokens);
      FirstOfWrites(q, CompletionWrites(fmt, rest), c.completionTokens);
    }
  }

  // ----- What a cut costs -----

  /** Writing f over v leaves v. */
  predicate Keeps(f: Field, v: Option<int>) {
    f.Missing? || f.value == v
  }

  /** Nothing that the right piece writes differs from what the left piece leaves. */
  predicate AddsNothing(fmt: Format, left: seq<string>, right: seq<string>, c: Counts) {
    && Keeps(FinalPrompt(fmt, right), Written(FinalPrompt(fmt, left), c.promptTokens))
    && Keeps(FinalCompletion(fmt, right), Written(FinalCompletion(fmt, left), c.completionTokens))
  }

  /** A cut at a line end is harmless exactly when the left piece is well formed, or the last writes of
      the right piece, ahead of its first malformed line, are missing or repeat what the left piece left:
      one pass stops at a malformed line, the next chunk starts afresh. */
  lemma CutHarmlessIff(fmt: Format, a: string, b: string, c: Counts)
    requires CutAtLineEnd(a, b)
    ensures Scan(fmt, a + b, c) == Scan(fmt, b, Scan(fmt, a, c)) <==>
      AllWellFormed(fmt, Split(a)) || AddsNothing(fmt, Split(a), Split(b), c)
  {
    if AllWellFormed(fmt, Split(a)) {
      ScanAcrossCut(fmt, a, b, c);
    } else {
      MalformedEndsThePass(fmt, a, b, c);
      LastWriterWins(fmt, Split(a), c);
      LastWriterWins(fmt, Split(b), Scan(fmt, a, c));
    }
  }

  /** A later write after an earlier one. */
  function Over(earlier: Field, later: Field): Field {
    if later.Present? then later else earlier
  }

  lemma WrittenOver(earlier: Field, later: Field, v: Option<int>)
    ensures Written(Over(earlier, later), v) == Written(later, Written(earlier, v))
  {
  }

  /** The counts after the writes of one line, if it is well formed. */
  function LineWritten(fmt: Format, line: string, c: Counts): Counts {
    Counts(Written(PromptWrite(fmt, line), c.promptTokens), Written(CompletionWrite(fmt, line), c.completionTokens))
  }

  lemma FromLine(fmt: Format, line: string, later: seq<string>, c: Counts)
    ensures ScanLines(fmt, [line] + later, c) ==
      if WellFormed(fmt, line) then ScanLines(fmt, later, LineWritten(fmt, line, c)) else c
  {
    assert ([line] + later)[1..] == later;
    if WellFormed(fmt, line) {
      ScanOneLine(fmt, [line] + later, c);
    }
  }

  lemma MalformedWritesNothing(fmt: Format, line: string)
    requires !WellFormed(fmt, line)
    ensures PromptWrite(fmt, line) == Missing && CompletionWrite(fmt, line) == Missing
  {
  }

  lemma LeftScan(fmt: Format, x: seq<string>, c: Counts)
    requires x != [] && AllWellFormed(fmt, Init(x))
    ensures ScanLines(fmt, x, c) == LineWritten(fmt, Last(x), ScanLines(fmt, Init(x), c))
  {
    var d := ScanLines(fmt, Init(x), c);
    assert x == Init(x) + ([Last(x)] + []);
    ScanConcat(fmt, Init(x), [Last(x)] + [], c);
    FromLine(fmt, Last(x), [], d);
    if !WellFormed(fmt, Last(x)) {
      MalformedWritesNothing(fmt, Last(x));
    }
  }

  lemma RightScan(fmt: Format, y: seq<string>, c: Counts)
    requires y != []
    ensures ScanLines(fmt, y, c) ==
      if WellFormed(fmt, y[0]) then ScanLines(fmt, y[1..], LineWritten(fmt, y[0], c)) else c
  {
    assert y == [y[0]] + y[1..];
    FromLine(fmt, y[0], y[1..], c);
  }

  lemma GluedScan(fmt: Format, x: seq<string>, y: seq<string>, c: Counts)
    requires x != [] && y != [] && AllWellFormed(fmt, Init(x))
    ensures var d, glued := ScanLines(fmt, Init(x), c), Last(x) + y[0];
      ScanLines(fmt, Glue(x, y), c) ==
        if WellFormed(fmt, glued) then ScanLines(fmt, y[1..], LineWritten(fmt, glued, d)) else d
  {
    var glued := Last(x) + y[0];
    assert Glue(x, y) == Init(x) + ([glued] + y[1..]);
    ScanConcat(fmt, Init(x), [glued] + y[1..], c);
    FromLine(fmt, glued, y[1..], ScanLines(fmt, Init(x), c));
  }

  /** What a cut does to one count. The cut makes two lines, left and right, out of one, glued, and d is the
      count ahead of it. If the glued line is well formed and the right one too, the lines after them are
      scanned either way and hide the difference if they write the count. A malformed glued line ends the
      one pass, and a malformed right line ends the second chunk. */
  predicate CountKept(gluedOk: bool, rightOk: bool, left: Field, right: Field, glued: Field, later: Field,
                      d: Option<int>) {
    if gluedOk && rightOk then later.Present? || Written(glued, d) == Written(Over(left, right), d)
    else if gluedOk then Written(Over(glued, later), d) == Written(left, d)
    else if rightOk then Keeps(Over(Over(left, right), later), d)
    else Keeps(left, d)
  }

  /** The cut between the last line of x and the first of y is harmless: one pass ends before it and the
      second chunk adds nothing, or both counts are kept at the seam. */
  predicate SeamHarmless(fmt: Format, x: seq<string>, y: seq<string>, c: Counts)
    requires x != [] && y != []
  {
    if !AllWellFormed(fmt, Init(x)) then AddsNothing(fmt, x, y, c)
    else
      var left, right, glued, later := Last(x), y[0], Last(x) + y[0], y[1..];
      var d := ScanLines(fmt, Init(x), c);
      && CountKept(WellFormed(fmt, glued), WellFormed(fmt, right), PromptWrite(fmt, left), PromptWrite(fmt, right),
                   PromptWrite(fmt, glued), FinalPrompt(fmt, later), d.promptTokens)
      && CountKept(WellFormed(fmt, glued), WellFormed(fmt, right), CompletionWrite(fmt, left),
                   CompletionWrite(fmt, right), CompletionWrite(fmt, glued), FinalCompletion(fmt, later),
                   d.completionTokens)
  }

  lemma KeptIffSame(gluedOk: bool, rightOk: bool, left: Field, right: Field, glued: Field, later: Field,
                    d: Option<int>)
    ensures CountKept(gluedOk, rightOk, left, right, glued, later, d) <==>
      (if gluedOk then Written(later, Written(glued, d)) else d) ==
      (if rightOk then Written(later, Written(right, Written(left, d))) else Written(left, d))
  {
  }

  lemma SeamReached(fmt: Format, x: seq<string>, y: seq<string>, c: Counts)
    requires x != [] && y != [] && AllWellFormed(fmt, Init(x))
    ensures ScanLines(fmt, Glue(x, y), c) == ScanLines(fmt, y, ScanLines(fmt, x, c)) <==> SeamHarmless(fmt, x, y, c)
  {
    var left, right, glued, later := Last(x), y[0], Last(x) + y[0], y[1..];
    var d := ScanLines(fmt, Init(x), c);
    GluedScan(fmt, x, y, c);
    LeftScan(fmt, x, c);
    RightScan(fmt, y, ScanLines(fmt, x, c));
    LastWriterWins(fmt, later, LineWritten(fmt, glued, d));
    LastWriterWins(fmt, later, LineWritten(fmt, right, LineWritten(fmt, left, d)));
    KeptIffSame(WellFormed(fmt, glued), WellFormed(fmt, right), PromptWrite(fmt, left), PromptWrite(fmt, right),
                PromptWrite(fmt, glued), FinalPrompt(fmt, later), d.promptTokens);
    KeptIffSame(WellFormed(fmt, glued), WellFormed(fmt, right), CompletionWrite(fmt, left),
                CompletionWrite(fmt, right), CompletionWrite(fmt, glued), FinalCompletion(fmt, later),
                d.completionTokens);
  }

  lemma SeamNotReached(fmt: Format, x: seq<string>, y: seq<string>, c: Counts)
    requires x != [] && y != [] && !AllWellFormed(fmt, Init(x))
    ensures ScanLines(fmt, Glue(x, y), c) == ScanLines(fmt, y, ScanLines(fmt, x, c)) <==> SeamHarmless(fmt, x, y, c)
  {
    var glued := [Last(x) + y[0]] + y[1..];
    assert Glue(x, y) == Init(x) + glued && x == Init(x) + [Last(x)];
    ScanStops(fmt, Init(x), glued, c);
    ScanStops(fmt, Init(x), [Last(x)], c);
    LastWriterWins(fmt, x, c);
    LastWriterWins(fmt, y, ScanLines(fmt, x, c));
  }

  /** Any cut, anywhere, in any text: exactly when it leaves the counts of one pass. */
  lemma AnyCutHarmlessIff(fmt: Format, a: string, b: string, c: Counts)
    ensures Scan(fmt, a + b, c) == Scan(fmt, b, Scan(fmt, a, c)) <==> SeamHarmless(fmt, Split(a), Split(b), c)
  {
    SplitConcat(a, b);
    if AllWellFormed(fmt, Init(Split(a))) {
      SeamReached(fmt, Split(a), Split(b), c);
    } else {
      SeamNotReached(fmt, Split(a), Split(b), c);
    }
  }

  predicate WritesNothing(fmt: Format, line: string) {
    PromptWrite(fmt, line).Missing? && CompletionWrite(fmt, line).Missing?
  }

  /** The ordinary cut inside a data line: neither half of the line writes anything, and the second is no
      data line. It is harmless exactly when, for each count, a later line of the right piece, ahead of its
      first malformed one, writes it, or the whole line's write is missing or repeats what the lines before
      it left; and if the whole line is malformed, when the later lines write nothing new. */
  lemma CutInsideLineIff(fmt: Format, a: string, b: string, c: Counts)
    requires AllWellFormed(fmt, Init(Split(a))) && WellFormed(fmt, Split(b)[0])
    requires WritesNothing(fmt, Last(Split(a))) && WritesNothing(fmt, Split(b)[0])
    ensures var d, glued, later := ScanLines(fmt, Init(Split(a)), c), Last(Split(a)) + Split(b)[0], Split(b)[1..];
      Scan(fmt, a + b, c) == Scan(fmt, b, Scan(fmt, a, c)) <==>
        if WellFormed(fmt, glued) then
          && (FinalPrompt(fmt, later).Present? || Keeps(PromptWrite(fmt, glued), d.promptTokens))
          && (FinalCompletion(fmt, later).Present? || Keeps(CompletionWrite(fmt, glued), d.completionTokens))
        else
          Keeps(FinalPrompt(fmt, later), d.promptTokens) && Keeps(FinalCompletion(fmt, later), d.completionTokens)
  {
    AnyCutHarmlessIff(fmt, a, b, c);
  }

  // ----- Cuts that change counts -----

  /** Two halves of the payload {"usage": {"prompt_tokens": 1}}. */
  const USAGE_START := "{\"us"
  const USAGE_END := "age\": {\"prompt_tokens\": 1}}"
  const USAGE := USAGE_START + USAGE_END
  const NO_JSON := "data: x"

  /** JSON decoding, as far as the payloads below go: the only one that is JSON is USAGE. */
  const JSON := OpenAi(payload => if payload == USAGE then Some(Usage(Present(Some(1)), Missing)) else None)

  lemma {:induction false} OneLine(text: string)
    requires '\n' !in text
    ensures Split(text) == [text]
  {
    if text != [] {
      OneLine(text[1..]);
      assert [text[0]] + text[1..] == text;
    }
  }

  lemma ScanOfOneLine(fmt: Format, line: string, c: Counts)
    requires Split(line) == [line]
    ensures Scan(fmt, line, c) == LineWritten(fmt, line, c)
  {
    LeftScan(fmt, [line], c);
  }

  lemma UsageIsOneLine()
    ensures Split(DATA + USAGE) == [DATA + USAGE]
  {
    OneLine(DATA + USAGE);
  }

  lemma StartIsOneLine()
    ensures Split(DATA + USAGE_START) == [DATA + USAGE_START]
  {
    OneLine(DATA + USAGE_START);
  }

  lemma EndIsOneLine()
    ensures Split(USAGE_END) == [USAGE_END]
  {
    OneLine(USAGE_END);
  }

  lemma NoJsonLine()
    ensures Split(NO_JSON + "\n") == [NO_JSON, []]
  {
    OneLine(NO_JSON);
    var end := "\n";
    assert end[1..] == [];
    assert Split(end) == [[], []];
    SplitConcat(NO_JSON, end);
    assert NO_JSON + [] == NO_JSON;
  }

  lemma UsageWrites()
    ensures WellFormed(JSON, DATA + USAGE)
    ensures PromptWrite(JSON, DATA + USAGE) == Present(Some(1)) && CompletionWrite(JSON, DATA + USAGE) == Missing
  {
    var line := DATA + USAGE;
    assert Strip(line) == line && line[|DATA|..] == USAGE;
    assert line[6] != DONE[6];
  }

  lemma Regroup(a: string, b: string, c: string)
    ensures (a + b) + c == a + (b + c)
  {
  }

  lemma ScanOfUsage(c: Counts)
    ensures Scan(JSON, DATA + USAGE, c) == c.(promptTokens := Some(1))
  {
    UsageIsOneLine();
    UsageWrites();
    ScanOfOneLine(JSON, DATA + USAGE, c);
  }

  lemma NoJsonIsMalformed()
    ensures !WellFormed(JSON, NO_JSON)
  {
    assert Strip(NO_JSON) == NO_JSON && |NO_JSON[|DATA|..]| != |USAGE|;
    assert NO_JSON != DONE;
  }

  lemma HalvesWriteNothing()
    ensures WritesNothing(JSON, DATA + USAGE_START)
    ensures WritesNothing(JSON, USAGE_END) && WellFormed(JSON, USAGE_END)
  {
    var line := DATA + USAGE_START;
    assert Strip(line) == line && line[|DATA|..] == USAGE_START && |USAGE_START| != |USAGE|;
    assert Strip(USAGE_END) == USAGE_END && USAGE_END[0] != DATA[0];
  }

  /** A line that is no JSON, a line end, then a usage line: chunk by chunk the count is read, in one pass
      it is not. */
  lemma CutChangesCounts() returns (a: string, b: string, c: Counts)
    ensures a == NO_JSON + "\n" && b == DATA + USAGE && CutAtLineEnd(a, b)
    ensures Scan(JSON, a + b, c).promptTokens == None
    ensures Scan(JSON, b, Scan(JSON, a, c)).promptTokens == Some(1)
  {
    c := Counts(None, None);
    a, b := NO_JSON + "\n", DATA + USAGE;
    NoJsonLine();
    NoJsonIsMalformed();
    assert !WellFormed(JSON, Split(a)[0]);
    MalformedEndsThePass(JSON, a, b, c);
    RightScan(JSON, [NO_JSON, []], c);
    ScanOfUsage(c);
  }

  /** A cut inside a data line loses the line's count. */
  lemma CutInsideLineLosesCount() returns (a: string, b: string, c: Counts)
    ensures a == DATA + USAGE_START && b == USAGE_END
    ensures Scan(JSON, a + b, c).promptTokens == Some(1)
    ensures Scan(JSON, b, Scan(JSON, a, c)).promptTokens == None
  {
    c := Counts(None, None);
    a, b := DATA + USAGE_START, USAGE_END;
    StartIsOneLine();
    EndIsOneLine();
    HalvesWriteNothing();
    ScanOfOneLine(JSON, a, c);
    ScanOfOneLine(JSON, b, c);
    ScanOfUsage(c);
    Regroup(DATA, USAGE_START, USAGE_END);
  }
}
