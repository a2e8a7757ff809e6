/** HTTP messages as text: the encoder, the four-state decoder, and what the decoder means. */
module HttpCodec {
  import opened Options
  import opened Text
  import opened HttpHeaders
  import opened FirstLine

  datatype Message = Message(start: Start, headers: seq<Header>, body: string)

  const CRLF := "\r\n"

  // ----- the encoder ---------------------------------------------------------------------

  /** The encoder gives a body its Content-Length, unless the message has one already. */
  function WithLength(m: Message): Message {
    if m.body != "" && !Has(m.headers, CONTENT_LENGTH)
    then m.(headers := Set(m.headers, CONTENT_LENGTH, Decimal(|m.body|)))
    else m
  }

  function HeaderTexts(headers: seq<Header>): (r: seq<string>)
    ensures |r| == |headers| && forall i :: 0 <= i < |r| ==> r[i] == LineText(headers[i])
  {
    if headers == [] then [] else [LineText(headers[0])] + HeaderTexts(headers[1..])
  }

  /** Every line with its line break. */
  function Unlines(lines: seq<string>): string {
    if lines == [] then "" else lines[0] + (CRLF + Unlines(lines[1..]))
  }

  /** HttpProtocolEncoder::apply. */
  function Encode(m: Message): string {
    Unlines([Line(m.start)] + (HeaderTexts(WithLength(m).headers) + [""])) + m.body
  }

  // ----- tokens --------------------------------------------------------------------------

  datatype Token = Token(text: string, rest: string)

  predicate BreakAt(s: string, i: nat) {
    i + 1 < |s| && s[i] == '\r' && s[i + 1] == '\n'
  }

  ghost predicate NoBreak(s: string) {
    forall i: nat :: !BreakAt(s, i)
  }

  /** HttpProtocolDecoder::readToken, when there is something left. */
  function ReadToken(s: string): (t: Token)
    requires s != ""
    ensures |t.rest| < |s|
  {
    var end := FindPair(s, '\r', '\n');
    if end == |s| then Token(s, "") else Token(s[..end], s[end + 2..])
  }

  // ----- the state machine ---------------------------------------------------------------

  datatype Phase = WaitingMessage | WaitingContentLength | WaitingBody | ReadBody

  datatype Context = Context(phase: Phase, result: Option<Message>, expected: nat)

  datatype Step = Continue(context: Context) | Completed(context: Context) | Failed

  const START := Context(WaitingMessage, None, 0)

  predicate Sound(c: Context) {
    c.phase.WaitingMessage? || c.result.Some?
  }

  function WithSetting(m: Message, setting: Header): Message {
    m.(headers := Set(m.headers, setting.name, setting.value))
  }

  predicate IsLength(setting: Header) {
    setting.name == CONTENT_LENGTH && IsNumeric(setting.value)
  }

  /** The expected size is kept in 32 bits. */
  function LengthIn(setting: Header): nat
    requires IsLength(setting)
  {
    Atol(setting.value) % 0x1_0000_0000
  }

  /** The header of a line is set whatever the state. */
  function SetLine(m: Message, line: string): Message {
    WithSetting(m, LineSetting(line))
  }

  /** HttpProtocolWaitingMessage::process. */
  function ProcessMessage(c: Context, token: string): Step {
    match ReadFirstLine(token)
    case Err => Failed
    case Ok(None) => Continue(c)
    case Ok(Some(start)) => Continue(Context(WaitingContentLength, Some(Message(start, [], "")), c.expected))
  }

  /** HttpProtocolWaitingContentLength::process. */
  function ProcessContentLength(c: Context, m: Message, token: string): Step {
    if token == "" then Completed(c) else Continue(FirstHeaders(c, m, LineSetting(token)))
  }

  function FirstHeaders(c: Context, m: Message, setting: Header): Context {
    var kept := c.(result := Some(WithSetting(m, setting)));
    if IsLength(setting) then kept.(phase := WaitingBody, expected := LengthIn(setting)) else kept
  }

  /** HttpProtocolWaitingBody::process. */
  function ProcessBody(c: Context, m: Message, token: string): Step {
    if token == "" then Continue(c.(phase := ReadBody)) else Continue(c.(result := Some(SetLine(m, token))))
  }

  /** HttpProtocolReadBody::process. */
  function ProcessReadBody(c: Context, m: Message, token: string): Step {
    if |token| != c.expected then Failed else Completed(c.(result := Some(m.(body := token))))
  }

  function Process(c: Context, token: string): (step: Step)
    requires Sound(c)
    ensures !step.Failed? ==> Sound(step.context)
  {
    match c.phase
    case WaitingMessage => ProcessMessage(c, token)
    case WaitingContentLength => ProcessContentLength(c, c.result.value, token)
    case WaitingBody => ProcessBody(c, c.result.value, token)
    case ReadBody => ProcessReadBody(c, c.result.value, token)
  }

  /** The loop of HttpProtocolDecoder::apply. */
  function Run(c: Context, s: string): (r: Result<Context>)
    requires Sound(c)
    ensures r.Ok? ==> Sound(r.value)
    decreases |s|
  {
    if s == "" then Ok(c)
    else
      var token := ReadToken(s);
      match Process(c, token.text)
      case Failed => Err
      case Completed(last) => Ok(last)
      case Continue(next) => Run(next, token.rest)
  }

  function Delivered(r: Result<Context>): Result<Message> {
    if r.Err? || r.value.result.None? then Err else Ok(r.value.result.value)
  }

  function Decode(s: string): Result<Message> {
    Delivered(Run(START, s))
  }

  // ----- invariants of every run ---------------------------------------------------------

  function Rank(p: Phase): nat {
    match p case WaitingMessage => 0 case WaitingContentLength => 1 case WaitingBody => 2 case ReadBody => 3
  }

  /** There is a message exactly when the first state has been left, and a body only if it has the
      expected size. */
  ghost predicate Orderly(c: Context) {
    && (c.result.None? <==> c.phase.WaitingMessage?)
    && c.expected < 0x1_0000_0000
    && (c.result.Some? ==> Distinct(c.result.value.headers))
    && (c.result.Some? && c.result.value.body != "" ==> c.phase.ReadBody? && |c.result.value.body| == c.expected)
  }

  ghost predicate StepIsOrderly(c: Context, step: Step) {
    !step.Failed? ==> Orderly(step.context) && Rank(c.phase) <= Rank(step.context.phase)
  }

  lemma HeaderStepIsOrderly(c: Context, m: Message, setting: Header)
    requires Orderly(c) && c.result == Some(m) && !c.phase.ReadBody?
    ensures var kept := c.(result := Some(WithSetting(m, setting)));
            Orderly(kept) && (IsLength(setting) ==> Orderly(kept.(phase := WaitingBody, expected := LengthIn(setting))))
  {
    SetKeepsNamesApart(m.headers, setting.name, setting.value);
  }

  lemma ProcessIsOrderly(c: Context, token: string)
    requires Orderly(c)
    ensures StepIsOrderly(c, Process(c, token))
  {
    match c.phase {
      case WaitingMessage => assert StepIsOrderly(c, ProcessMessage(c, token));
      case WaitingContentLength => HeaderStepIsOrderly(c, c.result.value, LineSetting(token));
      case WaitingBody => HeaderStepIsOrderly(c, c.result.value, LineSetting(token));
      case ReadBody => assert StepIsOrderly(c, ProcessReadBody(c, c.result.value, token));
    }
  }

  /** Every run moves forward only, and whatever it leaves is orderly. */
  lemma {:induction false} RunIsOrderly(c: Context, s: string)
    requires Orderly(c)
    ensures var r := Run(c, s); r.Ok? ==> Orderly(r.value) && Rank(c.phase) <= Rank(r.value.phase)
    decreases |s|
  {
    if s != "" {
      var token := ReadToken(s);
      ProcessIsOrderly(c, token.text);
      var step := Process(c, token.text);
      if step.Continue? { RunIsOrderly(step.context, token.rest); }
    }
  }

  // ----- lines ---------------------------------------------------------------------------

  /** The text cut at every line break. */
  function Lines(s: string): seq<string>
    decreases |s|
  {
    if s == "" then [] else [ReadToken(s).text] + Lines(ReadToken(s).rest)
  }

  lemma TokenHasNoBreak(s: string)
    requires s != ""
    ensures NoBreak(ReadToken(s).text)
    ensures s == ReadToken(s).text + (CRLF + ReadToken(s).rest) || (s == ReadToken(s).text && ReadToken(s).rest == "")
  {
    var end, text := FindPair(s, '\r', '\n'), ReadToken(s).text;
    forall i: nat ensures !BreakAt(text, i) {
      if i + 1 < |text| { assert text[i] == s[i] && text[i + 1] == s[i + 1]; }
    }
    if end < |s| { assert s == s[..end] + (CRLF + s[end + 2..]); }
  }

  lemma {:induction false} LinesHaveNoBreak(s: string)
    ensures forall i :: 0 <= i < |Lines(s)| ==> NoBreak(Lines(s)[i])
    decreases |s|
  {
    if s != "" {
      TokenHasNoBreak(s);
      LinesHaveNoBreak(ReadToken(s).rest);
    }
  }

  lemma UnlinesOne(text: string, lines: seq<string>)
    ensures Unlines([text] + lines) == text + (CRLF + Unlines(lines))
  {
    assert ([text] + lines)[1..] == lines;
  }

  lemma {:induction false} UnlinesRebuild(s: string)
    ensures Unlines(Lines(s)) == s || Unlines(Lines(s)) == s + CRLF
    decreases |s|
  {
    if s != "" {
      TokenHasNoBreak(s);
      var text, rest := ReadToken(s).text, ReadToken(s).rest;
      UnlinesRebuild(rest);
      UnlinesOne(text, Lines(rest));
      Associate(text, CRLF + rest, CRLF);
      Associate(CRLF, rest, CRLF);
    }
  }

  /** The lines hold no line break, and with their line breaks they are the text again. */
  lemma LinesRebuild(s: string)
    ensures forall i :: 0 <= i < |Lines(s)| ==> NoBreak(Lines(s)[i])
    ensures Unlines(Lines(s)) == s || Unlines(Lines(s)) == s + CRLF
  {
    LinesHaveNoBreak(s);
    UnlinesRebuild(s);
  }

  lemma FindPairAfter(a: string, rest: string)
    requires NoBreak(a)
    ensures FindPair(a + (CRLF + rest), '\r', '\n') == |a|
  {
    var s := a + (CRLF + rest);
    var n := FindPair(s, '\r', '\n');
    forall i: nat | i < |a| ensures !BreakAt(s, i) {
      if i + 1 < |a| { assert !BreakAt(a, i) && a[i] == s[i] && a[i + 1] == s[i + 1]; }
    }
    assert BreakAt(s, |a|) && BreakAt(s, n);
  }

  lemma LinesOfFirst(a: string, rest: string)
    requires NoBreak(a)
    ensures Lines(a + (CRLF + rest)) == [a] + Lines(rest)
  {
    var s := a + (CRLF + rest);
    FindPairAfter(a, rest);
    assert s[..|a|] == a && s[|a| + 2..] == rest;
  }

  lemma Regroup(first: string, middle: seq<string>, last: seq<string>)
    ensures [first] + (middle + last) == ([first] + middle) + last
  {
  }

  lemma {:induction false} LinesOfUnlines(lines: seq<string>, rest: string)
    requires forall i :: 0 <= i < |lines| ==> NoBreak(lines[i])
    ensures Lines(Unlines(lines) + rest) == lines + Lines(rest)
  {
    if lines == [] {
      assert Unlines(lines) + rest == rest;
      assert lines + Lines(rest) == Lines(rest);
    } else {
      LinesOfUnlines(lines[1..], rest);
      var tail := Unlines(lines[1..]);
      Associate(lines[0], CRLF + tail, rest);
      Associate(CRLF, tail, rest);
      LinesOfFirst(lines[0], tail + rest);
      Regroup(lines[0], lines[1..], Lines(rest));
      assert [lines[0]] + lines[1..] == lines;
    }
  }

  // ----- what a run means ----------------------------------------------------------------

  function RunLines(c: Context, lines: seq<string>): (r: Result<Context>)
    requires Sound(c)
    ensures r.Ok? ==> Sound(r.value)
    decreases lines
  {
    if lines == [] then Ok(c)
    else
      match Process(c, lines[0])
      case Failed => Err
      case Completed(last) => Ok(last)
      case Continue(next) => RunLines(next, lines[1..])
  }

  lemma {:induction false} RunReadsLines(c: Context, s: string)
    requires Sound(c)
    ensures Run(c, s) == RunLines(c, Lines(s))
    decreases |s|
  {
    if s != "" {
      var step := Process(c, ReadToken(s).text);
      if step.Continue? { RunReadsLines(step.context, ReadToken(s).rest); }
      assert Lines(s)[1..] == Lines(ReadToken(s).rest);
    }
  }

  /** From the first line that is a first line on, or that stops the decoder. */
  function FromFirstLine(lines: seq<string>): seq<string> {
    if lines == [] || ReadFirstLine(lines[0]) != Ok(None) then lines else FromFirstLine(lines[1..])
  }

  /** Where the first empty line is. */
  function HeadLength(lines: seq<string>): (n: nat)
    ensures n <= |lines| && (n < |lines| ==> lines[n] == "")
    ensures forall i :: 0 <= i < n ==> lines[i] != ""
  {
    if lines == [] || lines[0] == "" then 0 else 1 + HeadLength(lines[1..])
  }

  /** What the first line that gives a length gives. */
  function LengthOf(lines: seq<string>): Option<nat> {
    if lines == [] then None
    else if IsLength(LineSetting(lines[0])) then Some(LengthIn(LineSetting(lines[0])))
    else LengthOf(lines[1..])
  }

  function Settings(lines: seq<string>): (r: seq<Header>)
    ensures |r| == |lines| && forall i :: 0 <= i < |r| ==> r[i] == LineSetting(lines[i])
  {
    if lines == [] then [] else [LineSetting(lines[0])] + Settings(lines[1..])
  }

  function WithHead(m: Message, head: seq<string>): Message {
    m.(headers := SetAll(m.headers, Settings(head)))
  }

  /** The line after the empty line, if there is one, is the body. */
  function WithBody(m: Message, expected: Option<nat>, lines: seq<string>): Result<Message> {
    if expected.None? || lines == [] then Ok(m)
    else if |lines[0]| != expected.value then Err
    else Ok(m.(body := lines[0]))
  }

  function AfterHead(lines: seq<string>): seq<string> {
    var n := HeadLength(lines);
    if n < |lines| then lines[n + 1..] else []
  }

  /** The meaning of a message, line by line: a first line, the head up to an empty line, and a
      body of one line if the head gives a length. */
  function Meaning(lines: seq<string>): Result<Message> {
    var found := FromFirstLine(lines);
    if found == [] then Err
    else
      match ReadFirstLine(found[0])
      case Ok(Some(start)) => HeadMeaning(Message(start, [], ""), found[1..])
      case _ => Err
  }

  function HeadMeaning(m: Message, lines: seq<string>): Result<Message> {
    var head := lines[..HeadLength(lines)];
    WithBody(WithHead(m, head), LengthOf(head), AfterHead(lines))
  }

  lemma HeadUnfold(lines: seq<string>)
    requires lines != [] && lines[0] != ""
    ensures HeadLength(lines) == 1 + HeadLength(lines[1..])
    ensures lines[..HeadLength(lines)] == [lines[0]] + lines[1..][..HeadLength(lines[1..])]
    ensures AfterHead(lines) == AfterHead(lines[1..])
  {
  }

  lemma WithHeadUnfold(m: Message, line: string, head: seq<string>)
    ensures WithHead(m, [line] + head) == WithHead(SetLine(m, line), head)
  {
    assert ([line] + head)[1..] == head;
    assert Settings([line] + head)[1..] == Settings(head);
  }

  lemma LengthUnfold(line: string, head: seq<string>)
    ensures LengthOf([line] + head) == if IsLength(LineSetting(line)) then Some(LengthIn(LineSetting(line))) else LengthOf(head)
  {
    assert ([line] + head)[1..] == head;
  }

  lemma {:induction false} WaitingBodyMeans(c: Context, lines: seq<string>)
    requires c.phase.WaitingBody? && c.result.Some?
    ensures Delivered(RunLines(c, lines)) ==
            WithBody(WithHead(c.result.value, lines[..HeadLength(lines)]), Some(c.expected), AfterHead(lines))
    decreases lines
  {
    if lines != [] && lines[0] != "" {
      HeadUnfold(lines);
      WithHeadUnfold(c.result.value, lines[0], lines[1..][..HeadLength(lines[1..])]);
      WaitingBodyMeans(Process(c, lines[0]).context, lines[1..]);
    } else if lines != [] {
      assert lines[..0] == [];
      ReadBodyMeans(c.(phase := ReadBody), lines[1..]);
    }
  }

  lemma ReadBodyMeans(c: Context, lines: seq<string>)
    requires c.phase.ReadBody? && c.result.Some?
    ensures Delivered(RunLines(c, lines)) == WithBody(c.result.value, Some(c.expected), lines)
  {
  }

  lemma {:induction false} WaitingContentLengthMeans(c: Context, lines: seq<string>)
    requires c.phase.WaitingContentLength? && c.result.Some?
    ensures Delivered(RunLines(c, lines)) == HeadMeaning(c.result.value, lines)
    decreases lines
  {
    if lines != [] && lines[0] != "" {
      HeadUnfold(lines);
      var head, next := lines[1..][..HeadLength(lines[1..])], Process(c, lines[0]).context;
      WithHeadUnfold(c.result.value, lines[0], head);
      LengthUnfold(lines[0], head);
      if IsLength(LineSetting(lines[0])) {
        WaitingBodyMeans(next, lines[1..]);
      } else {
        WaitingContentLengthMeans(next, lines[1..]);
      }
    } else {
      assert lines[..0] == [];
    }
  }

  lemma {:induction false} WaitingMessageMeans(lines: seq<string>)
    ensures Delivered(RunLines(START, lines)) == Meaning(lines)
  {
    if lines != [] {
      match ReadFirstLine(lines[0]) {
        case Err =>
        case Ok(None) => WaitingMessageMeans(lines[1..]);
        case Ok(Some(start)) => WaitingContentLengthMeans(Process(START, lines[0]).context, lines[1..]);
      }
    }
  }

  /** The state machine computes the meaning of the lines, for every text. */
  lemma DecoderIsExact(s: string)
    ensures Decode(s) == Meaning(Lines(s))
  {
    RunReadsLines(START, s);
    WaitingMessageMeans(Lines(s));
  }
}
