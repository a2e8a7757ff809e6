/** Decoding an encoded message gives it back, exactly when its headers and body can be read. */
module HttpRoundTrip {
  import opened Options
  import opened Text
  import opened HttpHeaders
  import opened FirstLine
  import opened HttpCodec
  import Url
  import UrlRoundTrip

  // ----- header lines --------------------------------------------------------------------

  /** The name holds no ':' and is not a standard name in a different case. */
  predicate ReadableHeader(h: Header) {
    Lacks(h.name, ':') && Canonical(h.name) == h.name
  }

  lemma CanonicalNames(name: string)
    ensures Canonical(name) == name || Lacks(Canonical(name), ':')
  {
    var entry := Lookup(HeaderNames(), name);
    if entry.Some? {
      var i :| 0 <= i < TYPES && HeaderNames()[i] == entry.value;
      assert entry.value == TypeName(i);
    }
  }

  lemma HeaderLineRoundTrip(h: Header)
    ensures LineSetting(LineText(h)) == h <==> ReadableHeader(h)
  {
    var line := LineText(h);
    if Lacks(h.name, ':') {
      SeparateAt(h.name, ':', h.value);
    } else {
      var n := Find(h.name, ':');
      assert line[n] == ':' && n < |line|;
      assert forall i :: 0 <= i < Find(line, ':') && i < |h.name| ==> h.name[i] == line[i];
      assert |Separate(line, ':').0| <= n;
      CanonicalNames(Separate(line, ':').0);
    }
  }

  lemma {:induction false} SettingDistinctHeaders(headers: seq<Header>, more: seq<Header>)
    requires Distinct(headers + more)
    ensures SetAll(headers, more) == headers + more
    decreases more
  {
    if more == [] {
      assert headers + more == headers;
    } else {
      var first := more[0];
      assert (headers + more)[|headers|] == first;
      assert forall j :: 0 <= j < |headers| ==> (headers + more)[j] == headers[j];
      assert Set(headers, first.name, first.value) == headers + [first];
      assert (headers + [first]) + more[1..] == headers + more;
      SettingDistinctHeaders(headers + [first], more[1..]);
    }
  }

  lemma SetAddsOneAtMost(headers: seq<Header>, h: Header)
    ensures |Set(headers, h.name, h.value)| <= |headers| + 1
    ensures |Set(headers, h.name, h.value)| == |headers| + 1 ==> Set(headers, h.name, h.value) == headers + [h]
  {
  }

  lemma RegroupFirst(headers: seq<Header>, first: Header, rest: seq<Header>)
    ensures (headers + [first]) + rest == headers + ([first] + rest)
  {
  }

  /** If no setting was joined to another one, the headers are the settings. */
  lemma {:induction false} AsManyAsSet(headers: seq<Header>, more: seq<Header>)
    ensures |SetAll(headers, more)| <= |headers| + |more|
    ensures |SetAll(headers, more)| == |headers| + |more| ==> SetAll(headers, more) == headers + more
    decreases more
  {
    if more == [] {
      assert headers + more == headers;
    } else {
      var first, rest := more[0], more[1..];
      AsManyAsSet(Set(headers, first.name, first.value), rest);
      SetAddsOneAtMost(headers, first);
      RegroupFirst(headers, first, rest);
      assert [first] + rest == more;
    }
  }

  predicate ReadableHeaders(headers: seq<Header>) {
    forall i :: 0 <= i < |headers| ==> ReadableHeader(headers[i])
  }

  lemma ReadableIsItsSetting(headers: seq<Header>, i: nat)
    requires ReadableHeaders(headers) && i < |headers|
    ensures LineSetting(LineText(headers[i])) == headers[i]
  {
    assert ReadableHeader(headers[i]);
    HeaderLineRoundTrip(headers[i]);
  }

  lemma ReadableAreTheirSettings(headers: seq<Header>)
    requires ReadableHeaders(headers)
    ensures Settings(HeaderTexts(headers)) == headers
  {
    var settings := Settings(HeaderTexts(headers));
    forall i | 0 <= i < |headers| ensures settings[i] == headers[i] { ReadableIsItsSetting(headers, i); }
  }

  lemma UnreadableIsChanged(headers: seq<Header>, i: nat)
    requires i < |headers| && !ReadableHeader(headers[i])
    ensures Settings(HeaderTexts(headers))[i] != headers[i]
  {
    HeaderLineRoundTrip(headers[i]);
  }

  lemma SettingFromNothing(settings: seq<Header>)
    ensures Distinct(settings) ==> SetAll([], settings) == settings
    ensures |SetAll([], settings)| == |settings| ==> SetAll([], settings) == settings
  {
    assert [] + settings == settings;
    if Distinct(settings) { SettingDistinctHeaders([], settings); }
    AsManyAsSet([], settings);
  }

  /** The lines of the headers set the headers again, if and only if each can be read. */
  lemma HeadersRoundTrip(headers: seq<Header>)
    requires Distinct(headers)
    ensures SetAll([], Settings(HeaderTexts(headers))) == headers <==> ReadableHeaders(headers)
    ensures ReadableHeaders(headers) ==> Settings(HeaderTexts(headers)) == headers
  {
    var settings := Settings(HeaderTexts(headers));
    SettingFromNothing(settings);
    if ReadableHeaders(headers) {
      ReadableAreTheirSettings(headers);
    } else {
      var i: nat :| i < |headers| && !ReadableHeader(headers[i]);
      UnreadableIsChanged(headers, i);
    }
  }

  // ----- the length ----------------------------------------------------------------------

  /** What the Content-Length of the headers makes the decoder expect. */
  function ExpectedLength(headers: seq<Header>): Option<nat> {
    var value := Value(headers, CONTENT_LENGTH);
    if IsNumeric(value) then Some(Atol(value) % 0x1_0000_0000) else None
  }

  lemma ValueUnfold(headers: seq<Header>, name: string)
    requires headers != []
    ensures Value(headers, name) == if headers[0].name == name then headers[0].value else Value(headers[1..], name)
  {
    var i, j := Position(headers, name), Position(headers[1..], name);
    assert headers[0].name != name ==> i == 1 + j;
    assert j < |headers| - 1 ==> headers[1..][j] == headers[1 + j];
  }

  lemma DistinctUnfold(headers: seq<Header>)
    requires headers != [] && Distinct(headers)
    ensures Distinct(headers[1..]) && Value(headers[1..], headers[0].name) == ""
  {
    assert forall j :: 0 <= j < |headers[1..]| ==> headers[1..][j] == headers[j + 1];
  }

  lemma {:induction false} LengthOfHeaders(headers: seq<Header>)
    requires Distinct(headers) && ReadableHeaders(headers)
    ensures LengthOf(HeaderTexts(headers)) == ExpectedLength(headers)
  {
    if headers != [] {
      var first, rest := headers[0], headers[1..];
      assert ReadableHeader(first);
      forall i | 0 <= i < |rest| ensures ReadableHeader(rest[i]) { assert rest[i] == headers[i + 1]; }
      HeaderLineRoundTrip(first);
      LengthUnfold(LineText(first), HeaderTexts(rest));
      ValueUnfold(headers, CONTENT_LENGTH);
      DistinctUnfold(headers);
      LengthOfHeaders(rest);
    }
  }

  // ----- lines of an encoded message -----------------------------------------------------

  lemma NoReturnNoBreak(s: string)
    requires Lacks(s, '\r')
    ensures NoBreak(s)
  {
  }

  /** No header has a line break of its own. */
  ghost predicate HeadersAreLines(headers: seq<Header>) {
    forall i :: 0 <= i < |headers| ==> NoBreak(LineText(headers[i]))
  }

  /** No line of the head has a line break of its own. */
  ghost predicate SingleLines(m: Message) {
    NoBreak(Line(m.start)) && HeadersAreLines(m.headers)
  }

  lemma LengthLineIsSingle(n: nat)
    ensures NoBreak(LineText(Header(CONTENT_LENGTH, Decimal(n))))
  {
    NumericIsPlain(Decimal(n), '\r');
    NoReturnNoBreak(LineText(Header(CONTENT_LENGTH, Decimal(n))));
  }

  lemma WithLengthKeepsLines(m: Message)
    requires SingleLines(m) && Distinct(m.headers)
    ensures SingleLines(WithLength(m)) && Distinct(WithLength(m).headers)
  {
    SetKeepsNamesApart(m.headers, CONTENT_LENGTH, Decimal(|m.body|));
    if WithLength(m) != m {
      var added := Header(CONTENT_LENGTH, Decimal(|m.body|));
      LengthLineIsSingle(|m.body|);
      assert WithLength(m).headers == m.headers + [added];
    }
  }

  lemma EncodedLines(m: Message)
    requires SingleLines(m) && Distinct(m.headers)
    ensures Lines(Encode(m)) == [Line(m.start)] + (HeaderTexts(WithLength(m).headers) + [""]) + Lines(m.body)
  {
    WithLengthKeepsLines(m);
    var lines := [Line(m.start)] + (HeaderTexts(WithLength(m).headers) + [""]);
    NoReturnNoBreak("");
    LinesOfUnlines(lines, m.body);
  }

  lemma {:induction false} HeadLengthAt(head: seq<string>, rest: seq<string>)
    requires forall i :: 0 <= i < |head| ==> head[i] != ""
    ensures HeadLength(head + ([""] + rest)) == |head|
  {
    var lines := head + ([""] + rest);
    assert lines[|head|] == "";
    assert forall i :: 0 <= i < |head| ==> lines[i] == head[i];
  }

  lemma MeaningOfHead(m: Message, head: seq<string>, rest: seq<string>)
    requires forall i :: 0 <= i < |head| ==> head[i] != ""
    ensures HeadMeaning(m, head + ([""] + rest)) == WithBody(WithHead(m, head), LengthOf(head), rest)
  {
    var lines := head + ([""] + rest);
    HeadLengthAt(head, rest);
    assert lines[..|head|] == head && lines[|head| + 1..] == rest;
  }

  lemma Regrouped<T>(a: T, xs: seq<T>, b: T, ys: seq<T>)
    ensures [a] + (xs + [b]) + ys == [a] + (xs + ([b] + ys))
  {
  }

  lemma MeaningUnfold(first: string, start: Start, tail: seq<string>)
    requires ReadFirstLine(first) == Ok(Some(start))
    ensures Meaning([first] + tail) == HeadMeaning(Message(start, [], ""), tail)
  {
    var lines := [first] + tail;
    assert lines[0] == first && lines[1..] == tail;
    assert FromFirstLine(lines) == lines;
  }

  lemma MeaningOfRest(first: string, tail: seq<string>)
    ensures ReadFirstLine(first) == Ok(None) ==> Meaning([first] + tail) == Meaning(tail)
    ensures ReadFirstLine(first).Err? ==> Meaning([first] + tail).Err?
  {
    var lines := [first] + tail;
    assert lines[0] == first && lines[1..] == tail;
  }

  // ----- the body ------------------------------------------------------------------------

  /** A body is one line, of the length that was announced. */
  ghost predicate ReadableBody(expected: Option<nat>, body: string) {
    body != "" ==> NoBreak(body) && expected == Some(|body|)
  }

  lemma BodyIsOneToken(body: string)
    requires body != ""
    ensures ReadToken(body).text == body <==> NoBreak(body)
  {
    TokenHasNoBreak(body);
    var end := FindPair(body, '\r', '\n');
    if NoBreak(body) { assert !BreakAt(body, end); }
  }

  lemma BodyRoundTrip(m: Message, expected: Option<nat>, body: string)
    requires m.body == ""
    ensures WithBody(m, expected, Lines(body)) == Ok(m.(body := body)) <==> ReadableBody(expected, body)
  {
    if body != "" {
      BodyIsOneToken(body);
      var text := ReadToken(body).text;
      assert Lines(body)[0] == text;
      assert m.(body := text) == m.(body := body) <==> text == body;
    }
  }

  // ----- a first line that is not one ----------------------------------------------------

  lemma {:induction false} NoLineIsLonger(s: string, j: nat)
    requires j < |Lines(s)|
    ensures |Lines(s)[j]| <= |s|
    decreases |s|
  {
    TokenHasNoBreak(s);
    if j > 0 {
      var rest := ReadToken(s).rest;
      assert s != "" && Lines(s) == [ReadToken(s).text] + Lines(rest);
      NoLineIsLonger(rest, j - 1);
    }
  }

  lemma LaterLinesAreShorter(s: string, j: nat)
    requires 1 <= j < |Lines(s)|
    ensures |Lines(s)[j]| < |s|
  {
    var rest := ReadToken(s).rest;
    assert s != "" && Lines(s) == [ReadToken(s).text] + Lines(rest);
    NoLineIsLonger(rest, j - 1);
  }

  ghost predicate BodyIsIn(r: Result<Message>, lines: seq<string>) {
    r.Ok? && r.value.body != "" ==> r.value.body in lines
  }

  lemma HeadBodyIsALine(m: Message, lines: seq<string>)
    requires m.body == ""
    ensures BodyIsIn(HeadMeaning(m, lines), lines)
  {
    var n, r := HeadLength(lines), HeadMeaning(m, lines);
    if r.Ok? && r.value.body != "" {
      assert AfterHead(lines) != [] && r.value.body == AfterHead(lines)[0];
      assert lines[n + 1..][0] == lines[n + 1];
    }
  }

  lemma BodyAfterStart(first: string, start: Start, tail: seq<string>)
    requires ReadFirstLine(first) == Ok(Some(start))
    ensures BodyIsIn(Meaning([first] + tail), tail)
  {
    MeaningUnfold(first, start, tail);
    HeadBodyIsALine(Message(start, [], ""), tail);
  }

  lemma NothingMeansNothing()
    ensures Meaning([]).Err?
  {
  }

  /** A body is a line, and not the first one. */
  lemma {:induction false} BodyIsALaterLine(first: string, tail: seq<string>)
    ensures BodyIsIn(Meaning([first] + tail), tail)
    decreases tail
  {
    match ReadFirstLine(first) {
      case Ok(Some(start)) => BodyAfterStart(first, start, tail);
      case _ =>
        MeaningOfRest(first, tail);
        if tail == [] {
          NothingMeansNothing();
        } else {
          BodyIsALaterLine(tail[0], tail[1..]);
          assert [tail[0]] + tail[1..] == tail;
        }
    }
  }

  lemma LaterLineIsShorter(s: string, line: string)
    requires Lines(s) != [] && line in Lines(s)[1..]
    ensures |line| < |s|
  {
    var j: nat :| j < |Lines(s)[1..]| && Lines(s)[1..][j] == line;
    LaterLinesAreShorter(s, j + 1);
  }

  /** A text is never the body of a message that it holds. */
  lemma NoTextHoldsItself(body: string)
    ensures Meaning(Lines(body)).Ok? ==> Meaning(Lines(body)).value.body != body
  {
    var lines := Lines(body);
    if lines != [] {
      BodyIsALaterLine(lines[0], lines[1..]);
      assert [lines[0]] + lines[1..] == lines;
      if body in lines[1..] { LaterLineIsShorter(body, body); }
    } else {
      NothingMeansNothing();
    }
  }

  lemma WithBodyKeepsHeaders(m: Message, expected: Option<nat>, lines: seq<string>)
    ensures WithBody(m, expected, lines).Ok? ==> WithBody(m, expected, lines).value.headers == m.headers
  {
  }

  /** Without the first line the other lines never make a message with as many headers and the
      same body. */
  lemma {:induction false} HeadlessIsNoticed(texts: seq<string>, body: string)
    requires forall i :: 0 <= i < |texts| ==> texts[i] != ""
    ensures var r := Meaning(texts + ([""] + Lines(body)));
            r.Ok? ==> |r.value.headers| < |texts| || r.value.body != body
  {
    if texts == [] {
      assert texts + ([""] + Lines(body)) == [""] + Lines(body);
      EmptyIsNoFirstLine();
      MeaningOfRest("", Lines(body));
      NoTextHoldsItself(body);
    } else {
      var first, tail := texts[0], texts[1..] + ([""] + Lines(body));
      assert texts + ([""] + Lines(body)) == [first] + tail;
      MeaningOfRest(first, tail);
      match ReadFirstLine(first) {
        case Err =>
        case Ok(None) => HeadlessIsNoticed(texts[1..], body);
        case Ok(Some(start)) =>
          var m := Message(start, [], "");
          MeaningUnfold(first, start, tail);
          MeaningOfHead(m, texts[1..], Lines(body));
          WithBodyKeepsHeaders(WithHead(m, texts[1..]), LengthOf(texts[1..]), Lines(body));
          AsManyAsSet([], Settings(texts[1..]));
      }
    }
  }

  lemma EmptyIsNoFirstLine()
    ensures ReadFirstLine("") == Ok(None)
  {
  }

  // ----- the whole message ---------------------------------------------------------------

  /** What the lines of a message mean, by what its first line is read as. */
  lemma MeaningOfEncoded(m: Message)
    requires SingleLines(m) && Distinct(m.headers)
    ensures var texts := HeaderTexts(WithLength(m).headers);
            match ReadFirstLine(Line(m.start))
            case Err => Decode(Encode(m)).Err?
            case Ok(None) => Decode(Encode(m)) == Meaning(texts + ([""] + Lines(m.body)))
            case Ok(Some(start)) =>
              Decode(Encode(m)) == WithBody(WithHead(Message(start, [], ""), texts), LengthOf(texts), Lines(m.body))
  {
    var first, texts := Line(m.start), HeaderTexts(WithLength(m).headers);
    var tail := texts + ([""] + Lines(m.body));
    DecoderIsExact(Encode(m));
    EncodedLines(m);
    Regrouped(first, texts, "", Lines(m.body));
    MeaningOfRest(first, tail);
    match ReadFirstLine(first) {
      case Err =>
      case Ok(None) =>
      case Ok(Some(start)) =>
        MeaningUnfold(first, start, tail);
        MeaningOfHead(Message(start, [], ""), texts, Lines(m.body));
    }
  }

  lemma ReadMessageRoundTrip(m: Message, start: Start)
    requires SingleLines(m) && Distinct(m.headers) && ReadFirstLine(Line(m.start)) == Ok(Some(start))
    ensures Decode(Encode(m)).Ok? ==> Decode(Encode(m)).value.start == start
    ensures Decode(Encode(m)) == Ok(WithLength(m).(start := start)) <==>
            ReadableHeaders(WithLength(m).headers) && ReadableBody(ExpectedLength(WithLength(m).headers), m.body)
  {
    var headers := WithLength(m).headers;
    var texts := HeaderTexts(headers);
    MeaningOfEncoded(m);
    WithLengthKeepsLines(m);
    HeadersRoundTrip(headers);
    if ReadableHeaders(headers) { LengthOfHeaders(headers); }
    BodyRoundTrip(WithHead(Message(start, [], ""), texts), LengthOf(texts), m.body);
  }

  /** What is asked of headers and body, whatever the first line is. */
  ghost predicate Readable(m: Message) {
    && HeadersAreLines(m.headers) && ReadableHeaders(WithLength(m).headers)
    && ReadableBody(ExpectedLength(WithLength(m).headers), m.body)
  }

  lemma SingleLinesRoundTrip(m: Message, start: Start)
    requires SingleLines(m) && Distinct(m.headers)
    ensures Decode(Encode(m)) == Ok(WithLength(m).(start := start)) <==>
            && ReadFirstLine(Line(m.start)) == Ok(Some(start))
            && ReadableHeaders(WithLength(m).headers) && ReadableBody(ExpectedLength(WithLength(m).headers), m.body)
  {
    MeaningOfEncoded(m);
    match ReadFirstLine(Line(m.start)) {
      case Err =>
      case Ok(None) => HeadlessIsNoticed(HeaderTexts(WithLength(m).headers), m.body);
      case Ok(Some(other)) => ReadMessageRoundTrip(m, other);
    }
  }

  // ----- headers with line breaks --------------------------------------------------------

  lemma PartsOfALine(h: Header)
    ensures NoBreak(LineText(h)) <==> NoBreak(h.name) && NoBreak(h.value)
  {
    var line := LineText(h);
    forall i: nat ensures BreakAt(h.name, i) ==> BreakAt(line, i) {}
    forall i: nat ensures BreakAt(h.value, i) ==> BreakAt(line, |h.name| + 1 + i) {
      if i < |h.value| { assert line[|h.name| + 1 + i] == h.value[i]; }
      if i + 1 < |h.value| { assert line[|h.name| + 1 + i + 1] == h.value[i + 1]; }
    }
    if NoBreak(h.name) && NoBreak(h.value) {
      forall i: nat ensures !BreakAt(line, i) {
        if i < |h.name| {
          assert !BreakAt(h.name, i) && line[i] == h.name[i] && line[|h.name|] == ':';
        } else if i > |h.name| {
          assert !BreakAt(h.value, i - |h.name| - 1);
        }
      }
    }
  }

  lemma CanonicalHasNoBreak(name: string)
    requires NoBreak(name)
    ensures NoBreak(Canonical(name))
  {
    var entry := Lookup(HeaderNames(), name);
    if entry.Some? {
      var i :| 0 <= i < TYPES && HeaderNames()[i] == entry.value;
      assert entry.value == TypeName(i);
      NoReturnNoBreak(entry.value);
    }
  }

  lemma SettingIsALine(line: string)
    requires NoBreak(line)
    ensures NoBreak(LineText(LineSetting(line)))
  {
    var items := Separate(line, ':');
    forall i: nat ensures !BreakAt(items.0, i) { assert !BreakAt(line, i); }
    forall i: nat ensures !BreakAt(items.1, i) { assert !BreakAt(line, |items.0| + 1 + i); }
    CanonicalHasNoBreak(items.0);
    PartsOfALine(LineSetting(line));
  }

  lemma CombinedHasNoBreak(before: string, value: string)
    requires NoBreak(before) && NoBreak(value)
    ensures NoBreak(Combined(before, value))
  {
    if before != "" {
      PartsAroundAComma(before, value);
    }
  }

  lemma PartsAroundAComma(before: string, value: string)
    requires NoBreak(before) && NoBreak(value)
    ensures NoBreak(before + "," + value)
  {
    var text := before + "," + value;
    forall i: nat ensures !BreakAt(text, i) {
      if i < |before| {
        assert !BreakAt(before, i) && text[i] == before[i] && text[|before|] == ',';
      } else if i > |before| {
        assert !BreakAt(value, i - |before| - 1);
      }
    }
  }

  lemma SetKeepsLines(headers: seq<Header>, h: Header)
    requires HeadersAreLines(headers) && NoBreak(LineText(h))
    ensures HeadersAreLines(Set(headers, h.name, h.value))
  {
    var i := Position(headers, h.name);
    PartsOfALine(h);
    if i < |headers| {
      var joined := Header(h.name, Combined(headers[i].value, h.value));
      PartsOfALine(headers[i]);
      CombinedHasNoBreak(headers[i].value, h.value);
      PartsOfALine(joined);
    }
  }

  ghost predicate NoBreaks(lines: seq<string>) {
    forall i :: 0 <= i < |lines| ==> NoBreak(lines[i])
  }

  lemma {:induction false} SetAllKeepsLines(headers: seq<Header>, lines: seq<string>)
    requires HeadersAreLines(headers) && NoBreaks(lines)
    ensures HeadersAreLines(SetAll(headers, Settings(lines)))
    decreases lines
  {
    if lines != [] {
      var h := LineSetting(lines[0]);
      SettingIsALine(lines[0]);
      SetKeepsLines(headers, h);
      assert Settings(lines)[1..] == Settings(lines[1..]);
      SetAllKeepsLines(Set(headers, h.name, h.value), lines[1..]);
    }
  }

  lemma {:induction false} SkippingKeepsLines(lines: seq<string>)
    requires NoBreaks(lines)
    ensures NoBreaks(FromFirstLine(lines))
  {
    if lines != [] { SkippingKeepsLines(lines[1..]); }
  }

  lemma HeadersOfHead(m: Message, lines: seq<string>)
    requires NoBreaks(lines) && HeadersAreLines(m.headers)
    ensures HeadMeaning(m, lines).Ok? ==> HeadersAreLines(HeadMeaning(m, lines).value.headers)
  {
    var head := lines[..HeadLength(lines)];
    SetAllKeepsLines(m.headers, head);
    WithBodyKeepsHeaders(WithHead(m, head), LengthOf(head), AfterHead(lines));
  }

  lemma MeaningHasLines(lines: seq<string>)
    requires NoBreaks(lines)
    ensures Meaning(lines).Ok? ==> HeadersAreLines(Meaning(lines).value.headers)
  {
    var found := FromFirstLine(lines);
    SkippingKeepsLines(lines);
    if found != [] {
      match ReadFirstLine(found[0]) {
        case Ok(Some(start)) => HeadersOfHead(Message(start, [], ""), found[1..]);
        case _ =>
      }
    }
  }

  /** No header of a decoded message has a line break, whatever the text was. */
  lemma DecodedHeadersAreLines(text: string)
    ensures Decode(text).Ok? ==> HeadersAreLines(Decode(text).value.headers)
  {
    DecoderIsExact(text);
    LinesHaveNoBreak(text);
    MeaningHasLines(Lines(text));
  }

  /** The message comes back with the first line `start` if and only if its first line is read as
      that, and every header and the body can be read. The comparison is with the message as the
      encoder left it. */
  lemma MessageRoundTrip(m: Message, start: Start)
    requires NoBreak(Line(m.start)) && Distinct(m.headers)
    ensures Decode(Encode(m)) == Ok(WithLength(m).(start := start)) <==>
            ReadFirstLine(Line(m.start)) == Ok(Some(start)) && Readable(m)
  {
    if HeadersAreLines(m.headers) {
      SingleLinesRoundTrip(m, start);
    } else {
      DecodedHeadersAreLines(Encode(m));
      var i :| 0 <= i < |m.headers| && !NoBreak(LineText(m.headers[i]));
      LengthKeepsHeader(m, i);
    }
  }

  lemma LengthKeepsHeader(m: Message, i: nat)
    requires i < |m.headers|
    ensures |WithLength(m).headers| > i && WithLength(m).headers[i] == m.headers[i]
  {
  }

  lemma ContentLengthIsReadable(value: string)
    ensures ReadableHeader(Header(CONTENT_LENGTH, value))
  {
    assert TypeName(31) == CONTENT_LENGTH;
    StandardNamesAreCanonical(31);
  }

  lemma DecimalLength(n: nat)
    ensures Atol(Decimal(n)) % 0x1_0000_0000 == n <==> n < 0x1_0000_0000
  {
    NumberOfDecimal(n);
  }

  lemma OneMoreReadable(headers: seq<Header>, h: Header)
    requires ReadableHeader(h)
    ensures ReadableHeaders(headers + [h]) <==> ReadableHeaders(headers)
  {
    var all := headers + [h];
    assert forall i :: 0 <= i < |headers| ==> all[i] == headers[i];
    if ReadableHeaders(all) {
      forall i | 0 <= i < |headers| ensures ReadableHeader(headers[i]) { assert ReadableHeader(all[i]); }
    }
  }

  /** A message that does not give its length gets the right one, as long as it fits 32 bits. */
  lemma AddedLengthIsRight(m: Message)
    requires !Has(m.headers, CONTENT_LENGTH)
    ensures ReadableBody(ExpectedLength(WithLength(m).headers), m.body) <==>
            (m.body != "" ==> NoBreak(m.body) && |m.body| < 0x1_0000_0000)
    ensures ReadableHeaders(WithLength(m).headers) <==> ReadableHeaders(m.headers)
  {
    if m.body != "" {
      var value := Decimal(|m.body|);
      SetChangesOneValue(m.headers, CONTENT_LENGTH, value, CONTENT_LENGTH);
      assert ExpectedLength(WithLength(m).headers) == Some(Atol(value) % 0x1_0000_0000);
      DecimalLength(|m.body|);
      ContentLengthIsReadable(value);
      OneMoreReadable(m.headers, Header(CONTENT_LENGTH, value));
    }
  }

  /** A request comes back if and only if its URL is parsed back from a text without spaces and
      NULs, and headers and body can be read. */
  lemma RequestMessageRoundTrip(m: Message)
    requires m.start.Request? && InRange(m.start) && NoBreak(Line(m.start)) && Distinct(m.headers)
    ensures var url := Url.Encode(m.start.url);
            Decode(Encode(m)) == Ok(WithLength(m)) <==>
            Lacks(url, ' ') && Lacks(url, NUL) && Url.Parse(url) == Ok(m.start.url) && Readable(m)
  {
    RequestRoundTrip(m.start);
    MessageRoundTrip(m, m.start);
    assert WithLength(m).(start := m.start) == WithLength(m);
  }

  /** Requests with scheme and host: the URL must be unambiguous. */
  lemma AbsoluteRequestRoundTrip(m: Message)
    requires m.start.Request? && InRange(m.start) && NoBreak(Line(m.start)) && Distinct(m.headers)
    requires UrlRoundTrip.RegularAuthority(m.start.url) && UrlRoundTrip.RegularTail(m.start.url)
    ensures var url := Url.Encode(m.start.url);
            Decode(Encode(m)) == Ok(WithLength(m)) <==>
            Lacks(url, ' ') && Lacks(url, NUL) && UrlRoundTrip.Unambiguous(m.start.url) && Readable(m)
  {
    UrlRoundTrip.UrlRoundTrip(m.start.url);
    RequestMessageRoundTrip(m);
  }

  /** Requests with a path, as "GET /path HTTP/1.1": only a '?' in a fragment without a query is
      in the way. */
  lemma OriginRequestRoundTrip(m: Message)
    requires m.start.Request? && InRange(m.start) && NoBreak(Line(m.start)) && Distinct(m.headers)
    requires var u := m.start.url;
             && UrlRoundTrip.RegularTail(u) && u.path.Some?
             && u == Url.NOTHING.(path := u.path, query := u.query, fragment := u.fragment)
    ensures var u, url := m.start.url, Url.Encode(m.start.url);
            Decode(Encode(m)) == Ok(WithLength(m)) <==>
            Lacks(url, ' ') && Lacks(url, NUL) && (u.query == [] ==> Lacks(Url.Shown(u.fragment), '?')) && Readable(m)
  {
    UrlRoundTrip.OriginFormRoundTrip(m.start.url);
    RequestMessageRoundTrip(m);
  }

  /** A response comes back, with its reason spelled out, if and only if its status is not
      negative, a description that it has is single-spaced, and headers and body can be read. */
  lemma ResponseMessageRoundTrip(m: Message)
    requires m.start.Response? && InRange(m.start) && NoBreak(Line(m.start)) && Distinct(m.headers)
    ensures Decode(Encode(m)) == Ok(WithLength(m).(start := SpelledOut(m.start))) <==>
            && m.start.status >= 0 && (m.start.description != "" ==> WellSpaced(CString(m.start.description)))
            && Readable(m)
  {
    StandardReasonIsSpeakable(m.start.status);
    ResponseRoundTrip(m.start);
    MessageRoundTrip(m, SpelledOut(m.start));
  }

  /** A body of two lines is lost. */
  lemma TwoLineBodyIsLost()
    ensures var m := Message(Response(Version(1, 1), 200, "OK"), [], "a\r\nb");
            Decode(Encode(m)) != Ok(WithLength(m))
  {
    var m := Message(Response(Version(1, 1), 200, "OK"), [], "a\r\nb");
    assert BreakAt(m.body, 1);
    if Decode(Encode(m)) == Ok(WithLength(m)) {
      PlainLine(m.start);
      MessageRoundTrip(m, m.start);
    }
  }

  lemma PlainLine(start: Start)
    requires start.Response? && Lacks(start.description, '\r')
    ensures start.description != "" ==> NoBreak(Line(start))
  {
    NumericIsPlain(Decimal(start.version.major), '\r');
    NumericIsPlain(Decimal(start.version.minor), '\r');
    NumericIsPlain(Decimal(if start.status < 0 then -start.status else start.status), '\r');
    if start.description != "" { NoReturnNoBreak(Line(start)); }
  }
}
