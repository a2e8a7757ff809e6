/** The decoder as it runs: a state, the message under construction and the size of the body. */
module HttpDecoder {
  import opened Options
  import opened Text
  import opened HttpHeaders
  import opened FirstLine
  import opened HttpCodec
  import opened HttpMessages
  import opened HttpReading
  import UrlParser

  datatype ProcessResult = Continued | Finished | Thrown

  // ----- helpers of the states -----------------------------------------------------------

  /** The linear search of a table that the standard headers and the methods share. */
  method SearchTable(table: seq<string>, item: string) returns (entry: Option<string>)
    ensures entry == Lookup(table, item)
  {
    assert table[0..] == table;
    for i := 0 to |table|
      invariant Lookup(table, item) == Lookup(table[i..], item)
    {
      assert table[i..][1..] == table[i + 1..];
      if SameIgnoringCase(item, table[i]) { return Some(table[i]); }
    }
    entry := None;
  }

  /** HttpProtocolState::tryStandardType. */
  method TryStandardType(item: string) returns (name: Option<string>)
    ensures name == Lookup(HeaderNames(), item)
    ensures forall i: nat {:trigger TypeName(i)} :: i < TYPES ==>
              (name == Some(TypeName(i)) <==> SpelledAs(CString(item), TypeName(i)))
    ensures name.None? <==> forall i: nat {:trigger TypeName(i)} :: i < TYPES ==> !SpelledAs(CString(item), TypeName(i))
  {
    name := SearchTable(HeaderNames(), item);
    forall i: nat | i < TYPES ensures name == Some(TypeName(i)) <==> SpelledAs(CString(item), TypeName(i)) {
      TypeIsFoundIffSpelled(item, i);
    }
    NoTypeIffNotSpelled(item);
  }

  /** HttpProtocolWaitingMessage::tryMethod. */
  method TryMethod(item: string) returns (name: Option<string>)
    ensures name == Lookup(MethodNames(), item)
    ensures forall m: nat {:trigger MethodName(m)} :: m < METHODS ==>
              (name == Some(MethodName(m)) <==> SpelledAs(CString(item), MethodName(m)))
    ensures name.None? <==> forall m: nat {:trigger MethodName(m)} :: m < METHODS ==> !SpelledAs(CString(item), MethodName(m))
  {
    name := SearchTable(MethodNames(), item);
    forall m: nat | m < METHODS ensures name == Some(MethodName(m)) <==> SpelledAs(CString(item), MethodName(m)) {
      MethodIsFoundIffSpelled(item, m);
    }
    NoMethodIffNotSpelled(item);
  }

  /** The loop that puts the words of the reason together again. */
  method JoinWords(items: seq<string>) returns (text: string)
    ensures text == Join(items, ' ')
  {
    text := "";
    var first := true;
    for i := 0 to |items|
      invariant first <==> i == 0
      invariant text == Join(items[..i], ' ')
    {
      assert items[..i + 1] == items[..i] + [items[i]];
      UrlParser.JoinAppend(items[..i], items[i], ' ');
      if !first { text := text + " "; }
      text := text + items[i];
      first := false;
    }
    assert items[..|items|] == items;
  }

  method TryResponse(items: seq<string>) returns (start: Option<Start>)
    ensures start == ReadResponse(items)
  {
    if |items| < 3 || !StartsWithHttp(items[0]) { return None; }
    var version := ReadVersion(items[0]);
    if version.None? || !IsNumeric(items[1]) { return None; }
    var description := JoinWords(items[2..]);
    start := Some(Response(version.value, Atoi(items[1]), description));
  }

  method TryRequest(items: seq<string>) returns (start: Result<Option<Start>>)
    ensures start == ReadRequest(items)
  {
    if |items| < 3 { return Ok(None); }
    var name := TryMethod(items[0]);
    if name.None? { return Ok(None); }
    var version := ReadVersion(items[2]);
    if version.None? { return Ok(None); }
    var parser := new UrlParser.Parser(items[1]);
    var url := parser.Build();
    start := if url.Err? then Err else Ok(Some(Request(version.value, name.value, url.value)));
  }

  method ReadStart(token: string) returns (start: Result<Option<Start>>)
    ensures start == ReadFirstLine(token)
  {
    var items := UrlParser.SplitItems(token, ' ');
    var response := TryResponse(items);
    if response.Some? { return Ok(response); }
    start := TryRequest(items);
  }

  /** What a header line sets, under the name of the table if it is a standard one. */
  method ReadHeaderLine(token: string) returns (setting: Header)
    ensures setting == LineSetting(token)
  {
    var items := Separate(token, ':');
    var name := TryStandardType(items.0);
    setting := Header(if name.Some? then name.value else items.0, items.1);
  }

  // ----- the decoder ---------------------------------------------------------------------

  class HttpProtocolDecoder {
    var state: Phase
    var result: HttpMessage?
    var bodyExpectedSize: nat

    constructor ()
      ensures View() == START
    {
      state := WaitingMessage;
      result := null;
      bodyExpectedSize := 0;
    }

    ghost function HeaderObjects(): set<HttpHeader>
      reads this, result
    {
      if result == null then {} else set h | h in result.sequentialHeaders
    }

    ghost predicate Valid()
      reads this, result
    {
      && (result == null || result.Valid())
      && (state.WaitingMessage? || result != null)
    }

    ghost function View(): (c: Context)
      reads this, result, HeaderObjects()
    {
      Context(state, if result == null then None else Some(result.View()), bodyExpectedSize)
    }

    /** What a step leaves behind unless it threw. */
    twostate predicate Did(step: Step, outcome: ProcessResult)
      reads this, result, HeaderObjects()
    {
      match step
      case Failed => outcome.Thrown?
      case Continue(c) => outcome.Continued? && View() == c
      case Completed(c) => outcome.Finished? && View() == c
    }

    method TakeHeader(setting: Header)
      requires Valid() && result != null
      modifies result`sequentialHeaders, result`directory, result.sequentialHeaders
      ensures Valid() && result == old(result)
      ensures View() == old(View()).(result := Some(WithSetting(old(result.View()), setting)))
      ensures fresh(HeaderObjects() - old(HeaderObjects()))
    {
      result.SetHeader(setting.name, setting.value);
    }

    /** The header goes to the message; a length is noted and ends the state. */
    method TakeFirstHeader(setting: Header)
      requires Valid() && state.WaitingContentLength? && result != null
      modifies this`state, this`bodyExpectedSize, result`sequentialHeaders, result`directory, result.sequentialHeaders
      ensures Valid() && result == old(result) && View() == FirstHeaders(old(View()), old(result.View()), setting)
      ensures fresh(HeaderObjects() - old(HeaderObjects()))
    {
      TakeHeader(setting);
      if IsLength(setting) { NoteLength(LengthIn(setting)); }
    }

    method ExpectBody()
      requires Valid() && result != null
      modifies this`state
      ensures Valid() && result == old(result) && HeaderObjects() == old(HeaderObjects())
      ensures View() == old(View()).(phase := ReadBody)
    {
      state := ReadBody;
    }

    method NoteLength(length: nat)
      requires Valid() && result != null
      modifies this`state, this`bodyExpectedSize
      ensures Valid() && result == old(result) && HeaderObjects() == old(HeaderObjects())
      ensures View() == old(View()).(phase := WaitingBody, expected := length)
    {
      bodyExpectedSize := length;
      state := WaitingBody;
    }

    method StartMessage(start: Start)
      requires state.WaitingMessage?
      modifies this`result, this`state
      ensures Valid() && View() == Context(WaitingContentLength, Some(Message(start, [], "")), old(View()).expected)
      ensures fresh(result) && result.sequentialHeaders == []
    {
      result := new HttpMessage(start);
      state := WaitingContentLength;
    }

    method ProcessWaitingMessage(token: string) returns (outcome: ProcessResult)
      requires Valid() && state.WaitingMessage?
      modifies this
      ensures Valid() && Did(ProcessMessage(old(View()), token), outcome)
      ensures result == old(result) || (result != null && fresh(result) && result.sequentialHeaders == [])
    {
      var start := ReadStart(token);
      match start {
        case Err => outcome := Thrown;
        case Ok(None) => outcome := Continued;
        case Ok(Some(s)) =>
          StartMessage(s);
          outcome := Continued;
      }
    }

    method ProcessWaitingContentLength(token: string) returns (outcome: ProcessResult)
      requires Valid() && state.WaitingContentLength? && result != null
      modifies this, result, HeaderObjects()
      ensures Valid() && Did(ProcessContentLength(old(View()), old(View().result.value), token), outcome)
      ensures result == old(result) && fresh(HeaderObjects() - old(HeaderObjects()))
    {
      if token == "" { return Finished; }
      var setting := ReadHeaderLine(token);
      TakeFirstHeader(setting);
      outcome := Continued;
    }

    method ProcessWaitingBody(token: string) returns (outcome: ProcessResult)
      requires Valid() && state.WaitingBody? && result != null
      modifies this, result, HeaderObjects()
      ensures Valid() && Did(ProcessBody(old(View()), old(View().result.value), token), outcome)
      ensures result == old(result) && fresh(HeaderObjects() - old(HeaderObjects()))
    {
      outcome := Continued;
      if token == "" {
        ExpectBody();
      } else {
        var setting := ReadHeaderLine(token);
        TakeHeader(setting);
      }
    }

    method ProcessReadingBody(token: string) returns (outcome: ProcessResult)
      requires Valid() && state.ReadBody? && result != null
      modifies this, result, HeaderObjects()
      ensures Valid() && Did(ProcessReadBody(old(View()), old(View().result.value), token), outcome)
      ensures result == old(result) && fresh(HeaderObjects() - old(HeaderObjects()))
    {
      if |token| != bodyExpectedSize { return Thrown; }
      result.SetBody(token);
      outcome := Finished;
    }

    /** The process method of the current state. */
    method ProcessToken(token: string) returns (outcome: ProcessResult)
      requires Valid()
      modifies this, result, HeaderObjects()
      ensures Valid() && Did(Process(old(View()), token), outcome)
      ensures result == old(result) || (result != null && fresh(result))
      ensures fresh(HeaderObjects() - old(HeaderObjects()))
    {
      match state {
        case WaitingMessage => outcome := ProcessWaitingMessage(token);
        case WaitingContentLength => outcome := ProcessWaitingContentLength(token);
        case WaitingBody => outcome := ProcessWaitingBody(token);
        case ReadBody => outcome := ProcessReadingBody(token);
      }
    }

    /** HttpProtocolDecoder::readToken, at a position before the end. */
    static method ReadTokenAt(data: string, position: nat) returns (text: string, next: nat)
      requires position < |data|
      ensures position < next <= |data|
      ensures Token(text, data[next..]) == ReadToken(data[position..])
    {
      var end := position + FindPair(data[position..], '\r', '\n');
      if end == |data| {
        text := data[position..];
        next := |data|;
      } else {
        text := data[position..end];
        next := end + |CRLF|;
        DropDrop(data, position, next - position);
      }
    }

    /** One turn of the loop of HttpProtocolDecoder::apply. */
    method Turn(data: string, position: nat) returns (outcome: ProcessResult, next: nat)
      requires Valid() && position < |data|
      modifies this, result, HeaderObjects()
      ensures Valid() && position < next <= |data|
      ensures Run(old(View()), data[position..]) ==
              if outcome.Thrown? then Err else if outcome.Finished? then Ok(View()) else Run(View(), data[next..])
      ensures result == old(result) || (result != null && fresh(result))
      ensures fresh(HeaderObjects() - old(HeaderObjects()))
    {
      var text;
      text, next := ReadTokenAt(data, position);
      outcome := ProcessToken(text);
    }

    /** HttpProtocolDecoder::apply; null stands for an exception. */
    method Apply(data: string) returns (message: HttpMessage?)
      modifies this
      ensures message == null <==> Decode(data).Err?
      ensures message != null ==> fresh(message) && message.Valid() && message.View() == Decode(data).value
    {
      state := WaitingMessage;
      result := null;
      bodyExpectedSize := 0;
      var position, outcome := 0, Continued;
      assert data[0..] == data;
      while position < |data| && outcome.Continued?
        invariant position <= |data| && Valid()
        invariant result != null ==> fresh(result)
        invariant fresh(HeaderObjects())
        invariant Run(START, data) ==
                  if outcome.Thrown? then Err else if outcome.Finished? then Ok(View()) else Run(View(), data[position..])
      {
        outcome, position := Turn(data, position);
      }
      message := if outcome.Thrown? then null else result;
    }
  }
}
