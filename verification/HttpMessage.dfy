/** Messages as objects: a list of headers in order, and a directory of their places. */
module HttpMessages {
  import opened Options
  import opened Text
  import opened HttpHeaders
  import opened FirstLine
  import opened HttpCodec

  class HttpHeader {
    const name: string
    var value: string

    constructor (name: string)
      ensures this.name == name && value == ""
    {
      this.name := name;
      value := "";
    }

    function View(): Header
      reads this
    {
      Header(name, value)
    }

    method SetValue(v: string)
      modifies this
      ensures View() == Header(name, Combined(old(value), v))
    {
      if value == "" {
        value := v;
      } else {
        value := value + "," + v;
      }
    }

    method EncodeLine() returns (line: string)
      ensures line == LineText(View())
    {
      line := name + ":" + value;
    }
  }

  class HttpMessage {
    const start: Start
    var sequentialHeaders: seq<HttpHeader>
    var directory: map<string, nat>
    var body: string

    constructor (start: Start)
      ensures Valid() && View() == Message(start, [], "") && sequentialHeaders == []
    {
      this.start := start;
      sequentialHeaders := [];
      directory := map[];
      body := "";
    }

    /** The directory and the list agree one to one. */
    ghost predicate Valid()
      reads this
    {
      && (forall i :: 0 <= i < |sequentialHeaders| ==>
            sequentialHeaders[i].name in directory && directory[sequentialHeaders[i].name] == i)
      && (forall name :: name in directory ==>
            directory[name] < |sequentialHeaders| && sequentialHeaders[directory[name]].name == name)
    }

    ghost function Headers(): (headers: seq<Header>)
      reads this, sequentialHeaders
      ensures |headers| == |sequentialHeaders|
      ensures forall i :: 0 <= i < |headers| ==> headers[i] == sequentialHeaders[i].View()
    {
      seq(|sequentialHeaders|, i requires 0 <= i < |sequentialHeaders| reads this, sequentialHeaders =>
        sequentialHeaders[i].View())
    }

    ghost function View(): Message
      reads this, sequentialHeaders
    {
      Message(start, Headers(), body)
    }

    lemma DirectoryKnowsPlaces(name: string)
      requires Valid()
      ensures Position(Headers(), name) == if name in directory then directory[name] else |sequentialHeaders|
      ensures Distinct(Headers())
    {
      var i := Position(Headers(), name);
      if i < |sequentialHeaders| {
        assert Headers()[i].name == sequentialHeaders[i].name;
      }
      if name in directory {
        assert Headers()[directory[name]].name == name;
      }
    }

    method HasCustomHeader(name: string) returns (has: bool)
      requires Valid()
      ensures has <==> Has(Headers(), name)
    {
      DirectoryKnowsPlaces(name);
      has := name in directory;
    }

    /** No value stands for the exception. */
    method GetCustomHeaderValue(name: string) returns (value: Option<string>)
      requires Valid()
      ensures value == if Has(Headers(), name) then Some(Value(Headers(), name)) else None
    {
      DirectoryKnowsPlaces(name);
      value := if name in directory then Some(sequentialHeaders[directory[name]].value) else None;
    }

    method Combine(i: nat, value: string)
      requires Valid() && i < |sequentialHeaders|
      modifies sequentialHeaders[i]
      ensures Headers() == old(Headers())[i := Header(sequentialHeaders[i].name, Combined(old(Headers())[i].value, value))]
    {
      sequentialHeaders[i].SetValue(value);
    }

    method Append(name: string, value: string)
      requires Valid() && name !in directory
      modifies this`sequentialHeaders, this`directory
      ensures Valid() && Headers() == old(Headers()) + [Header(name, value)]
      ensures forall h :: h in sequentialHeaders ==> h in old(sequentialHeaders) || fresh(h)
    {
      var header := new HttpHeader(name);
      header.SetValue(value);
      directory := directory[name := |sequentialHeaders|];
      sequentialHeaders := sequentialHeaders + [header];
    }

    method SetHeader(name: string, value: string)
      requires Valid()
      modifies this`sequentialHeaders, this`directory, sequentialHeaders
      ensures Valid() && Headers() == Set(old(Headers()), name, value)
      ensures forall h :: h in sequentialHeaders ==> h in old(sequentialHeaders) || fresh(h)
    {
      DirectoryKnowsPlaces(name);
      if name in directory {
        Combine(directory[name], value);
      } else {
        Append(name, value);
      }
    }

    method SetBody(text: string)
      requires Valid()
      modifies this`body
      ensures Valid() && View() == old(View()).(body := text)
    {
      body := text;
      assert Headers() == old(Headers());
    }
  }

  lemma {:induction false} UnlinesAppend(lines: seq<string>, last: string)
    ensures Unlines(lines + [last]) == Unlines(lines) + (last + CRLF)
  {
    if lines == [] {
      assert [] + [last] == [last];
      assert Unlines([last]) == last + (CRLF + "");
    } else {
      assert (lines + [last])[1..] == lines[1..] + [last];
      UnlinesAppend(lines[1..], last);
      Associate(CRLF, Unlines(lines[1..]), last + CRLF);
      Associate(lines[0], CRLF + Unlines(lines[1..]), last + CRLF);
    }
  }

  lemma TextsSoFar(first: string, headers: seq<Header>, i: nat)
    requires i < |headers|
    ensures [first] + HeaderTexts(headers[..i + 1]) == [first] + HeaderTexts(headers[..i]) + [LineText(headers[i])]
  {
    assert HeaderTexts(headers[..i + 1]) == HeaderTexts(headers[..i]) + [LineText(headers[i])];
  }

  class HttpProtocolEncoder {
    var buffer: string

    constructor ()
    {
      buffer := "";
    }

    /** The header lines, after the first line. */
    method AppendHeaders(message: HttpMessage)
      requires buffer == Unlines([Line(message.start)])
      modifies this
      ensures buffer == Unlines([Line(message.start)] + HeaderTexts(message.Headers()))
    {
      ghost var first, headers := Line(message.start), message.Headers();
      assert [first] + HeaderTexts([]) == [first];
      for i := 0 to |message.sequentialHeaders|
        invariant message.Headers() == headers
        invariant buffer == Unlines([first] + HeaderTexts(headers[..i]))
      {
        TextsSoFar(first, headers, i);
        UnlinesAppend([first] + HeaderTexts(headers[..i]), LineText(headers[i]));
        var line := message.sequentialHeaders[i].EncodeLine();
        buffer := buffer + (line + CRLF);
      }
      assert headers[..|headers|] == headers;
    }

    /** A message with a body gets a Content-Length. */
    static method AddLength(message: HttpMessage)
      requires message.Valid()
      modifies message`sequentialHeaders, message`directory, message.sequentialHeaders
      ensures message.Valid() && message.View() == WithLength(old(message.View()))
    {
      if |message.body| > 0 {
        var has := message.HasCustomHeader(CONTENT_LENGTH);
        if !has { message.SetHeader(CONTENT_LENGTH, Decimal(|message.body|)); }
      }
    }

    /** First line, headers and the empty line. */
    method WriteHead(message: HttpMessage)
      modifies this
      ensures buffer == Unlines([Line(message.start)] + (HeaderTexts(message.Headers()) + [""]))
    {
      buffer := Line(message.start) + CRLF;
      OneLine(Line(message.start));
      AppendHeaders(message);
      EndOfHead(Line(message.start), HeaderTexts(message.Headers()));
      buffer := buffer + CRLF;
    }

    method Write(message: HttpMessage)
      modifies this
      ensures buffer == Unlines([Line(message.start)] + (HeaderTexts(message.Headers()) + [""])) + message.body
    {
      WriteHead(message);
      if |message.body| > 0 { buffer := buffer + message.body; }
    }

    /** HttpProtocolEncoder::apply. */
    method Apply(message: HttpMessage)
      requires message.Valid()
      modifies this, message`sequentialHeaders, message`directory, message.sequentialHeaders
      ensures message.Valid() && message.View() == WithLength(old(message.View()))
      ensures buffer == Encode(old(message.View()))
    {
      AddLength(message);
      Write(message);
    }
  }

  lemma OneLine(line: string)
    ensures Unlines([line]) == line + CRLF
  {
    assert Unlines([line]) == line + (CRLF + "");
  }

  lemma EndOfHead(first: string, texts: seq<string>)
    ensures Unlines([first] + (texts + [""])) == Unlines([first] + texts) + CRLF
  {
    UnlinesAppend([first] + texts, "");
    assert [first] + texts + [""] == [first] + (texts + [""]);
    assert "" + CRLF == CRLF;
  }
}
