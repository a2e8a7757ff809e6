/** What the decoder takes for a first line, a header and a body, said by the characters of the text. */
module HttpReading {
  import opened Options
  import opened Text
  import opened HttpHeaders
  import opened FirstLine
  import opened HttpCodec
  import opened HttpRoundTrip
  import Url

  // ----- methods -------------------------------------------------------------------------

  /** A method in any spelling is found, and only that. */
  lemma MethodIsFoundIffSpelled(item: string, m: nat)
    requires m < METHODS
    ensures Lookup(MethodNames(), item) == Some(MethodName(m)) <==> SpelledAs(CString(item), MethodName(m))
  {
    var table := MethodNames();
    assert CString(MethodName(m)) == MethodName(m) && table[m] == MethodName(m);
    SameIgnoringCaseIsSpelling(item, MethodName(m));
    if SpelledAs(CString(item), MethodName(m)) {
      forall j: nat | j < m ensures Differs(table, j, item) {
        assert table[j] == MethodName(j) && CString(MethodName(j)) == MethodName(j);
        if SameIgnoringCase(item, MethodName(j)) { SameMethodPlace(m, j); }
      }
      LookupFindsFirst(table, m, item);
    }
  }

  lemma SameMethodPlace(m: nat, j: nat)
    requires m < METHODS && j < METHODS && LowerCase(MethodName(m)) == LowerCase(MethodName(j))
    ensures m == j
  {
    assert LowerCase(MethodName(m))[0] == LowerCase(MethodName(j))[0];
  }

  lemma NoMethodIffNotSpelled(item: string)
    ensures Lookup(MethodNames(), item).None? <==> forall m: nat :: m < METHODS ==> !SpelledAs(CString(item), MethodName(m))
  {
    var entry := Lookup(MethodNames(), item);
    if entry.Some? {
      var m :| 0 <= m < METHODS && MethodNames()[m] == entry.value;
      MethodIsFoundIffSpelled(item, m);
    } else {
      forall m: nat | m < METHODS ensures !SpelledAs(CString(item), MethodName(m)) { MethodIsFoundIffSpelled(item, m); }
    }
  }

  // ----- versions ------------------------------------------------------------------------

  /** A version is what stands behind the first '/', two numbers with a '.' between them. */
  lemma VersionIsReadIff(protocol: string, major: string, minor: string)
    requires Lacks(protocol, '/') && Lacks(major, '.')
    ensures ReadVersion(protocol + ['/'] + (major + ['.'] + minor)) ==
            if major != "" && minor != "" && (forall i :: 0 <= i < |major| ==> '0' <= major[i] <= '9')
               && (forall i :: 0 <= i < |minor| ==> '0' <= minor[i] <= '9')
            then Some(Version(Atoi(major) % 0x1_0000, Atoi(minor) % 0x1_0000)) else None
  {
    SeparateAt(protocol, '/', major + ['.'] + minor);
    SeparateAt(major, '.', minor);
  }

  lemma NoVersionWithoutDelimiters(item: string)
    requires Lacks(item, '/') || Lacks(Separate(item, '/').1, '.')
    ensures ReadVersion(item) == None
  {
  }

  // ----- first lines ---------------------------------------------------------------------

  /** A status line: "http" in any case, a version, a number, and words. */
  lemma StatusLineIsRead(item: string, version: Version, code: string, words: seq<string>)
    requires |item| >= 4 && SpelledAs(item[..4], "HTTP") && ReadVersion(item) == Some(version)
    requires code != "" && (forall i :: 0 <= i < |code| ==> '0' <= code[i] <= '9') && words != []
    ensures ReadItems([item, code] + words) == Ok(Some(Response(version, Atoi(code), Join(words, ' '))))
  {
    var items := [item, code] + words;
    assert items[0] == item && items[1] == code && items[2..] == words;
    HttpInAnyCase(item);
  }

  lemma HttpInAnyCase(item: string)
    ensures StartsWithHttp(item) <==> |item| >= 4 && SpelledAs(item[..4], "HTTP")
  {
    if |item| >= 4 {
      var four := item[..4];
      forall i | 0 <= i < 4 ensures Lower(four[i]) == Lower("HTTP"[i]) <==> EitherCase(four[i], "HTTP"[i]) {
        LowerIsEitherCase(four[i], "HTTP"[i]);
      }
      assert four[0] == item[0] && four[1] == item[1] && four[2] == item[2] && four[3] == item[3];
    }
  }

  /** A request line: a method in any case, a URL and a version; what follows is not looked at. The
      method is kept as the table spells it. A URL that cannot be parsed is an error. */
  lemma RequestLineIsRead(items: seq<string>, m: nat, version: Version)
    requires |items| >= 3 && m < METHODS && SpelledAs(items[0], MethodName(m)) && ReadVersion(items[2]) == Some(version)
    ensures ReadItems(items) ==
            if Url.Parse(items[1]).Err? then Err
            else Ok(Some(Request(version, MethodName(m), Url.Parse(items[1]).value)))
  {
    MethodIsNotHttp(items[0], m);
    MethodIsFoundIffSpelled(items[0], m);
    assert ReadResponse(items) == None;
  }

  lemma MethodIsNotHttp(item: string, m: nat)
    requires m < METHODS && SpelledAs(item, MethodName(m))
    ensures !StartsWithHttp(item) && CString(item) == item
  {
    var name := MethodName(m);
    forall i | 0 <= i < |item| ensures Lower(item[i]) == Lower(name[i]) && item[i] != NUL {
      LowerIsEitherCase(item[i], name[i]);
      assert EitherCase(item[i], name[i]);
    }
  }

  /** Everything else is skipped: too few items, neither a version nor a method in front, or no
      version or number where one is due. */
  lemma OtherLinesAreSkipped(items: seq<string>)
    requires |items| >= 3 ==>
               && (|items[0]| >= 4 && SpelledAs(items[0][..4], "HTTP") ==> ReadVersion(items[0]).None? || !IsNumeric(items[1]))
               && ((exists m: nat :: m < METHODS && SpelledAs(CString(items[0]), MethodName(m))) ==> ReadVersion(items[2]).None?)
    ensures ReadItems(items) == Ok(None)
  {
    if |items| >= 3 {
      HttpInAnyCase(items[0]);
      NoMethodIffNotSpelled(items[0]);
    }
  }

  // ----- lengths -------------------------------------------------------------------------

  /** Any spelling of Content-Length, ':' and digits. */
  ghost predicate GivesLength(line: string, digits: string) {
    && |line| == |"Content-Length"| + 1 + |digits| && SpelledAs(line[..14], "Content-Length") && line[14] == ':'
    && line[15..] == digits && digits != "" && forall i :: 0 <= i < |digits| ==> '0' <= digits[i] <= '9'
  }

  lemma ContentLengthIsInTheTable()
    ensures TypeName(31) == "Content-Length" && CONTENT_LENGTH == "Content-Length" && Clean("Content-Length")
  {
  }

  lemma LengthLine(line: string, digits: string)
    requires GivesLength(line, digits)
    ensures IsNumeric(digits) && LineSetting(line) == Header("Content-Length", digits)
    ensures IsLength(LineSetting(line)) && LengthIn(LineSetting(line)) == Atol(digits) % 0x1_0000_0000
  {
    ContentLengthIsInTheTable();
    assert line == line[..14] + ":" + digits;
    AnySpellingSetsTheHeader(line[..14], digits, 31);
  }

  lemma CutAtFourteen(name: string, value: string)
    requires |name| == 14
    ensures var line := name + [':'] + value; |line| == 15 + |value| && line[..14] == name && line[14] == ':' && line[15..] == value
  {
  }

  lemma SpelledLengthLine(name: string, value: string)
    requires SpelledAs(name, "Content-Length") && IsNumeric(value)
    ensures GivesLength(name + [':'] + value, value)
  {
    CutAtFourteen(name, value);
  }

  lemma OnlyLengthNames(name: string)
    requires Lacks(name, NUL) && Canonical(name) == CONTENT_LENGTH
    ensures SpelledAs(name, "Content-Length")
  {
    ContentLengthIsInTheTable();
    ContentLengthIsStandard(name);
    TypeIsFoundIffSpelled(name, 31);
  }

  lemma NameBeforeColon(line: string)
    requires Lacks(line, NUL)
    ensures Lacks(Separate(line, ':').0, NUL)
    ensures Separate(line, ':').1 != "" ==> line == Separate(line, ':').0 + [':'] + Separate(line, ':').1
  {
    var name := Separate(line, ':').0;
    forall i | 0 <= i < |name| ensures name[i] != NUL { assert line[i] == name[i]; }
  }

  /** No other line gives a length; a name cut short by a NUL is the one way around. */
  lemma OnlyLengthLines(line: string)
    requires IsLength(LineSetting(line)) && Lacks(line, NUL)
    ensures exists digits :: GivesLength(line, digits)
  {
    var items := Separate(line, ':');
    NameBeforeColon(line);
    OnlyLengthNames(items.0);
    SpelledLengthLine(items.0, items.1);
  }

  lemma {:induction false} FirstLengthCounts(head: seq<string>, i: nat, digits: string)
    requires i < |head| && GivesLength(head[i], digits)
    requires forall j :: 0 <= j < i ==> Lacks(head[j], NUL) && !exists d :: GivesLength(head[j], d)
    ensures IsNumeric(digits) && LengthOf(head) == Some(Atol(digits) % 0x1_0000_0000)
  {
    if i == 0 {
      LengthLine(head[0], digits);
    } else {
      if IsLength(LineSetting(head[0])) { OnlyLengthLines(head[0]); }
      FirstLengthCounts(head[1..], i - 1, digits);
    }
  }

  lemma {:induction false} NoLengthAtAll(head: seq<string>)
    requires forall j :: 0 <= j < |head| ==> Lacks(head[j], NUL) && !exists d :: GivesLength(head[j], d)
    ensures LengthOf(head) == None
  {
    if head != [] {
      if IsLength(LineSetting(head[0])) { OnlyLengthLines(head[0]); }
      NoLengthAtAll(head[1..]);
    }
  }

  // ----- messages ------------------------------------------------------------------------

  /** A first line, a head of lines that are not empty, an empty line, and the rest. */
  function MessageText(first: string, head: seq<string>, rest: string): string {
    Unlines([first] + (head + [""])) + rest
  }

  ghost predicate HeadOfLines(first: string, head: seq<string>) {
    NoBreak(first) && forall i :: 0 <= i < |head| ==> head[i] != "" && NoBreak(head[i])
  }

  lemma DecodedText(first: string, head: seq<string>, rest: string, start: Start)
    requires HeadOfLines(first, head) && ReadFirstLine(first) == Ok(Some(start))
    ensures Decode(MessageText(first, head, rest)) ==
            WithBody(WithHead(Message(start, [], ""), head), LengthOf(head), Lines(rest))
  {
    var lines := [first] + (head + [""]);
    var tail := head + ([""] + Lines(rest));
    NoReturnNoBreak("");
    LinesOfUnlines(lines, rest);
    Regrouped(first, head, "", Lines(rest));
    DecoderIsExact(MessageText(first, head, rest));
    MeaningUnfold(first, start, tail);
    MeaningOfHead(Message(start, [], ""), head, Lines(rest));
  }

  /** Without a length there is no body, whatever follows the empty line. */
  lemma NoLengthNoBody(first: string, head: seq<string>, rest: string, start: Start)
    requires HeadOfLines(first, head) && ReadFirstLine(first) == Ok(Some(start))
    requires forall j :: 0 <= j < |head| ==> Lacks(head[j], NUL) && !exists d :: GivesLength(head[j], d)
    ensures Decode(MessageText(first, head, rest)) == Ok(Message(start, SetAll([], Settings(head)), ""))
  {
    DecodedText(first, head, rest, start);
    NoLengthAtAll(head);
  }

  /** The first line of the head that gives a length decides: a body line of just that length, modulo
      2^32, is the body, any other is an error; and nothing behind it is looked at. */
  lemma LengthMakesTheBody(first: string, head: seq<string>, i: nat, digits: string, body: string, more: string, start: Start)
    requires HeadOfLines(first, head) && ReadFirstLine(first) == Ok(Some(start))
    requires i < |head| && GivesLength(head[i], digits)
    requires forall j :: 0 <= j < i ==> Lacks(head[j], NUL) && !exists d :: GivesLength(head[j], d)
    requires NoBreak(body)
    ensures IsNumeric(digits)
    ensures Decode(MessageText(first, head, body + (CRLF + more))) ==
            if |body| == Atol(digits) % 0x1_0000_0000 then Ok(Message(start, SetAll([], Settings(head)), body)) else Err
  {
    DecodedText(first, head, body + (CRLF + more), start);
    FirstLengthCounts(head, i, digits);
    LinesOfFirst(body, more);
  }

  /** The same for a body that ends the text; without any the message has no body. */
  lemma LengthMakesTheLastBody(first: string, head: seq<string>, i: nat, digits: string, body: string, start: Start)
    requires HeadOfLines(first, head) && ReadFirstLine(first) == Ok(Some(start))
    requires i < |head| && GivesLength(head[i], digits)
    requires forall j :: 0 <= j < i ==> Lacks(head[j], NUL) && !exists d :: GivesLength(head[j], d)
    requires NoBreak(body)
    ensures IsNumeric(digits)
    ensures Decode(MessageText(first, head, body)) ==
            if body == "" || |body| == Atol(digits) % 0x1_0000_0000
            then Ok(Message(start, SetAll([], Settings(head)), body)) else Err
  {
    DecodedText(first, head, body, start);
    FirstLengthCounts(head, i, digits);
    if body != "" { BodyIsOneToken(body); }
  }

  /** Lines before the first line are skipped. */
  lemma NoiseIsSkipped(line: string, rest: string)
    requires NoBreak(line) && ReadFirstLine(line) == Ok(None)
    ensures Decode(line + (CRLF + rest)) == Decode(rest)
  {
    LinesOfFirst(line, rest);
    DecoderIsExact(line + (CRLF + rest));
    DecoderIsExact(rest);
    MeaningOfRest(line, Lines(rest));
  }

  /** A line that is a request with an unreadable URL ends in an error. */
  lemma UnreadableUrlIsAnError(line: string, rest: string)
    requires NoBreak(line) && ReadFirstLine(line) == Err
    ensures Decode(line + (CRLF + rest)) == Err
  {
    LinesOfFirst(line, rest);
    DecoderIsExact(line + (CRLF + rest));
    MeaningOfRest(line, Lines(rest));
  }

  /** Without a first line there is no message. */
  lemma {:induction false} NoFirstLineNoMessage(text: string)
    requires forall i :: 0 <= i < |Lines(text)| ==> ReadFirstLine(Lines(text)[i]) == Ok(None)
    ensures Decode(text) == Err
  {
    DecoderIsExact(text);
    NothingFound(Lines(text));
  }

  lemma {:induction false} NothingFound(lines: seq<string>)
    requires forall i :: 0 <= i < |lines| ==> ReadFirstLine(lines[i]) == Ok(None)
    ensures FromFirstLine(lines) == []
  {
    if lines != [] { NothingFound(lines[1..]); }
  }

  // ----- what is written -----------------------------------------------------------------

  /** A body without a Content-Length gets one as the last header; nothing else is changed. */
  lemma LengthIsAdded(m: Message)
    ensures m.body == "" || Has(m.headers, "Content-Length") ==> WithLength(m) == m
    ensures m.body != "" && !Has(m.headers, "Content-Length") ==>
              WithLength(m) == Message(m.start, m.headers + [Header("Content-Length", Decimal(|m.body|))], m.body)
  {
  }

  /** The text of a message, character by character: first line, header lines, empty line, body. */
  lemma WrittenText(start: Start, h: Header, g: Header, body: string)
    requires h.name == "Content-Length" || body == ""
    ensures Encode(Message(start, [h, g], body)) ==
            Line(start) + "\r\n" + (h.name + ":" + h.value + "\r\n") + (g.name + ":" + g.value + "\r\n") + "\r\n" + body
  {
    var m := Message(start, [h, g], body);
    assert WithLength(m) == m;
    var hText, gText := LineText(h), LineText(g);
    assert [h, g][1..] == [g];
    assert HeaderTexts([g]) == [gText] && HeaderTexts([h, g]) == [hText, gText];
    assert [Line(start)] + (HeaderTexts([h, g]) + [""]) == [Line(start), hText, gText, ""];
    UnlinesOfFour(Line(start), hText, gText);
  }

  lemma UnlinesOfFour(a: string, b: string, c: string)
    ensures Unlines([a, b, c, ""]) == a + "\r\n" + (b + "\r\n") + (c + "\r\n") + "\r\n"
  {
    assert [a, b, c, ""] == [a] + [b, c, ""] && [b, c, ""] == [b] + [c, ""] && [c, ""] == [c] + [""];
    UnlinesOne("", []);
    assert [""] + [] == [""];
    UnlinesOne(c, [""]);
    UnlinesOne(b, [c, ""]);
    UnlinesOne(a, [b, c, ""]);
    var end := "\r\n";
    assert Unlines([""]) == end;
    var cc, bb := c + end, b + end;
    Associate(c, end, end);
    Associate(b, end, cc + end);
    Associate(a, end, bb + (cc + end));
    Associate(bb, cc, end);
    Associate(a + end, bb + cc, end);
    Associate(a + end, bb, cc);
  }

  /** The first lines as they are written; a status may be negative, a missing description is the
      reason of the table. */
  lemma WrittenFirstLine(version: Version, verb: string, url: Url.Url, status: int, description: string)
    ensures Line(Request(version, verb, url)) ==
            verb + " " + Url.Encode(url) + " " + ("HTTP/" + (Decimal(version.major) + "." + Decimal(version.minor)))
    ensures Line(Response(version, status, description)) ==
            ("HTTP/" + (Decimal(version.major) + "." + Decimal(version.minor))) + " "
            + (if status < 0 then "-" + Decimal(-status) else Decimal(status)) + " "
            + CString(if description == "" then StandardReason(status) else description)
    ensures StandardReason(404) == "Not" + " " + "found" && StandardReason(200) == "OK" && StandardReason(1000) == "Unknown"
  {
    assert ["Not", "found"][1..] == ["found"];
  }
}
