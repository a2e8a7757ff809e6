/** The first line of an HTTP message (sections 5.1 and 6.1 of RFC 2616). */
module FirstLine {
  import opened Options
  import opened Text
  import opened Url
  import opened HttpHeaders
  import UrlCharacters

  datatype Version = Version(major: nat, minor: nat)

  /** A request line or a status line. */
  datatype Start =
    | Request(version: Version, verb: string, url: Url)
    | Response(version: Version, status: int, description: string)

  const METHODS := 8

  predicate StartsWithHttp(item: string) {
    |item| >= 4 && Lower(item[0]) == 'h' && Lower(item[1]) == 't' && Lower(item[2]) == 't' && Lower(item[3]) == 'p'
  }

  /** Length and first letter tell the methods apart. */
  function MethodPlace(length: nat, first: char): nat {
    if length == 3 then if first == 'g' then 2 else 4
    else if length == 4 then if first == 'p' then 0 else 3
    else if length == 5 then 6
    else if length == 6 then 5
    else if first == 'o' then 1
    else 7
  }

  function MethodName(m: nat): (name: string)
    requires m < METHODS
    ensures 3 <= |name| <= 7 && Lacks(name, ' ') && Lacks(name, NUL) && !StartsWithHttp(name)
    ensures MethodPlace(|name|, Lower(name[0])) == m
  {
    match m
    case 0 => "PORT" case 1 => "OPTIONS" case 2 => "GET" case 3 => "HEAD" case 4 => "PUT"
    case 5 => "DELETE" case 6 => "TRACE" case _ => "CONNECT"
  }

  function MethodNames(): seq<string> {
    seq(METHODS, m requires 0 <= m < METHODS => MethodName(m))
  }

  /** The methods of the table, 16 bits for the versions, 32 for the status. */
  ghost predicate InRange(s: Start) {
    && s.version.major < 0x1_0000 && s.version.minor < 0x1_0000
    && match s
       case Request(_, verb, _) => verb in MethodNames()
       case Response(_, status, _) => -0x8000_0000 <= status < 0x8000_0000
  }

  predicate Doubled(s: string, i: nat) {
    i + 1 < |s| && s[i] == ' ' && s[i + 1] == ' '
  }

  /** Words separated by single spaces. */
  ghost predicate WellSpaced(s: string) {
    && s != "" && s[0] != ' ' && s[|s| - 1] != ' '
    && forall i: nat :: !Doubled(s, i)
  }

  // ----- encodeFirstLine -----------------------------------------------------------------

  function VersionText(v: Version): string {
    "HTTP/" + (Decimal(v.major) + "." + Decimal(v.minor))
  }

  function Integer(n: int): string {
    if n < 0 then "-" + Decimal(-n) else Decimal(n)
  }

  /** Without spaces and NULs. */
  ghost predicate Word(s: string) {
    s != "" && forall i :: 0 <= i < |s| ==> s[i] != ' ' && s[i] != NUL
  }

  ghost predicate Words(words: seq<string>) {
    words != [] && forall i :: 0 <= i < |words| ==> Word(words[i])
  }

  function One(a: string): (words: seq<string>)
    requires Word(a)
    ensures Words(words)
  {
    [a]
  }

  function Two(a: string, b: string): (words: seq<string>)
    requires Word(a) && Word(b)
    ensures Words(words)
  {
    [a, b]
  }

  function Three(a: string, b: string, c: string): (words: seq<string>)
    requires Word(a) && Word(b) && Word(c)
    ensures Words(words)
  {
    [a, b, c]
  }

  function Four(a: string, b: string, c: string, d: string): (words: seq<string>)
    requires Word(a) && Word(b) && Word(c) && Word(d)
    ensures Words(words)
  {
    [a, b, c, d]
  }

  function SuccessWords(status: int): (words: seq<string>)
    ensures Words(words)
  {
    match status
    case 100 => One("Continue") case 101 => Two("Switching", "Protocols") case 200 => One("OK") case 201 => One("Created")
    case 202 => One("Accepted")
    case 203 => Two("Non-Authoritative", "Information") case 204 => Two("No", "Content") case 205 => Two("Reset", "Content")
    case 206 => Two("Partial", "Content")
    case _ => One("Unknown")
  }

  function RedirectionWords(status: int): (words: seq<string>)
    ensures Words(words)
  {
    match status
    case 300 => Two("Multiple", "Choise") case 301 => Two("Moved", "Permanently") case 302 => One("Found")
    case 303 => Two("See", "Other") case 304 => Two("Not", "Modified") case 305 => Two("Use", "proxy")
    case 307 => Two("Temporary", "Redirect")
    case _ => One("Unknown")
  }

  function RequestErrorWords(status: int): (words: seq<string>)
    ensures Words(words)
  {
    match status
    case 400 => Two("Bad", "Request") case 401 => One("Unautorized") case 402 => Two("Payment", "Required")
    case 403 => One("Forbidden") case 404 => Two("Not", "found")
    case 405 => Three("Method", "Not", "Allowed") case 406 => Two("Not", "Acceptable")
    case 407 => Three("Proxy", "Authentication", "Required") case 408 => Two("Request", "Time-out")
    case _ => One("Unknown")
  }

  function RequestFailureWords(status: int): (words: seq<string>)
    ensures Words(words)
  {
    match status
    case 409 => One("Conflict") case 410 => One("Gone") case 411 => Two("Length", "Required")
    case 412 => Two("Precondition", "Failed")
    case 413 => Four("Request", "Entity", "Too", "Large") case 414 => Three("Request-URI", "Too", "Large")
    case 415 => Three("Unsupported", "Media", "Type") case 416 => Four("Requested", "range", "not", "satisfiable")
    case 417 => Two("Expectation", "Failed")
    case _ => One("Unknown")
  }

  function ServerErrorWords(status: int): (words: seq<string>)
    ensures Words(words)
  {
    match status
    case 500 => Three("Internal", "Server", "Error") case 501 => Two("Not", "Implemented") case 502 => Two("Bad", "Gateway")
    case 503 => Two("Service", "Unavailable") case 504 => Two("Gateway", "Time-out")
    case 505 => Four("HTTP", "Version", "not", "supported")
    case _ => One("Unknown")
  }

  function ReasonWords(status: int): (words: seq<string>)
    ensures Words(words)
  {
    if status < 300 then SuccessWords(status)
    else if status < 400 then RedirectionWords(status)
    else if status < 409 then RequestErrorWords(status)
    else if status < 500 then RequestFailureWords(status)
    else ServerErrorWords(status)
  }

  /** The reasons of the table, word by word. */
  function StandardReason(status: int): string {
    Join(ReasonWords(status), ' ')
  }

  /** The description if there is one, otherwise the reason that goes with the status; shown as a
      C string. */
  function Reason(status: int, description: string): (reason: string)
    ensures Lacks(reason, NUL)
  {
    CString(if description == "" then StandardReason(status) else description)
  }

  function Line(s: Start): string {
    match s
    case Request(version, verb, url) => verb + " " + Encode(url) + " " + VersionText(version)
    case Response(version, status, description) =>
      VersionText(version) + " " + Integer(status) + " " + Reason(status, description)
  }

  // ----- HttpProtocolWaitingMessage ------------------------------------------------------

  function ReadVersion(item: string): Option<Version> {
    var versions := Separate(Separate(item, '/').1, '.');
    if IsNumeric(versions.0) && IsNumeric(versions.1)
    then Some(Version(Atoi(versions.0) % 0x1_0000, Atoi(versions.1) % 0x1_0000))
    else None
  }

  function ReadResponse(items: seq<string>): Option<Start> {
    if |items| < 3 || !StartsWithHttp(items[0]) || !IsNumeric(items[1]) then None
    else
      var version := ReadVersion(items[0]);
      if version.None? then None else Some(Response(version.value, Atoi(items[1]), Join(items[2..], ' ')))
  }

  /** A request whose URL cannot be parsed is an error, not just another kind of line. */
  function ReadRequest(items: seq<string>): Result<Option<Start>> {
    if |items| < 3 then Ok(None)
    else
      var m, version := Lookup(MethodNames(), items[0]), ReadVersion(items[2]);
      if m.None? || version.None? then Ok(None)
      else
        var url := Parse(items[1]);
        if url.Err? then Err else Ok(Some(Request(version.value, m.value, url.value)))
  }

  function ReadFirstLine(line: string): Result<Option<Start>> {
    ReadItems(Split(line, ' '))
  }

  function ReadItems(items: seq<string>): Result<Option<Start>> {
    var response := ReadResponse(items);
    if response.Some? then Ok(response) else ReadRequest(items)
  }

  // ----- words ---------------------------------------------------------------------------

  lemma TokensOfFirst(a: string, delim: char, rest: string)
    requires a != "" && Lacks(a, delim)
    ensures Tokens(a + ([delim] + rest), delim) == [a] + Tokens(rest, delim)
  {
    var s := a + ([delim] + rest);
    FindAfter(a, delim, [delim] + rest);
    assert s[..|a|] == a;
    DropPrefix(a, [delim] + rest);
    assert ([delim] + rest)[1..] == rest;
  }

  lemma TokensOfOne(a: string, delim: char)
    requires a != "" && Lacks(a, delim)
    ensures Tokens(a, delim) == [a]
  {
    assert a[..|a|] == a && a[|a|..] == "";
  }

  /** Putting the words together again gives the text, if and only if it was well spaced. */
  lemma JoinOfTokens(s: string)
    requires s != ""
    ensures Join(Tokens(s, ' '), ' ') == s <==> WellSpaced(s)
  {
    if WellSpaced(s) {
      WordsMakeTheText(s);
    } else if Join(Tokens(s, ' '), ' ') == s {
      JoinIsWellSpaced(Tokens(s, ' '));
    }
  }

  lemma {:induction false} WordsMakeTheText(s: string)
    requires WellSpaced(s)
    ensures Join(Tokens(s, ' '), ' ') == s && Tokens(s, ' ') != []
    decreases |s|
  {
    var n := Find(s, ' ');
    if n == |s| {
      TokensOfOne(s, ' ');
    } else {
      var a, rest := s[..n], s[n + 1..];
      assert s == a + ([' '] + rest);
      Associate(a, [' '], rest);
      TokensOfFirst(a, ' ', rest);
      RestIsWellSpaced(s, n);
      WordsMakeTheText(rest);
      assert Tokens(s, ' ')[1..] == Tokens(rest, ' ');
    }
  }

  lemma RestIsWellSpaced(s: string, n: nat)
    requires WellSpaced(s) && n < |s| && s[n] == ' '
    ensures WellSpaced(s[n + 1..])
  {
    var rest := s[n + 1..];
    assert !Doubled(s, n);
    forall i: nat ensures !Doubled(rest, i) {
      assert !Doubled(s, n + 1 + i);
    }
  }

  lemma {:induction false} JoinIsWellSpaced(items: seq<string>)
    requires items != [] && forall i :: 0 <= i < |items| ==> items[i] != "" && Lacks(items[i], ' ')
    ensures WellSpaced(Join(items, ' '))
  {
    if |items| > 1 {
      var a, rest := items[0], Join(items[1..], ' ');
      JoinIsWellSpaced(items[1..]);
      forall i: nat ensures !Doubled(a + [' '] + rest, i) {
        assert i > |a| ==> !Doubled(rest, i - |a| - 1);
      }
    }
  }

  /** Any status without a description is written with a reason that can be read. */
  lemma StandardReasonIsSpeakable(status: int)
    ensures WellSpaced(StandardReason(status)) && Lacks(StandardReason(status), NUL)
  {
    assert Items(ReasonWords(status), ' ');
    JoinIsWellSpaced(ReasonWords(status));
    JoinHasNoNul(ReasonWords(status), ' ');
  }

  // ----- what the pieces look like -------------------------------------------------------

  lemma NumericIsPlain(s: string, c: char)
    requires IsNumeric(s) && !IsDigit(c)
    ensures Lacks(s, c)
  {
  }

  lemma VersionTextIsPlain(v: Version)
    ensures var text := VersionText(v); |text| >= 8 && Lacks(text, ' ') && Lacks(text, NUL) && StartsWithHttp(text)
  {
    NumericIsPlain(Decimal(v.major), ' ');
    NumericIsPlain(Decimal(v.minor), ' ');
    NumericIsPlain(Decimal(v.major), NUL);
    NumericIsPlain(Decimal(v.minor), NUL);
    assert VersionText(v)[..4] == "HTTP";
    assert LowerCase("HTTP") == "http";
  }

  lemma SlashAndDot(major: string, minor: string)
    requires Lacks(major, '.')
    ensures Separate(Separate("HTTP/" + (major + "." + minor), '/').1, '.') == (major, minor)
  {
    assert "HTTP/" == "HTTP" + ['/'];
    SeparateAt("HTTP", '/', major + "." + minor);
    SeparateAt(major, '.', minor);
  }

  lemma Word16OfDecimal(n: nat)
    requires n < 0x1_0000
    ensures Atoi(Decimal(n)) % 0x1_0000 == n
  {
    AtoiOfDecimal(n);
  }

  lemma VersionIsRead(major: string, minor: string)
    requires IsNumeric(major) && IsNumeric(minor)
    ensures ReadVersion("HTTP/" + (major + "." + minor)) == Some(Version(Atoi(major) % 0x1_0000, Atoi(minor) % 0x1_0000))
  {
    NumericIsPlain(major, '.');
    SlashAndDot(major, minor);
  }

  lemma VersionRoundTrip(v: Version)
    requires v.major < 0x1_0000 && v.minor < 0x1_0000
    ensures ReadVersion(VersionText(v)) == Some(v)
  {
    VersionIsRead(Decimal(v.major), Decimal(v.minor));
    Word16OfDecimal(v.major);
    Word16OfDecimal(v.minor);
  }

  lemma IntegerIsPlain(n: int)
    ensures Integer(n) != "" && Lacks(Integer(n), ' ') && Lacks(Integer(n), NUL) && (IsNumeric(Integer(n)) <==> n >= 0)
  {
    var digits := Decimal(if n < 0 then -n else n);
    NumericIsPlain(digits, ' ');
    NumericIsPlain(digits, NUL);
    if n < 0 { assert Integer(n)[0] == '-'; }
  }

  // ----- round trips ---------------------------------------------------------------------

  lemma MethodRoundTrip(m: nat)
    requires m < METHODS
    ensures Lookup(MethodNames(), MethodName(m)) == Some(MethodName(m))
  {
    var name, table := MethodName(m), MethodNames();
    assert CString(name) == name;
    forall j: nat | j < m ensures Differs(table, j, name) {
      assert table[j] == MethodName(j) && CString(MethodName(j)) == MethodName(j);
      assert LowerCase(name)[0] == Lower(name[0]) && LowerCase(MethodName(j))[0] == Lower(MethodName(j)[0]);
    }
    LookupFindsFirst(table, m, name);
  }

  lemma Chain(a: string, b: string, c: string)
    ensures a + " " + b + " " + c == a + ([' '] + (b + ([' '] + c)))
    ensures Lacks(a, NUL) && Lacks(b, NUL) && Lacks(c, NUL) ==> Lacks(a + " " + b + " " + c, NUL)
  {
    Associate(a + " " + b, " ", c);
    Associate(a + " ", b, " " + c);
    Associate(a, " ", b + (" " + c));
  }

  lemma RequestItems(a: string, b: string, c: string)
    requires a != "" && Lacks(a, ' ') && Lacks(a, NUL) && Lacks(b, ' ') && Lacks(b, NUL)
    requires c != "" && Lacks(c, ' ') && Lacks(c, NUL)
    ensures Split(a + " " + b + " " + c, ' ') == if b == "" then [a, c] else [a, b, c]
  {
    Chain(a, b, c);
    TokensOfFirst(a, ' ', b + ([' '] + c));
    TokensOfOne(c, ' ');
    if b == "" {
      assert b + ([' '] + c) == [' '] + c;
      assert ([' '] + c)[1..] == c;
    } else {
      TokensOfFirst(b, ' ', c);
    }
  }

  lemma ItemsAreRequest(items: seq<string>, version: Version)
    requires |items| == 3 && !StartsWithHttp(items[0])
    requires Lookup(MethodNames(), items[0]) == Some(items[0]) && ReadVersion(items[2]) == Some(version)
    ensures ReadItems(items) ==
            if Parse(items[1]).Err? then Err else Ok(Some(Request(version, items[0], Parse(items[1]).value)))
  {
    assert ReadResponse(items) == None;
  }

  lemma RequestIsRead(m: nat, url: string, version: Version)
    requires m < METHODS && version.major < 0x1_0000 && version.minor < 0x1_0000
    ensures ReadItems([MethodName(m), url, VersionText(version)]) ==
            if Parse(url).Err? then Err else Ok(Some(Request(version, MethodName(m), Parse(url).value)))
  {
    MethodRoundTrip(m);
    VersionRoundTrip(version);
    ItemsAreRequest([MethodName(m), url, VersionText(version)], version);
  }

  lemma CleanRequestRoundTrip(s: Start)
    requires s.Request? && InRange(s) && Lacks(Encode(s.url), ' ') && Lacks(Encode(s.url), NUL)
    ensures ReadFirstLine(Line(s)) == if Encode(s.url) == "" then Ok(None)
                                      else if Parse(Encode(s.url)).Err? then Err
                                      else Ok(Some(s.(url := Parse(Encode(s.url)).value)))
  {
    var m :| 0 <= m < METHODS && s.verb == MethodNames()[m];
    assert s.verb == MethodName(m);
    VersionTextIsPlain(s.version);
    RequestItems(s.verb, Encode(s.url), VersionText(s.version));
    RequestIsRead(m, Encode(s.url), s.version);
    if Encode(s.url) == "" { TwoItems(s.verb, VersionText(s.version)); }
  }

  lemma TwoItems(a: string, b: string)
    ensures ReadItems([a, b]) == Ok(None)
  {
  }

  /** A URL that was read from a line holds neither spaces nor NULs. */
  lemma ReadUrlIsClean(line: string)
    ensures var r := ReadFirstLine(line);
            r.Ok? && r.value.Some? && r.value.value.Request? ==>
              Lacks(Encode(r.value.value.url), ' ') && Lacks(Encode(r.value.value.url), NUL)
  {
    var items, r := Split(line, ' '), ReadFirstLine(line);
    UrlCharacters.SplitLacks(line, ' ', NUL);
    if r.Ok? && r.value.Some? && r.value.value.Request? {
      assert r.value.value.url == Parse(items[1]).value;
      UrlCharacters.NothingIsInvented(items[1], ' ');
      UrlCharacters.NothingIsInvented(items[1], NUL);
    }
  }

  lemma EmptyIsNotParsed()
    ensures Parse("").Err?
  {
  }

  /** A request line is read back if and only if the text of its URL holds neither spaces nor NULs
      and is parsed back. */
  lemma RequestRoundTrip(s: Start)
    requires s.Request? && InRange(s)
    ensures ReadFirstLine(Line(s)) == Ok(Some(s)) <==>
            Lacks(Encode(s.url), ' ') && Lacks(Encode(s.url), NUL) && Parse(Encode(s.url)) == Ok(s.url)
  {
    if Lacks(Encode(s.url), ' ') && Lacks(Encode(s.url), NUL) {
      CleanRequestRoundTrip(s);
      EmptyIsNotParsed();
    } else {
      ReadUrlIsClean(Line(s));
    }
  }

  lemma ResponseItems(a: string, b: string, reason: string)
    requires a != "" && Lacks(a, ' ') && Lacks(a, NUL) && b != "" && Lacks(b, ' ') && Lacks(b, NUL) && Lacks(reason, NUL)
    ensures Split(a + " " + b + " " + reason, ' ') == [a, b] + Tokens(reason, ' ')
  {
    Chain(a, b, reason);
    TokensOfFirst(a, ' ', b + ([' '] + reason));
    TokensOfFirst(b, ' ', reason);
  }

  /** The status line says what the response says, with the reason spelled out. */
  function SpelledOut(s: Start): Start {
    if s.Response? then s.(description := Reason(s.status, s.description)) else s
  }

  lemma LongerIsDifferent(a: string, b: string)
    requires Lacks(a, NUL) && |a| > |b|
    ensures !SameIgnoringCase(a, b)
  {
    assert |LowerCase(CString(a))| > |LowerCase(CString(b))|;
  }

  lemma NoMethodIsThatLong(item: string)
    requires |item| >= 8 && Lacks(item, NUL)
    ensures Lookup(MethodNames(), item) == None
  {
    forall j: nat | j < METHODS ensures Differs(MethodNames(), j, item) {
      LongerIsDifferent(item, MethodName(j));
    }
    LookupFindsFirst(MethodNames(), METHODS, item);
  }

  lemma ResponseIsRead(version: Version, status: int, words: seq<string>)
    requires version.major < 0x1_0000 && version.minor < 0x1_0000 && status < 0x8000_0000
    ensures ReadItems([VersionText(version), Integer(status)] + words) ==
            Ok(if status < 0 || words == [] then None else Some(Response(version, status, Join(words, ' '))))
  {
    var items := [VersionText(version), Integer(status)] + words;
    assert items[0] == VersionText(version) && items[1] == Integer(status) && items[2..] == words;
    VersionTextIsPlain(version);
    IntegerIsPlain(status);
    if status < 0 || words == [] {
      NoMethodIsThatLong(VersionText(version));
    } else {
      VersionRoundTrip(version);
      AtoiOfDecimal(status);
    }
  }

  /** A status line is read back if and only if the status is not negative and the reason is made
      of words with single spaces. */
  lemma ResponseRoundTrip(s: Start)
    requires s.Response? && InRange(s)
    ensures ReadFirstLine(Line(s)) == Ok(Some(SpelledOut(s))) <==> s.status >= 0 && WellSpaced(Reason(s.status, s.description))
  {
    var reason := Reason(s.status, s.description);
    VersionTextIsPlain(s.version);
    IntegerIsPlain(s.status);
    ResponseItems(VersionText(s.version), Integer(s.status), reason);
    ResponseIsRead(s.version, s.status, Tokens(reason, ' '));
    if reason != "" { JoinOfTokens(reason); }
    if WellSpaced(reason) { WordsMakeTheText(reason); }
  }

  /** Spelling the reason out does not change the line. */
  lemma SpelledOutIsTheSameLine(s: Start)
    requires InRange(s) && (s.Response? ==> WellSpaced(Reason(s.status, s.description)))
    ensures Line(SpelledOut(s)) == Line(s) && SpelledOut(SpelledOut(s)) == SpelledOut(s)
    ensures s.Response? ==> (SpelledOut(s) == s <==> s.description != "" && Lacks(s.description, NUL))
  {
  }
}
