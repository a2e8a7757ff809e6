/** The headers of an HTTP message: setting one again appends to its value (section 4.2 of RFC 2616). */
module HttpHeaders {
  import opened Options
  import opened Text

  datatype Header = Header(name: string, value: string)

  /** HttpHeader::setValue. */
  function Combined(before: string, value: string): string {
    if before == "" then value else before + "," + value
  }

  function Position(headers: seq<Header>, name: string): (i: nat)
    ensures i <= |headers| && (i < |headers| ==> headers[i].name == name)
    ensures forall j :: 0 <= j < i ==> headers[j].name != name
  {
    if headers == [] || headers[0].name == name then 0 else 1 + Position(headers[1..], name)
  }

  predicate Has(headers: seq<Header>, name: string) {
    Position(headers, name) < |headers|
  }

  /** The empty string when there is no such header. */
  function Value(headers: seq<Header>, name: string): string {
    var i := Position(headers, name);
    if i < |headers| then headers[i].value else ""
  }

  /** HttpMessage::setHeader and setCustomHeader. */
  function Set(headers: seq<Header>, name: string, value: string): seq<Header> {
    var i := Position(headers, name);
    if i < |headers| then headers[i := Header(name, Combined(headers[i].value, value))]
    else headers + [Header(name, value)]
  }

  function SetAll(headers: seq<Header>, settings: seq<Header>): seq<Header>
    decreases settings
  {
    if settings == [] then headers
    else SetAll(Set(headers, settings[0].name, settings[0].value), settings[1..])
  }

  ghost predicate Distinct(headers: seq<Header>) {
    forall i, j :: 0 <= i < j < |headers| ==> headers[i].name != headers[j].name
  }

  // ----- one setting ---------------------------------------------------------------------

  lemma SetChangesOneValue(headers: seq<Header>, name: string, value: string, other: string)
    ensures Value(Set(headers, name, value), other) ==
            if other == name then Combined(Value(headers, name), value) else Value(headers, other)
    ensures Has(Set(headers, name, value), other) <==> other == name || Has(headers, other)
  {
    var after := Set(headers, name, value);
    var i, j := Position(headers, other), Position(after, other);
    assert forall k :: 0 <= k < |headers| ==> after[k].name == headers[k].name;
    if i < |headers| {
      assert after[i].name == other;
    } else if other == name {
      assert after[|headers|].name == name;
    }
  }

  lemma SetKeepsNamesApart(headers: seq<Header>, name: string, value: string)
    requires Distinct(headers)
    ensures Distinct(Set(headers, name, value))
  {
  }

  // ----- many settings -------------------------------------------------------------------

  lemma {:induction false} SetAllAppend(headers: seq<Header>, settings: seq<Header>, last: Header)
    ensures SetAll(headers, settings + [last]) == Set(SetAll(headers, settings), last.name, last.value)
    decreases settings
  {
    if settings == [] {
      assert settings + [last] == [last];
    } else {
      assert (settings + [last])[1..] == settings[1..] + [last];
      SetAllAppend(Set(headers, settings[0].name, settings[0].value), settings[1..], last);
    }
  }

  /** The values that were given for a name, in order. */
  function ValuesFor(settings: seq<Header>, name: string): seq<string> {
    if settings == [] then []
    else
      var rest := ValuesFor(settings[1..], name);
      if settings[0].name == name then [settings[0].value] + rest else rest
  }

  function Accumulated(before: string, values: seq<string>): string
    decreases values
  {
    if values == [] then before else Accumulated(Combined(before, values[0]), values[1..])
  }

  lemma {:induction false} ValuesAccumulate(headers: seq<Header>, settings: seq<Header>, name: string)
    ensures Value(SetAll(headers, settings), name) == Accumulated(Value(headers, name), ValuesFor(settings, name))
    decreases settings
  {
    if settings != [] {
      var first := settings[0];
      SetChangesOneValue(headers, first.name, first.value, name);
      ValuesAccumulate(Set(headers, first.name, first.value), settings[1..], name);
      if first.name == name {
        assert ValuesFor(settings, name)[1..] == ValuesFor(settings[1..], name);
      }
    }
  }

  lemma {:induction false} AccumulatedAfterText(before: string, values: seq<string>)
    requires before != "" && values != []
    ensures Accumulated(before, values) == before + "," + Join(values, ',')
    decreases values
  {
    var next := before + "," + values[0];
    if |values| > 1 {
      AccumulatedAfterText(next, values[1..]);
      Associate(before + ",", values[0], [',']);
      Associate(before + ",", values[0] + [','], Join(values[1..], ','));
    }
  }

  lemma {:induction false} AccumulatedIsNoLonger(values: seq<string>)
    ensures |Accumulated("", values)| <= |Join(values, ',')|
  {
    if |values| > 1 {
      if values[0] == "" {
        AccumulatedIsNoLonger(values[1..]);
      } else {
        AccumulatedAfterText(values[0], values[1..]);
      }
    }
  }

  /** The value is the comma-separated list of everything given, unless the list starts with an
      empty value: that one leaves no comma behind. */
  lemma AccumulatedIsTheList(values: seq<string>)
    ensures Accumulated("", values) == Join(values, ',') <==> (|values| > 1 ==> values[0] != "")
  {
    if |values| > 1 {
      if values[0] == "" {
        AccumulatedIsNoLonger(values[1..]);
      } else {
        AccumulatedAfterText(values[0], values[1..]);
      }
    }
  }

  lemma PositionIsStable(settings: seq<Header>, last: Header, name: string)
    ensures Position(settings + [last], name) ==
            if Has(settings, name) || name == last.name then Position(settings, name) else |settings| + 1
  {
    var i, j := Position(settings, name), Position(settings + [last], name);
    assert i < |settings| ==> (settings + [last])[i].name == name;
    assert (settings + [last])[|settings|] == last;
  }

  ghost predicate InOrderOfAppearance(headers: seq<Header>, settings: seq<Header>) {
    && (forall i :: 0 <= i < |headers| ==> Has(settings, headers[i].name))
    && (forall i, j :: 0 <= i < j < |headers| ==>
          Position(settings, headers[i].name) < Position(settings, headers[j].name))
  }

  lemma OneMoreInOrder(headers: seq<Header>, settings: seq<Header>, last: Header)
    requires InOrderOfAppearance(headers, settings)
    requires Has(headers, last.name) <==> Has(settings, last.name)
    ensures InOrderOfAppearance(Set(headers, last.name, last.value), settings + [last])
  {
    var after, all := Set(headers, last.name, last.value), settings + [last];
    forall i | 0 <= i < |after|
      ensures Has(all, after[i].name)
      ensures Position(all, after[i].name) == Position(settings, after[i].name)
      ensures i < |headers| ==> after[i].name == headers[i].name && Position(all, after[i].name) < |settings|
    {
      PositionIsStable(settings, last, after[i].name);
    }
  }

  lemma {:induction false} AppearanceIsKept(settings: seq<Header>)
    ensures InOrderOfAppearance(SetAll([], settings), settings) && Distinct(SetAll([], settings))
    ensures forall name :: Has(SetAll([], settings), name) <==> Has(settings, name)
  {
    if settings != [] {
      var before, last := settings[..|settings| - 1], settings[|settings| - 1];
      assert settings == before + [last];
      AppearanceIsKept(before);
      SetAllAppend([], before, last);
      var headers := SetAll([], before);
      OneMoreInOrder(headers, before, last);
      SetKeepsNamesApart(headers, last.name, last.value);
      forall name ensures Has(Set(headers, last.name, last.value), name) <==> Has(settings, name) {
        SetChangesOneValue(headers, last.name, last.value, name);
        PositionIsStable(before, last, name);
      }
    }
  }

  /** After any settings there is one header for each name, in the order in which the names first
      appeared, and its value lists the values given for it. */
  lemma HeadersAreCombined(settings: seq<Header>, name: string)
    ensures var headers, values := SetAll([], settings), ValuesFor(settings, name);
            && Distinct(headers) && InOrderOfAppearance(headers, settings)
            && (Has(headers, name) <==> Has(settings, name))
            && (Value(headers, name) == Join(values, ',') <==> (|values| > 1 ==> values[0] != ""))
  {
    AppearanceIsKept(settings);
    ValuesAccumulate([], settings, name);
    AccumulatedIsTheList(ValuesFor(settings, name));
  }

  /** A first value that is empty leaves no comma behind. */
  lemma EmptyFirstValueIsLost()
    ensures var headers := SetAll([], [Header("X", ""), Header("X", "a")]);
            Value(headers, "X") == "a" && ValuesFor([Header("X", ""), Header("X", "a")], "X") == ["", "a"]
  {
    var first, second := Header("X", ""), Header("X", "a");
    var settings := [first, second];
    assert settings[1..] == [second] && [second][1..] == [];
    assert ValuesFor([second], "X") == ["a"];
    ValuesAccumulate([], settings, "X");
    assert Accumulated("", ["", "a"]) == Accumulated("", ["a"]);
    assert Accumulated("", ["a"]) == Accumulated("a", []);
  }

  // ----- names ---------------------------------------------------------------------------

  const TYPES := 47

  ghost predicate Clean(name: string) {
    name != "" && forall i :: 0 <= i < |name| ==> name[i] != NUL && name[i] != ':' && name[i] != '\r'
  }

  /** Length, first and last letter tell the standard names apart. */
  function Place(length: nat, first: char, last: char): nat {
    match length
    case 2 => 26
    case 3 => if first == 'v' then 7 else 39
    case 4 => if first == 'd' then 2 else if first == 'f' then 15 else if first == 'h' then 16 else if first == 'e' then 40 else 45
    case 5 => if first == 'r' then 24 else 28
    case 6 => if first == 'p' then 3 else if first == 'a' then 9 else if first == 'e' then 14 else 44
    case 7 => if first == 't' then 4 else if first == 'u' then 6 else if first == 'w' then 8 else if first == 'r' then 25 else 36
    case 8 => if first == 'i' && last == 'h' then 17 else if first == 'i' && last == 'e' then 20 else 41
    case 10 => if first == 'c' then 1 else 27
    case 11 => if first == 'c' then 33 else 43
    case 12 => if first == 'm' then 22 else 35
    case 13 => if first == 'c' && last == 'l' then 0 else if first == 'a' && last == 'n' then 13 else if first == 'i' then 19 else if first == 'c' && last == 'e' then 34 else if first == 'l' then 37 else 38
    case 14 => if first == 'a' then 10 else 31
    case 15 => if first == 'a' && last == 'g' then 11 else 12
    case 16 => if first == 'c' && last == 'g' then 29 else if first == 'c' && last == 'e' then 30 else if first == 'c' && last == 'n' then 32 else 46
    case 17 => if first == 't' then 5 else 18
    case 18 => 42
    case 19 => if first == 'i' then 21 else 23
    case _ => 47
  }

  function PlaceOf(name: string): nat
    requires name != ""
  {
    Place(|name|, Lower(name[0]), Lower(name[|name| - 1]))
  }

  function CommonName(kind: nat): (name: string)
    requires 0 <= kind < 9
    ensures Clean(name) && PlaceOf(name) == kind
  {
    match kind
    case 0 => "Cache-Control" case 1 => "Connection" case 2 => "Date" case 3 => "Pragma" case 4 => "Trailer"
    case 5 => "Transfer-Encoding" case 6 => "Upgrade" case 7 => "Via" case _ => "Warning"
  }

  function RequestName(kind: nat): (name: string)
    requires 9 <= kind < 17
    ensures Clean(name) && PlaceOf(name) == kind
  {
    match kind
    case 9 => "Accept" case 10 => "Accept-Charset" case 11 => "Accept-Encoding" case 12 => "Accept-Language"
    case 13 => "Authorization" case 14 => "Expect" case 15 => "From" case _ => "Host"
  }

  function ConditionName(kind: nat): (name: string)
    requires 17 <= kind < 20
    ensures Clean(name) && PlaceOf(name) == kind
  {
    match kind
    case 17 => "If-Match" case 18 => "If-Modified-Since" case _ => "If-None-Match"
  }

  function LimitName(kind: nat): (name: string)
    requires 20 <= kind < 23
    ensures Clean(name) && PlaceOf(name) == kind
  {
    match kind
    case 20 => "If-Range" case 21 => "If-Unmodified-Since" case _ => "Max-Forwards"
  }

  function ClientName(kind: nat): (name: string)
    requires 23 <= kind < 28
    ensures Clean(name) && PlaceOf(name) == kind
  {
    match kind
    case 23 => "Proxy-Authorization" case 24 => "Range" case 25 => "Referer" case 26 => "TE" case _ => "User-Agent"
  }

  function EntityName(kind: nat): (name: string)
    requires 28 <= kind < 33
    ensures Clean(name) && PlaceOf(name) == kind
  {
    match kind
    case 28 => "Allow" case 29 => "Content-Encoding" case 30 => "Content-Language" case 31 => "Content-Length"
    case _ => "Content-Location"
  }

  function ContentName(kind: nat): (name: string)
    requires 33 <= kind < 38
    ensures Clean(name) && PlaceOf(name) == kind
  {
    match kind
    case 33 => "Content-MD5" case 34 => "Content-Range" case 35 => "Content-Type" case 36 => "Expires"
    case _ => "Last-Modified"
  }

  function ResponseName(kind: nat): (name: string)
    requires 38 <= kind < 43
    ensures Clean(name) && PlaceOf(name) == kind
  {
    match kind
    case 38 => "Accept-Ranges" case 39 => "Age" case 40 => "ETAG" case 41 => "Location" case _ => "Proxy-Authenticate"
  }

  function ServerName(kind: nat): (name: string)
    requires 43 <= kind < 47
    ensures Clean(name) && PlaceOf(name) == kind
  {
    match kind
    case 43 => "Retry-After" case 44 => "Server" case 45 => "Vary" case _ => "WWW-Authenticate"
  }

  /** The names of the standard headers, in the order of HttpHeader::Type. */
  function TypeName(kind: nat): (name: string)
    requires kind < TYPES
    ensures Clean(name) && PlaceOf(name) == kind
  {
    if kind < 9 then CommonName(kind)
    else if kind < 17 then RequestName(kind)
    else if kind < 20 then ConditionName(kind)
    else if kind < 23 then LimitName(kind)
    else if kind < 28 then ClientName(kind)
    else if kind < 33 then EntityName(kind)
    else if kind < 38 then ContentName(kind)
    else if kind < 43 then ResponseName(kind)
    else ServerName(kind)
  }

  function HeaderNames(): seq<string> {
    seq(TYPES, i requires 0 <= i < TYPES => TypeName(i))
  }

  const CONTENT_LENGTH := "Content-Length"

  /** The first entry of a table that is the given name, ignoring case. */
  function Lookup(table: seq<string>, name: string): (entry: Option<string>)
    ensures entry.Some? ==> entry.value in table && SameIgnoringCase(name, entry.value)
  {
    if table == [] then None
    else if SameIgnoringCase(name, table[0]) then Some(table[0])
    else Lookup(table[1..], name)
  }

  /** The name under which a received header is kept: the spelling of the table, if it is a
      standard name. */
  function Canonical(name: string): string {
    var entry := Lookup(HeaderNames(), name);
    if entry.Some? then entry.value else name
  }

  /** What a header line sets. */
  function LineSetting(line: string): Header {
    var items := Separate(line, ':');
    Header(Canonical(items.0), items.1)
  }

  function LineText(header: Header): string {
    header.name + ":" + header.value
  }

  lemma SamePlace(a: string, b: string)
    requires a != "" && b != "" && LowerCase(a) == LowerCase(b)
    ensures PlaceOf(a) == PlaceOf(b)
  {
    assert LowerCase(a)[0] == LowerCase(b)[0] && LowerCase(a)[|a| - 1] == LowerCase(b)[|b| - 1];
  }

  ghost predicate Differs(table: seq<string>, i: nat, name: string)
    requires i < |table|
  {
    !SameIgnoringCase(name, table[i])
  }

  lemma {:induction false} LookupFindsFirst(table: seq<string>, i: nat, name: string)
    requires i <= |table| && forall j: nat {:trigger Differs(table, j, name)} :: j < i ==> Differs(table, j, name)
    requires i < |table| ==> SameIgnoringCase(name, table[i])
    ensures Lookup(table, name) == if i < |table| then Some(table[i]) else None
  {
    if i > 0 {
      assert Differs(table, 0, name);
      forall j: nat | j < i - 1 ensures Differs(table[1..], j, name) { assert Differs(table, j + 1, name); }
      LookupFindsFirst(table[1..], i - 1, name);
    }
  }

  /** No standard name is another one in a different case, so each is kept under its own spelling. */
  lemma StandardNamesAreCanonical(i: nat)
    requires i < TYPES
    ensures Lookup(HeaderNames(), TypeName(i)) == Some(TypeName(i)) && Canonical(TypeName(i)) == TypeName(i)
  {
    var name, table := TypeName(i), HeaderNames();
    assert CString(name) == name;
    forall j: nat | j < i ensures Differs(table, j, name) {
      assert table[j] == TypeName(j) && CString(TypeName(j)) == TypeName(j);
      if SameIgnoringCase(name, TypeName(j)) { SamePlace(name, TypeName(j)); }
    }
    LookupFindsFirst(table, i, name);
  }

  /** Only the entry of the table is taken for Content-Length. */
  lemma ContentLengthIsStandard(item: string)
    ensures Canonical(item) == CONTENT_LENGTH <==> Lookup(HeaderNames(), item) == Some(CONTENT_LENGTH)
  {
    assert TypeName(31) == CONTENT_LENGTH;
    StandardNamesAreCanonical(31);
  }

  /** A name in any spelling finds the entry of the table, and only that. */
  lemma TypeIsFoundIffSpelled(item: string, i: nat)
    requires i < TYPES
    ensures Lookup(HeaderNames(), item) == Some(TypeName(i)) <==> SpelledAs(CString(item), TypeName(i))
  {
    var table := HeaderNames();
    assert CString(TypeName(i)) == TypeName(i) && table[i] == TypeName(i);
    SameIgnoringCaseIsSpelling(item, TypeName(i));
    if SpelledAs(CString(item), TypeName(i)) {
      forall j: nat | j < i ensures Differs(table, j, item) {
        assert table[j] == TypeName(j) && CString(TypeName(j)) == TypeName(j);
        if SameIgnoringCase(item, TypeName(j)) { SamePlace(TypeName(i), TypeName(j)); }
      }
      LookupFindsFirst(table, i, item);
    }
  }

  /** Nothing is found exactly for names that spell no entry of the table. */
  lemma NoTypeIffNotSpelled(item: string)
    ensures Lookup(HeaderNames(), item).None? <==> forall i: nat :: i < TYPES ==> !SpelledAs(CString(item), TypeName(i))
  {
    var entry := Lookup(HeaderNames(), item);
    if entry.Some? {
      var i :| 0 <= i < TYPES && HeaderNames()[i] == entry.value;
      TypeIsFoundIffSpelled(item, i);
    } else {
      forall i: nat | i < TYPES ensures !SpelledAs(CString(item), TypeName(i)) { TypeIsFoundIffSpelled(item, i); }
    }
  }

  /** A header line in any spelling sets the header under the name of the table, with everything
      after the first ':' as its value. */
  lemma AnySpellingSetsTheHeader(name: string, value: string, i: nat)
    requires i < TYPES && SpelledAs(name, TypeName(i))
    ensures LineSetting(name + ":" + value) == Header(TypeName(i), value)
    ensures LineSetting(name) == Header(TypeName(i), "")
  {
    SpellingIsClean(name, TypeName(i));
    SeparateAt(name, ':', value);
    TypeIsFoundIffSpelled(name, i);
  }

  lemma SpellingIsClean(text: string, name: string)
    requires Clean(name) && SpelledAs(text, name)
    ensures Lacks(text, ':') && Lacks(text, NUL) && CString(text) == text
  {
    forall i | 0 <= i < |text| ensures text[i] != ':' && text[i] != NUL { assert EitherCase(text[i], name[i]); }
  }

  /** Any other name is kept as it was written. */
  lemma OtherNamesAreKept(name: string, value: string)
    requires Lacks(name, ':') && forall i: nat :: i < TYPES ==> !SpelledAs(CString(name), TypeName(i))
    ensures LineSetting(name + ":" + value) == Header(name, value)
    ensures LineSetting(name) == Header(name, "")
  {
    SeparateAt(name, ':', value);
    NoTypeIffNotSpelled(name);
  }
}
