/** The URL parser as it runs: positions in the text, and a table of components filled on the way. */
module UrlParser {
  import opened Options
  import opened Text
  import opened Url

  datatype ComponentName = Scheme | User | Password | Host | Port | Path | Fragment

  type Components = map<ComponentName, string>

  function Component(components: Components, name: ComponentName): Option<string> {
    if name in components then Some(components[name]) else None
  }

  function UrlOf(components: Components, query: seq<KeyValue>): Url {
    Url(Component(components, Scheme), Component(components, User), Component(components, Password),
        Component(components, Host), Component(components, Port), Component(components, Path),
        Component(components, Fragment), query)
  }

  // ----- helpers of the protocol ---------------------------------------------------------

  /** std::string::find from a position on; the length of the string stands for npos. */
  function FindFrom(s: string, c: char, start: nat): (n: nat)
    requires start <= |s|
    ensures start <= n <= |s|
  {
    start + Find(s[start..], c)
  }

  /** protocol::split: strtok_r until it has no more items. */
  method SplitItems(s: string, delim: char) returns (items: seq<string>)
    ensures items == Split(s, delim)
  {
    items := [];
    var rest := CString(s);
    while rest != ""
      invariant items + Tokens(rest, delim) == Split(s, delim)
      decreases |rest|
    {
      if rest[0] == delim {
        rest := rest[1..];
      } else {
        var n := Find(rest, delim);
        assert items + ([rest[..n]] + Tokens(rest[n..], delim)) == items + [rest[..n]] + Tokens(rest[n..], delim);
        items := items + [rest[..n]];
        rest := rest[n..];
      }
    }
  }

  // ----- encode --------------------------------------------------------------------------

  lemma {:induction false} JoinAppend(items: seq<string>, item: string, delim: char)
    ensures Join(items + [item], delim) == if items == [] then item else Join(items, delim) + [delim] + item
  {
    if |items| == 0 {
      assert items + [item] == [item];
    } else if |items| == 1 {
      assert (items + [item])[1..] == [item];
    } else {
      assert (items + [item])[1..] == items[1..] + [item];
      JoinAppend(items[1..], item, delim);
      var tail := Join(items[1..], delim);
      Associate(items[0] + [delim], tail, [delim]);
      Associate(items[0] + [delim], tail + [delim], item);
    }
  }

  lemma {:induction false} PairTextsAppend(query: seq<KeyValue>, p: KeyValue)
    ensures PairTexts(query + [p]) == PairTexts(query) + [PairText(p)]
  {
    if query == [] {
      assert query + [p] == [p];
    } else {
      assert (query + [p])[1..] == query[1..] + [p];
      PairTextsAppend(query[1..], p);
    }
  }

  /** The query as far as URL::encode has written it. */
  ghost function QuerySoFar(query: seq<KeyValue>): string {
    if query == [] then "" else "?" + Join(PairTexts(query), '&')
  }

  lemma ShownAppend(query: seq<KeyValue>, p: KeyValue)
    ensures QuerySoFar(query + [p]) == QuerySoFar(query) + (if query == [] then "?" else "&") + PairText(p)
  {
    PairTextsAppend(query, p);
    JoinAppend(PairTexts(query), PairText(p), '&');
    if query != [] {
      Associate("?", Join(PairTexts(query), '&'), "&");
      Associate("?", Join(PairTexts(query), '&') + "&", PairText(p));
    }
  }

  /** The part of URL::encode that writes the query. */
  method EncodeQuery(query: seq<KeyValue>) returns (text: string)
    ensures text == if query == [] then "" else "?" + Join(PairTexts(query), '&')
  {
    text := "";
    var isFirst := true;
    for i := 0 to |query|
      invariant isFirst <==> i == 0
      invariant text == QuerySoFar(query[..i])
    {
      ShownAppend(query[..i], query[i]);
      assert query[..i + 1] == query[..i] + [query[i]];
      if isFirst {
        text := text + "?";
        isFirst := false;
      } else {
        text := text + "&";
      }
      text := text + PairText(query[i]);
    }
    assert query[..|query|] == query;
  }

  /** User and password, with a flag that remembers whether an '@' is due. */
  method EncodeUserInformation(components: Components) returns (text: string)
    ensures text == UserText(UrlOf(components, []))
  {
    text := "";
    var hasUserInformation := false;
    if User in components { text := text + components[User]; hasUserInformation := true; }
    if Password in components { text := text + (":" + components[Password]); hasUserInformation := true; }
    if hasUserInformation { text := text + "@"; }
  }

  method EncodeEndPoint(components: Components) returns (text: string)
    ensures text == EndPoint(UrlOf(components, []))
  {
    text := if Host in components then components[Host] else "";
    if Port in components { text := text + (":" + components[Port]); }
  }

  /** URL::encode: the components in order. */
  method EncodeUrl(components: Components, query: seq<KeyValue>) returns (text: string)
    ensures text == Encode(UrlOf(components, query))
  {
    text := if Scheme in components then components[Scheme] + "://" else "";
    var user := EncodeUserInformation(components);
    var end := EncodeEndPoint(components);
    text := text + (user + end) + (if Path in components then components[Path] else "");
    var pairs := EncodeQuery(query);
    text := text + (pairs + if Fragment in components then components[Fragment] else "");
  }

  // ----- the parser ----------------------------------------------------------------------

  function Located(u: Url, authority: AuthorityParts): Url {
    u.(user := authority.user, password := authority.password, host := Some(authority.at.host), port := authority.at.port)
  }

  class Parser {
    const url: string
    var components: Components
    var keyValues: seq<KeyValue>

    constructor (url: string)
      ensures this.url == url && components == map[] && keyValues == [] && View() == NOTHING
    {
      this.url := url;
      components := map[];
      keyValues := [];
    }

    ghost function View(): Url
      reads this
    {
      UrlOf(components, keyValues)
    }

    /** Tries the delimiters of the list one after the other, until one occurs. */
    static method ExtractTokenAt(s: string, initpos: nat, delims: string) returns (text: string, end: nat)
      requires initpos <= |s| && delims != ""
      ensures initpos <= end <= |s|
      ensures Token(text, s[end..]) == ExtractToken(s[initpos..], delims)
    {
      var i := 0;
      end := FindFrom(s, delims[0], initpos);
      while end == |s| && i + 1 < |delims|
        invariant i < |delims| && end == FindFrom(s, delims[i], initpos)
        invariant ExtractToken(s[initpos..], delims) == ExtractToken(s[initpos..], delims[i..])
      {
        i := i + 1;
        end := FindFrom(s, delims[i], initpos);
      }
      text := s[initpos..end];
      DropDrop(s, initpos, end - initpos);
    }

    method AddMandatory(name: ComponentName, value: string) returns (ok: bool)
      modifies this`components
      ensures ok <==> value != ""
      ensures components == if ok then old(components)[name := value] else old(components)
    {
      ok := value != "";
      if ok { components := components[name := value]; }
    }

    method AddOptional(name: ComponentName, value: string)
      modifies this`components
      ensures components == if value != "" then old(components)[name := value] else old(components)
    {
      if value != "" { components := components[name := value]; }
    }

    /** Host and port of an end point. */
    method AddEndPoint(text: string) returns (ok: bool)
      requires Host !in components && Port !in components
      modifies this`components
      ensures ok <==> ReadEndPoint(text).Ok?
      ensures ok <==> Separate(text, ':').0 != "" && forall i :: 0 <= i < |Separate(text, ':').1| ==>
                                                       '0' <= Separate(text, ':').1[i] <= '9'
      ensures ok ==> View() == old(View()).(host := Some(ReadEndPoint(text).value.host), port := ReadEndPoint(text).value.port)
    {
      var parts := Separate(text, ':');
      ok := AddMandatory(Host, parts.0);
      if ok {
        ok := parts.1 == "" || IsNumeric(parts.1);
        if ok { AddOptional(Port, parts.1); }
      }
    }

    method AddUserInformation(text: string)
      requires User !in components && Password !in components
      modifies this`components
      ensures View() == old(View()).(user := Optional(Separate(text, ':').0), password := Optional(Separate(text, ':').1))
    {
      var parts := Separate(text, ':');
      AddOptional(User, parts.0);
      AddOptional(Password, parts.1);
    }

    /** The components of the token that holds the authority. */
    method AddAuthority(text: string, start: nat) returns (ok: bool)
      requires components.Keys <= {Scheme}
      modifies this`components
      ensures ok <==> ReadAuthority(text, start).Ok?
      ensures ok ==> View() == Located(old(View()), ReadAuthority(text, start).value)
    {
      if HasUserInformation(text, start) {
        var parts := Separate(text, '@');
        AddUserInformation(parts.0);
        assert Component(components, Host) == None && Component(components, Port) == None;
        ok := AddEndPoint(parts.1);
      } else {
        assert Component(components, User) == None && Component(components, Password) == None;
        ok := AddEndPoint(text);
      }
    }

    /** URLParser::readAuthority: the position after the authority, or no position after an
        exception. */
    method ReadAuthorityFrom(withoutScheme: string) returns (end: Option<nat>)
      requires components.Keys <= {Scheme}
      modifies this`components
      ensures
        var start := AuthorityStart(withoutScheme);
        var token := ExtractToken(withoutScheme[start..], "/?#");
        var authority := ReadAuthority(token.text, start);
        if authority.Err? then end.None?
        else
          && end.Some? && end.value <= |withoutScheme| && withoutScheme[end.value..] == token.rest
          && View() == Located(old(View()), authority.value)
    {
      var start := AuthorityStart(withoutScheme);
      var text, position := ExtractTokenAt(withoutScheme, start, "/?#");
      var ok := AddAuthority(text, start);
      end := if ok then Some(position) else None;
    }

    /** URLParser::readPath. */
    method ReadPathFrom(s: string, start: nat) returns (end: nat)
      requires start <= |s| && Path !in components
      modifies this`components
      ensures end <= |s| && s[end..] == ReadPath(s[start..]).rest
      ensures View() == old(View()).(path := Optional(ReadPath(s[start..]).text))
    {
      if start == |s| { return start; }
      var text;
      text, end := ExtractTokenAt(s, start, "?#");
      AddOptional(Path, text);
    }

    /** The loop of URLParser::readQuery: an empty key is an exception. */
    method AddPairs(pairs: seq<string>) returns (ok: bool)
      requires keyValues == []
      modifies this`keyValues
      ensures ok <==> ReadPairs(pairs).Ok?
      ensures ok ==> keyValues == ReadPairs(pairs).value
    {
      var i := 0;
      assert pairs[0..] == pairs;
      assert ReadPairs(pairs).Ok? ==> keyValues + ReadPairs(pairs).value == ReadPairs(pairs).value;
      while i < |pairs|
        invariant i <= |pairs|
        invariant ReadPairs(pairs) == if ReadPairs(pairs[i..]).Err? then Err else Ok(keyValues + ReadPairs(pairs[i..]).value)
      {
        var keyValue := Separate(pairs[i], '=');
        if keyValue.0 == "" { return false; }
        PairsUnfold(pairs, i, keyValues);
        keyValues := keyValues + [KeyValue(keyValue.0, keyValue.1)];
        i := i + 1;
      }
      return true;
    }

    /** URLParser::readQuery. */
    method ReadQueryFrom(s: string, start: nat) returns (end: Option<nat>)
      requires start <= |s| && keyValues == []
      modifies this`keyValues
      ensures
        var query := ReadQuery(s[start..]);
        if query.Err? then end.None?
        else end.Some? && end.value <= |s| && s[end.value..] == query.value.rest
             && View() == old(View()).(query := query.value.query)
    {
      if start == |s| || s[start] != '?' { return Some(start); }
      DropDrop(s, start, 1);
      var text, position := ExtractTokenAt(s, start + 1, "#");
      var pairs := SplitItems(text, '&');
      var ok := AddPairs(pairs);
      end := if ok then Some(position) else None;
    }

    /** URLParser::readFragment. */
    method ReadFragmentFrom(s: string, start: nat)
      requires start <= |s| && Fragment !in components
      modifies this`components
      ensures View() == old(View()).(fragment := Optional(s[start..]))
    {
      if start == |s| { return; }
      AddOptional(Fragment, s[start..]);
    }

    /** Path, query and fragment, as both branches of URLParser::build read them. */
    method ReadRestFrom(s: string, start: nat) returns (ok: bool)
      requires start <= |s| && Path !in components && Fragment !in components && keyValues == []
      modifies this
      ensures ok <==> ReadRest(s[start..], old(View())).Ok?
      ensures ok ==> View() == ReadRest(s[start..], old(View())).value
    {
      var endPath := ReadPathFrom(s, start);
      assert Component(components, Fragment) == None;
      var endQuery := ReadQueryFrom(s, endPath);
      ok := endQuery.Some?;
      if ok { ReadFragmentFrom(s, endQuery.value); }
    }

    /** URLParser::build, on a parser that has not been used. */
    method Build() returns (result: Result<Url>)
      requires components == map[] && keyValues == []
      modifies this
      ensures result == Parse(url)
    {
      var ok;
      if url != "" && url[0] == '/' {
        ok := ReadRestFrom(url, 0);
        assert url[0..] == url;
      } else {
        var parts := Separate(url, ':');
        ok := AddMandatory(Scheme, parts.0);
        if ok {
          ghost var before := View();
          var end := ReadAuthorityFrom(parts.1);
          ok := end.Some?;
          if ok {
            assert Component(components, Path) == None && Component(components, Fragment) == None;
            ok := ReadRestFrom(parts.1, end.value);
          }
        }
      }
      result := if ok then Ok(UrlOf(components, keyValues)) else Err;
    }
  }

  lemma PairsUnfold(pairs: seq<string>, i: nat, done: seq<KeyValue>)
    requires i < |pairs| && Separate(pairs[i], '=').0 != ""
    ensures var keyValue := Separate(pairs[i], '=');
            var before, after := ReadPairs(pairs[i..]), ReadPairs(pairs[i + 1..]);
            if after.Err? then before.Err?
            else before.Ok? && done + before.value == done + [KeyValue(keyValue.0, keyValue.1)] + after.value
  {
    assert pairs[i..][1..] == pairs[i + 1..] && pairs[i..][0] == pairs[i];
  }
}
