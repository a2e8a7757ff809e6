/** What the URL parser accepts and refuses, said by the characters of the text. */
module UrlRefusals {
  import opened Options
  import opened Text
  import opened Url
  import opened UrlRoundTrip

  ghost predicate AllDigits(s: string) {
    forall i :: 0 <= i < |s| ==> '0' <= s[i] <= '9'
  }

  // ----- what was parsed -----------------------------------------------------------------

  /** No component is there but empty, a port is a number, and no key is empty. */
  ghost predicate Proper(u: Url) {
    && (u.scheme.Some? ==> u.scheme.value != "") && (u.host.Some? ==> u.host.value != "")
    && (u.user.Some? ==> u.user.value != "") && (u.password.Some? ==> u.password.value != "")
    && (u.path.Some? ==> u.path.value != "") && (u.fragment.Some? ==> u.fragment.value != "")
    && (u.port.Some? ==> u.port.value != "" && AllDigits(u.port.value))
    && forall i :: 0 <= i < |u.query| ==> u.query[i].key != ""
  }

  lemma {:induction false} KeysAreNotEmpty(pairs: seq<string>)
    ensures ReadPairs(pairs).Ok? ==> forall i :: 0 <= i < |ReadPairs(pairs).value| ==> ReadPairs(pairs).value[i].key != ""
  {
    if pairs != [] { KeysAreNotEmpty(pairs[1..]); }
  }

  lemma RestIsProper(s: string, base: Url)
    requires Proper(base)
    ensures ReadRest(s, base).Ok? ==> Proper(ReadRest(s, base).value)
  {
    var path := ReadPath(s);
    if path.rest != "" && path.rest[0] == '?' {
      KeysAreNotEmpty(Split(ExtractToken(path.rest[1..], "#").text, '&'));
    }
  }

  lemma EndPointIsProper(text: string)
    ensures var r := ReadEndPoint(text);
            r.Ok? ==> r.value.host != "" && (r.value.port.Some? ==> r.value.port.value != "" && AllDigits(r.value.port.value))
  {
  }

  lemma AuthorityIsProper(token: string, start: nat, scheme: string)
    requires scheme != ""
    ensures var authority := ReadAuthority(token, start);
            authority.Ok? ==> Proper(WithAuthority(scheme, authority.value)) && authority.value.at.host != ""
  {
    EndPointIsProper(token);
    EndPointIsProper(Separate(token, '@').1);
  }

  /** The authority starts behind the first "//", wherever that is, or else at the beginning. */
  lemma WhereTheAuthorityStarts(s: string)
    ensures var n := AuthorityStart(s);
            && (n == 0 <==> forall i :: 0 <= i < |s| - 1 ==> !(s[i] == '/' && s[i + 1] == '/'))
            && (n > 0 ==> 2 <= n <= |s| && s[n - 2] == '/' && s[n - 1] == '/'
                          && forall i :: 0 <= i < n - 2 ==> !(s[i] == '/' && s[i + 1] == '/'))
  {
    var n := FindPair(s, '/', '/');
    if n < |s| { assert s[n] == '/' && s[n + 1] == '/'; }
  }

  /** The '@' counts only from the position on that the token has in the text. */
  lemma WhereTheAtSignCounts(token: string, start: nat)
    ensures HasUserInformation(token, start) <==> exists i :: start <= i < |token| && token[i] == '@'
  {
    if start <= |token| {
      if i :| 0 <= i < |token[start..]| && token[start..][i] == '@' { assert token[start + i] == '@'; }
      if i :| start <= i < |token| && token[i] == '@' { assert token[start..][i - start] == '@'; }
    }
  }

  /** Whatever was parsed is proper; it has a scheme and a host unless the text starts with '/', and
      then it has neither of them, and no user, password and port. */
  lemma ParsedIsProper(s: string)
    requires Parse(s).Ok?
    ensures var u := Parse(s).value;
            && Proper(u)
            && (s != "" && s[0] == '/' ==> u.scheme.None? && u.host.None? && u.port.None? && u.user.None? && u.password.None?)
            && (s == "" || s[0] != '/' ==> u.scheme.Some? && u.host.Some?)
  {
    if s != "" && s[0] == '/' {
      RestIsProper(s, NOTHING);
      RestKeepsAuthority(s, NOTHING);
    } else {
      var parts := Separate(s, ':');
      var start := AuthorityStart(parts.1);
      var token := ExtractToken(parts.1[start..], "/?#");
      var authority := ReadAuthority(token.text, start);
      AuthorityIsProper(token.text, start, parts.0);
      RestIsProper(token.rest, WithAuthority(parts.0, authority.value));
      RestKeepsAuthority(token.rest, WithAuthority(parts.0, authority.value));
    }
  }

  // ----- the port ------------------------------------------------------------------------

  ghost predicate RegularHost(host: string) {
    host != "" && Lacks(host, ':') && Lacks(host, '/') && Lacks(host, '?') && Lacks(host, '#') && Lacks(host, '@')
  }

  ghost predicate PlainPath(path: string) {
    path != "" && path[0] == '/' && Lacks(path, '?') && Lacks(path, '#')
  }

  lemma EndPointIsReadIff(host: string, port: string)
    requires host != "" && Lacks(host, ':')
    ensures ReadEndPoint(host + [':'] + port) ==
            if AllDigits(port) then Ok(EndPointParts(host, if port == "" then None else Some(port))) else Err
    ensures ReadEndPoint(host) == Ok(EndPointParts(host, None))
  {
    SeparateAt(host, ':', port);
  }

  lemma EndPointText(host: string, port: string)
    requires RegularHost(host)
    requires Lacks(port, '/') && Lacks(port, '?') && Lacks(port, '#') && Lacks(port, '@')
    ensures Free(host + [':'] + port, "/?#") && Lacks(host + [':'] + port, '@')
  {
    var text := host + [':'] + port;
    forall i | 0 <= i < |text| ensures text[i] != '/' && text[i] != '?' && text[i] != '#' && text[i] != '@' {}
  }

  lemma AuthorityOfText(text: string, path: string, scheme: string)
    requires Free(text, "/?#") && Lacks(text, '@') && PlainPath(path)
    ensures ParseWithoutScheme("//" + (text + path), scheme) ==
            if ReadEndPoint(text).Err? then Err
            else ReadRest(path, WithAuthority(scheme, AuthorityParts(None, None, ReadEndPoint(text).value)))
  {
    AfterSlashes(text + path, scheme);
    CutAt(text, path, "/?#", 0);
  }

  lemma PlainPathIsRead(path: string, base: Url)
    requires PlainPath(path)
    ensures ReadRest(path, base) == Ok(base.(path := Some(path), query := [], fragment := None))
  {
    assert path + "" == path;
    PathIsCut(path, "");
  }

  lemma SchemeIsSeparated(scheme: string, text: string)
    requires scheme != "" && Lacks(scheme, ':') && scheme[0] != '/'
    ensures Parse(scheme + [':'] + text) == ParseWithoutScheme(text, scheme)
  {
    SeparateAt(scheme, ':', text);
    assert (scheme + [':'] + text)[0] == scheme[0];
  }

  /** A URL with a port is refused exactly when the port is neither empty nor a number; otherwise its
      components are those of the text. */
  lemma PortIsRefusedIff(scheme: string, host: string, port: string, path: string)
    requires scheme != "" && Lacks(scheme, ':') && scheme[0] != '/' && RegularHost(host) && PlainPath(path)
    requires Lacks(port, '/') && Lacks(port, '?') && Lacks(port, '#') && Lacks(port, '@')
    ensures Parse(scheme + [':'] + ("//" + (host + [':'] + port + path))) ==
            if AllDigits(port)
            then Ok(Url(Some(scheme), None, None, Some(host), if port == "" then None else Some(port), Some(path), None, []))
            else Err
  {
    var text := host + [':'] + port;
    SchemeIsSeparated(scheme, "//" + (text + path));
    EndPointText(host, port);
    EndPointIsReadIff(host, port);
    AuthorityOfText(text, path, scheme);
    if AllDigits(port) {
      PlainPathIsRead(path, WithAuthority(scheme, AuthorityParts(None, None, ReadEndPoint(text).value)));
    }
  }

  /** A URL without a host is refused, and so is a text without a scheme. */
  lemma MissingPartsAreRefused(scheme: string, path: string)
    requires scheme != "" && Lacks(scheme, ':') && scheme[0] != '/' && PlainPath(path)
    ensures Parse(scheme + [':'] + ("//" + ("" + path))) == Err
    ensures Parse(":" + path) == Err && Parse("") == Err
  {
    SchemeIsSeparated(scheme, "//" + ("" + path));
    AuthorityOfText("", path, scheme);
    assert (":" + path)[0] == ':';
  }

  // ----- the query -----------------------------------------------------------------------

  lemma {:induction false} PairsAreRefusedIff(pairs: seq<string>)
    requires forall i :: 0 <= i < |pairs| ==> pairs[i] != ""
    ensures ReadPairs(pairs).Err? <==> exists i :: 0 <= i < |pairs| && pairs[i][0] == '='
  {
    if pairs != [] {
      PairsAreRefusedIff(pairs[1..]);
      FirstKeyIsEmptyIff(pairs[0]);
      if i :| 0 <= i < |pairs[1..]| && pairs[1..][i][0] == '=' { assert pairs[i + 1][0] == '='; }
      if i :| 0 <= i < |pairs| && pairs[i][0] == '=' { assert i > 0 ==> pairs[1..][i - 1][0] == '='; }
    }
  }

  lemma FirstKeyIsEmptyIff(pair: string)
    requires pair != ""
    ensures Separate(pair, '=').0 == "" <==> pair[0] == '='
  {
  }

  /** A query is refused exactly when some run between its '&'s starts with '='. */
  lemma QueryIsRefusedIff(path: string, query: string)
    requires PlainPath(path) && Lacks(query, '#')
    ensures Parse(path + ("?" + query)).Err? <==> exists i :: 0 <= i < |Split(query, '&')| && Split(query, '&')[i][0] == '='
  {
    PathIsCut(path, "?" + query);
    PathIsParsed(path, "?" + query);
    DropPrefix("?", query);
    assert query + "" == query;
    CutAt(query, "", "#", 0);
    PairsAreRefusedIff(Split(query, '&'));
  }
}
