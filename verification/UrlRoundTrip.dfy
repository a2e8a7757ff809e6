/** Parsing the text of a URL gives the URL back, exactly when three quirks of the parser are
    out of the way. */
module UrlRoundTrip {
  import opened Options
  import opened Text
  import opened Url

  ghost predicate Free(s: string, chars: string) {
    forall i :: 0 <= i < |chars| ==> Lacks(s, chars[i])
  }

  /** Keys are not empty; neither keys nor values hold the delimiters of a query. */
  ghost predicate RegularPair(p: KeyValue) {
    && p.key != "" && Lacks(p.key, '&') && Lacks(p.key, '=') && Lacks(p.key, '#') && Lacks(p.key, NUL)
    && Lacks(p.value, '&') && Lacks(p.value, '#') && Lacks(p.value, NUL)
  }

  /** Path, query and fragment as section 3 of RFC 3986 delimits them. */
  ghost predicate RegularTail(u: Url) {
    && (u.path.Some? ==> u.path.value != "" && u.path.value[0] == '/' && Lacks(u.path.value, '?') && Lacks(u.path.value, '#'))
    && (u.fragment.Some? ==> u.fragment.value != "" && u.fragment.value[0] == '#')
    && (forall i :: 0 <= i < |u.query| ==> RegularPair(u.query[i]))
  }

  /** Scheme and authority as section 3 of RFC 3986 delimits them. */
  ghost predicate RegularAuthority(u: Url) {
    && u.scheme.Some? && u.scheme.value != "" && Lacks(u.scheme.value, ':') && u.scheme.value[0] != '/'
    && u.host.Some? && u.host.value != "" && Free(u.host.value, ":/?#@")
    && (u.user.Some? ==> u.user.value != "" && Free(u.user.value, ":/?#@"))
    && (u.password.Some? ==> u.password.value != "" && Free(u.password.value, "/?#@"))
    && (u.port.Some? ==> IsNumeric(u.port.value))
  }

  // ----- cutting tokens ------------------------------------------------------------------

  /** The token ends where the rest begins, if the rest begins with a delimiter and no delimiter
      that comes earlier in the list occurs in it. */
  lemma {:induction false} CutAt(text: string, rest: string, delims: string, k: nat)
    requires Free(text, delims)
    requires rest != "" ==> k < |delims| && rest[0] == delims[k] && forall j :: 0 <= j < k ==> Lacks(rest, delims[j])
    ensures ExtractToken(text + rest, delims) == Token(text, rest)
    decreases delims
  {
    if delims == "" {
      assert text + rest == text;
    } else {
      assert Lacks(text, delims[0]);
      if rest != "" && k == 0 {
        FindAfter(text, delims[0], rest);
      } else {
        assert rest != "" ==> Lacks(rest, delims[0]);
        assert Lacks(text + rest, delims[0]);
        forall j | 0 <= j < |delims[1..]| ensures Lacks(text, delims[1..][j]) { assert Lacks(text, delims[j + 1]); }
        CutAt(text, rest, delims[1..], if k > 0 then k - 1 else 0);
      }
    }
  }

  /** A delimiter at the head of the list that occurs later in the rest drags the token along. */
  lemma CutLater(text: string, rest: string, delims: string) returns (n: nat)
    requires delims != "" && Lacks(text, delims[0]) && !Lacks(rest, delims[0])
    ensures n < |rest| && rest[n] == delims[0] && Lacks(rest[..n], delims[0])
    ensures ExtractToken(text + rest, delims) == Token(text + rest[..n], rest[n..])
  {
    n := Find(rest, delims[0]);
    assert text + rest == (text + rest[..n]) + rest[n..];
    FindAfter(text + rest[..n], delims[0], rest[n..]);
  }

  // ----- the query -----------------------------------------------------------------------

  lemma PairRoundTrip(p: KeyValue)
    requires RegularPair(p)
    ensures Separate(PairText(p), '=') == (p.key, p.value)
    ensures PairText(p) != "" && Lacks(PairText(p), '&') && Lacks(PairText(p), '#') && Lacks(PairText(p), NUL)
  {
    if p.value != "" {
      assert PairText(p) == p.key + ['='] + p.value;
      SeparateAt(p.key, '=', p.value);
    } else {
      assert PairText(p) == p.key;
    }
  }

  lemma ReadPairsCons(p: KeyValue, texts: seq<string>, query: seq<KeyValue>)
    requires RegularPair(p) && ReadPairs(texts) == Ok(query)
    ensures ReadPairs([PairText(p)] + texts) == Ok([p] + query)
  {
    PairRoundTrip(p);
    assert ([PairText(p)] + texts)[1..] == texts;
  }

  lemma {:induction false} PairsRoundTrip(query: seq<KeyValue>)
    requires forall i :: 0 <= i < |query| ==> RegularPair(query[i])
    ensures ReadPairs(PairTexts(query)) == Ok(query)
  {
    if query != [] {
      PairsRoundTrip(query[1..]);
      ReadPairsCons(query[0], PairTexts(query[1..]), query[1..]);
      assert [query[0]] + query[1..] == query;
    }
  }

  lemma {:induction false} JoinLacks(items: seq<string>, delim: char, c: char)
    requires c != delim && forall i :: 0 <= i < |items| ==> Lacks(items[i], c)
    ensures Lacks(Join(items, delim), c)
  {
    if |items| > 1 { JoinLacks(items[1..], delim, c); }
  }

  /** The text between '?' and '#' gives the pairs back. */
  lemma QueryRoundTrip(query: seq<KeyValue>)
    requires forall i :: 0 <= i < |query| ==> RegularPair(query[i])
    ensures ReadPairs(Split(Join(PairTexts(query), '&'), '&')) == Ok(query)
    ensures Lacks(Join(PairTexts(query), '&'), '#')
  {
    var items := PairTexts(query);
    forall i | 0 <= i < |items| ensures items[i] != "" && Lacks(items[i], '&') && Lacks(items[i], NUL) && Lacks(items[i], '#') {
      PairRoundTrip(query[i]);
    }
    SplitOfJoin(items, '&');
    PairsRoundTrip(query);
    JoinLacks(items, '&', '#');
  }

  // ----- path, query and fragment --------------------------------------------------------

  lemma OptionalOfShown(o: Option<string>)
    requires o.Some? ==> o.value != ""
    ensures Optional(Shown(o)) == o
  {
  }

  lemma PathIsCut(path: string, rest: string)
    requires Lacks(path, '?') && Lacks(path, '#')
    requires rest != "" ==> rest[0] == '?' || (rest[0] == '#' && Lacks(rest, '?'))
    ensures ReadPath(path + rest) == Token(path, rest)
  {
    if path + rest == "" {
      assert path == "" && rest == "";
    } else {
      CutAt(path, rest, "?#", if rest != "" && rest[0] == '?' then 0 else 1);
    }
  }

  lemma QueryIsCut(text: string, query: seq<KeyValue>, fragment: string)
    requires Lacks(text, '#') && ReadPairs(Split(text, '&')) == Ok(query)
    requires fragment != "" ==> fragment[0] == '#'
    ensures ReadQuery("?" + (text + fragment)) == Ok(QueryParts(query, fragment))
  {
    DropPrefix("?", text + fragment);
    CutAt(text, fragment, "#", 0);
  }

  lemma TailIsCut(u: Url)
    requires RegularTail(u)
    ensures ReadQuery(Tail(u)) == Ok(QueryParts(u.query, Shown(u.fragment)))
  {
    var fragment := Shown(u.fragment);
    if u.query == [] {
      assert Tail(u) == fragment;
    } else {
      var text := Join(PairTexts(u.query), '&');
      QueryRoundTrip(u.query);
      Associate("?", text, fragment);
      QueryIsCut(text, u.query, fragment);
    }
  }

  /** What follows the authority is read back, unless a fragment without a query holds a '?'. */
  lemma RestRoundTrip(u: Url, base: Url)
    requires RegularTail(u)
    ensures ReadRest(Shown(u.path) + Tail(u), base) == Ok(base.(path := u.path, query := u.query, fragment := u.fragment))
            <==> (u.query == [] ==> Lacks(Shown(u.fragment), '?'))
  {
    if u.query == [] && !Lacks(Shown(u.fragment), '?') {
      PathSwallows(u);
    } else {
      RestIsRead(u, base);
    }
  }

  lemma PathSwallows(u: Url)
    requires RegularTail(u) && u.query == [] && !Lacks(Shown(u.fragment), '?')
    ensures Optional(ReadPath(Shown(u.path) + Tail(u)).text) != u.path
  {
    assert Tail(u) == Shown(u.fragment);
    var n := CutLater(Shown(u.path), Tail(u), "?#");
    assert n > 0;
    assert |ReadPath(Shown(u.path) + Tail(u)).text| > |Shown(u.path)|;
  }

  lemma RestIsRead(u: Url, base: Url)
    requires RegularTail(u) && (u.query == [] ==> Lacks(Shown(u.fragment), '?'))
    ensures ReadRest(Shown(u.path) + Tail(u), base) ==
            Ok(base.(path := u.path, query := u.query, fragment := u.fragment))
  {
    assert Tail(u) != "" ==> Tail(u)[0] == '?' || (Tail(u)[0] == '#' && Lacks(Tail(u), '?')) by {
      if u.query == [] { assert Tail(u) == Shown(u.fragment); }
    }
    PathIsCut(Shown(u.path), Tail(u));
    TailIsCut(u);
    OptionalOfShown(u.path);
    OptionalOfShown(u.fragment);
  }

  // ----- the authority -------------------------------------------------------------------

  lemma EndPointRoundTrip(u: Url)
    requires RegularAuthority(u)
    ensures ReadEndPoint(EndPoint(u)) == Ok(EndPointParts(u.host.value, u.port))
  {
    var host := u.host.value;
    assert ":/?#@"[0] == ':';
    assert Lacks(host, ':');
    if u.port.Some? {
      assert EndPoint(u) == host + [':'] + u.port.value;
      SeparateAt(host, ':', u.port.value);
    } else {
      assert EndPoint(u) == host;
    }
  }

  /** Text glued to the end point never reads as the end point: the host grows, or the port is
      no longer a number. */
  lemma ExtendedEndPoint(u: Url, x: string)
    requires RegularAuthority(u) && x != "" && (x[0] == '?' || x[0] == '#')
    ensures ReadEndPoint(EndPoint(u) + x) != Ok(EndPointParts(u.host.value, u.port))
  {
    var host := u.host.value;
    assert ":/?#@"[0] == ':';
    assert Lacks(host, ':');
    if u.port.Some? {
      var port := u.port.value + x;
      assert EndPoint(u) + x == host + [':'] + port;
      SeparateAt(host, ':', port);
      assert port[|u.port.value|] == x[0] && !IsDigit(x[0]);
    } else {
      var s := host + x;
      assert EndPoint(u) + x == s;
      assert Find(s, ':') > |host|;
      assert |Separate(s, ':').0| > |host|;
    }
  }

  lemma AuthorityLacks(u: Url, c: char)
    requires RegularAuthority(u) && (c == '/' || c == '?' || c == '#')
    ensures Lacks(Authority(u), c)
    ensures Lacks(EndPoint(u), '@') && Lacks(UserInformation(u), '@')
  {
    assert forall i :: 0 <= i < 5 ==> Lacks(u.host.value, ":/?#@"[i]);
    assert u.user.Some? ==> forall i :: 0 <= i < 5 ==> Lacks(u.user.value, ":/?#@"[i]);
    assert u.password.Some? ==> forall i :: 0 <= i < 4 ==> Lacks(u.password.value, "/?#@"[i]);
    assert ":/?#@"[1] == '/' && ":/?#@"[2] == '?' && ":/?#@"[3] == '#' && ":/?#@"[4] == '@';
    assert "/?#@"[0] == '/' && "/?#@"[1] == '?' && "/?#@"[2] == '#' && "/?#@"[3] == '@';
    if u.port.Some? {
      forall i | 0 <= i < |u.port.value| ensures u.port.value[i] != c && u.port.value[i] != '@' {
        assert IsDigit(u.port.value[i]);
      }
    }
    EndPointLacks(u, c);
    EndPointLacks(u, '@');
    UserInformationLacks(u, c);
    UserInformationLacks(u, '@');
  }

  lemma EndPointLacks(u: Url, c: char)
    requires u.host.Some? && Lacks(u.host.value, c) && c != ':' && (u.port.Some? ==> Lacks(u.port.value, c))
    ensures Lacks(EndPoint(u), c)
  {
  }

  lemma UserInformationLacks(u: Url, c: char)
    requires c != ':' && (u.user.Some? ==> Lacks(u.user.value, c)) && (u.password.Some? ==> Lacks(u.password.value, c))
    ensures Lacks(UserInformation(u), c) && (c != '@' ==> Lacks(UserText(u), c))
  {
  }

  function PartsOf(u: Url): AuthorityParts
    requires u.host.Some?
  {
    AuthorityParts(u.user, u.password, EndPointParts(u.host.value, u.port))
  }

  /** User and password are told apart by the first ':'. */
  lemma UserInformationRoundTrip(u: Url)
    requires RegularAuthority(u)
    ensures var r := Separate(UserInformation(u), ':'); Optional(r.0) == u.user && Optional(r.1) == u.password
  {
    var user, text := Shown(u.user), UserInformation(u);
    assert ":/?#@"[0] == ':';
    assert Lacks(user, ':');
    if u.password.Some? {
      assert text == user + [':'] + u.password.value;
      SeparateAt(user, ':', u.password.value);
    } else {
      assert text == user;
    }
  }

  /** The '@' is looked for from the third character of the token on. */
  lemma AtSignIsSeen(information: string, endPoint: string)
    requires Lacks(endPoint, '@') && Lacks(information, '@')
    ensures HasUserInformation(information + ['@'] + endPoint, 2) <==> |information| >= 2
    ensures Separate(information + ['@'] + endPoint, '@') == (information, endPoint)
  {
    var token := information + ['@'] + endPoint;
    SeparateAt(information, '@', endPoint);
    if |information| >= 2 {
      assert token[2..][|information| - 2] == '@';
    } else if |token| >= 2 {
      assert forall i :: 0 <= i < |token[2..]| ==> token[2..][i] == endPoint[i + 1 - |information|];
    }
  }

  lemma WithoutUserInformation(u: Url)
    requires RegularAuthority(u) && UserText(u) == ""
    ensures ReadAuthority(Authority(u), 2) == Ok(PartsOf(u))
  {
    AuthorityLacks(u, '/');
    EndPointRoundTrip(u);
    assert Authority(u) == EndPoint(u);
  }

  lemma SplitAtSign(u: Url)
    requires RegularAuthority(u) && UserText(u) != ""
    ensures HasUserInformation(Authority(u), 2) <==> |UserInformation(u)| >= 2
    ensures Separate(Authority(u), '@') == (UserInformation(u), EndPoint(u))
  {
    AuthorityLacks(u, '/');
    AtSignIsSeen(UserInformation(u), EndPoint(u));
  }

  lemma ReadWithUserInformation(u: Url, token: string)
    requires RegularAuthority(u) && HasUserInformation(token, 2)
    requires Separate(token, '@') == (UserInformation(u), EndPoint(u))
    ensures ReadAuthority(token, 2) == Ok(PartsOf(u))
  {
    EndPointRoundTrip(u);
    UserInformationRoundTrip(u);
  }

  lemma MissedUserInformation(u: Url, token: string)
    requires RegularAuthority(u) && UserText(u) != "" && !HasUserInformation(token, 2)
    ensures ReadAuthority(token, 2) != Ok(PartsOf(u))
  {
  }

  /** The authority is read back, unless the user information is a single character. */
  lemma AuthorityRoundTrip(u: Url)
    requires RegularAuthority(u)
    ensures ReadAuthority(Authority(u), 2) == Ok(PartsOf(u)) <==> (UserText(u) != "" ==> |UserInformation(u)| >= 2)
  {
    if UserText(u) == "" {
      WithoutUserInformation(u);
    } else {
      SplitAtSign(u);
      if |UserInformation(u)| >= 2 { ReadWithUserInformation(u, Authority(u)); } else { MissedUserInformation(u, Authority(u)); }
    }
  }

  /** An '@' past the end point makes the host a user. */
  lemma StrangerBeforeAt(u: Url, x: string)
    requires RegularAuthority(u) && Lacks(EndPoint(u), '@') && !Lacks(EndPoint(u) + x, '@')
    ensures Optional(Separate(Separate(EndPoint(u) + x, '@').0, ':').0).Some?
  {
    var s := EndPoint(u) + x;
    var parts := Separate(s, '@');
    assert ":/?#@"[0] == ':';
    assert Lacks(u.host.value, ':');
    assert s[0] == u.host.value[0] && EndPoint(u)[0] == s[0];
    assert parts.0[0] == s[0];
  }

  lemma OverrunWithoutUser(u: Url, x: string)
    requires RegularAuthority(u) && UserText(u) == "" && x != "" && (x[0] == '?' || x[0] == '#')
    ensures ReadAuthority(Authority(u) + x, 2) != Ok(PartsOf(u))
  {
    AuthorityLacks(u, '/');
    ExtendedEndPoint(u, x);
    assert Authority(u) + x == EndPoint(u) + x;
    if HasUserInformation(EndPoint(u) + x, 2) { StrangerBeforeAt(u, x); }
  }

  lemma OverrunText(u: Url, x: string)
    requires UserText(u) != ""
    ensures Authority(u) + x == UserInformation(u) + ['@'] + (EndPoint(u) + x)
  {
    Associate(UserInformation(u), "@", EndPoint(u));
    Associate(UserInformation(u) + "@", EndPoint(u), x);
  }

  lemma WrongEndPoint(u: Url, token: string)
    requires RegularAuthority(u) && HasUserInformation(token, 2)
    requires ReadEndPoint(Separate(token, '@').1) != Ok(EndPointParts(u.host.value, u.port))
    ensures ReadAuthority(token, 2) != Ok(PartsOf(u))
  {
  }

  lemma OverrunWithUser(u: Url, x: string)
    requires RegularAuthority(u) && UserText(u) != "" && x != "" && (x[0] == '?' || x[0] == '#')
    ensures ReadAuthority(Authority(u) + x, 2) != Ok(PartsOf(u))
  {
    var token := Authority(u) + x;
    if HasUserInformation(token, 2) {
      AuthorityLacks(u, '/');
      OverrunText(u, x);
      SeparateAt(UserInformation(u), '@', EndPoint(u) + x);
      ExtendedEndPoint(u, x);
      WrongEndPoint(u, token);
    } else {
      MissedUserInformation(u, token);
    }
  }

  /** A token that runs past the authority never reads as this authority. */
  lemma OverrunIsNoticed(u: Url, x: string)
    requires RegularAuthority(u) && x != "" && (x[0] == '?' || x[0] == '#')
    ensures ReadAuthority(Authority(u) + x, 2) != Ok(PartsOf(u))
  {
    if UserText(u) == "" { OverrunWithoutUser(u, x); } else { OverrunWithUser(u, x); }
  }

  // ----- the whole URL -------------------------------------------------------------------

  /** Where the token for the authority ends. */
  ghost predicate AuthorityEndsInTime(u: Url) {
    u.path.Some? || (Lacks(Tail(u), '/') && (u.query == [] ==> Lacks(Shown(u.fragment), '?')))
  }

  lemma AuthorityIsCut(u: Url)
    requires RegularAuthority(u) && RegularTail(u) && AuthorityEndsInTime(u)
    ensures ExtractToken(Authority(u) + (Shown(u.path) + Tail(u)), "/?#") == Token(Authority(u), Shown(u.path) + Tail(u))
  {
    AuthorityLacks(u, '/');
    AuthorityLacks(u, '?');
    AuthorityLacks(u, '#');
    var rest := Shown(u.path) + Tail(u);
    if u.path.None? {
      assert rest == Tail(u);
      if u.query == [] { assert Tail(u) == Shown(u.fragment); }
    }
    CutAt(Authority(u), rest, "/?#", if u.path.Some? then 0 else if u.query != [] then 1 else 2);
  }

  lemma AuthorityIsOverrun(u: Url) returns (x: string)
    requires RegularAuthority(u) && RegularTail(u) && !AuthorityEndsInTime(u)
    ensures x != "" && (x[0] == '?' || x[0] == '#')
    ensures ExtractToken(Authority(u) + (Shown(u.path) + Tail(u)), "/?#").text == Authority(u) + x
  {
    AuthorityLacks(u, '/');
    AuthorityLacks(u, '?');
    var text, rest := Authority(u), Shown(u.path) + Tail(u);
    assert rest == Tail(u);
    if u.query == [] { assert rest == Shown(u.fragment); }
    assert rest[0] == '?' || rest[0] == '#';
    if !Lacks(rest, '/') {
      var n := CutLater(text, rest, "/?#");
      x := rest[..n];
      assert n > 0;
    } else {
      assert Lacks(text + rest, '/');
      assert ExtractToken(text + rest, "/?#") == ExtractToken(text + rest, "?#") by { assert "/?#"[1..] == "?#"; }
      var n := CutLater(text, rest, "?#");
      x := rest[..n];
      assert n > 0;
    }
  }

  lemma TextAfterScheme(u: Url)
    requires RegularAuthority(u)
    ensures Parse(Encode(u)) == ParseWithoutScheme("//" + (Authority(u) + (Shown(u.path) + Tail(u))), u.scheme.value)
  {
    var scheme, path := u.scheme.value, Shown(u.path);
    var rest := Authority(u) + (path + Tail(u));
    assert Encode(u) == scheme + [':'] + ("//" + rest) by {
      assert scheme + "://" == scheme + [':'] + "//";
      Associate(scheme + "://", Authority(u), path);
      Associate(scheme + "://", Authority(u) + path, Tail(u));
      Associate(Authority(u), path, Tail(u));
      Associate(scheme + [':'], "//", rest);
    }
    SeparateAt(scheme, ':', "//" + rest);
    assert (scheme + [':'] + ("//" + rest))[0] == scheme[0];
  }

  lemma AfterSlashes(rest: string, scheme: string)
    ensures ParseWithoutScheme("//" + rest, scheme) ==
            var token := ExtractToken(rest, "/?#");
            var authority := ReadAuthority(token.text, 2);
            if authority.Err? then Err else ReadRest(token.rest, WithAuthority(scheme, authority.value))
  {
    DropPrefix("//", rest);
    assert ("//" + rest)[0] == '/' && ("//" + rest)[1] == '/';
  }

  /** What is read after the authority leaves the authority alone. */
  lemma RestKeepsAuthority(s: string, base: Url)
    ensures var r := ReadRest(s, base);
            r.Ok? ==> r.value == base.(path := r.value.path, query := r.value.query, fragment := r.value.fragment)
  {
  }

  /** The three quirks: a user information of one character is not looked at, a '/' in the query
      or fragment of a URL without a path ends the authority, and a '?' in the fragment of a URL
      without a query starts one. */
  ghost predicate Unambiguous(u: Url) {
    && (UserText(u) != "" ==> |UserInformation(u)| >= 2)
    && (u.path.None? ==> Lacks(Tail(u), '/'))
    && (u.query == [] ==> Lacks(Shown(u.fragment), '?'))
  }

  /** Parsing what was encoded gives the URL back, if and only if it is unambiguous. */
  lemma UrlRoundTrip(u: Url)
    requires RegularAuthority(u) && RegularTail(u)
    ensures Parse(Encode(u)) == Ok(u) <==> Unambiguous(u)
  {
    var rest, scheme := Shown(u.path) + Tail(u), u.scheme.value;
    TextAfterScheme(u);
    AfterSlashes(Authority(u) + rest, scheme);
    var token := ExtractToken(Authority(u) + rest, "/?#");
    var authority := ReadAuthority(token.text, 2);
    if authority.Ok? { RestKeepsAuthority(token.rest, WithAuthority(scheme, authority.value)); }
    if AuthorityEndsInTime(u) {
      AuthorityIsCut(u);
      AuthorityRoundTrip(u);
      RestRoundTrip(u, WithAuthority(scheme, PartsOf(u)));
    } else {
      var x := AuthorityIsOverrun(u);
      OverrunIsNoticed(u, x);
    }
  }

  lemma PathIsParsed(path: string, tail: string)
    requires path != "" && path[0] == '/'
    ensures Parse(path + tail) == ReadRest(path + tail, NOTHING)
  {
    assert (path + tail)[0] == '/';
  }

  lemma OriginText(u: Url)
    requires u == NOTHING.(path := u.path, query := u.query, fragment := u.fragment)
    ensures Encode(u) == Shown(u.path) + Tail(u)
  {
    assert SchemeText(u) == "" && UserText(u) == "" && EndPoint(u) == "";
    assert "" + "" + Shown(u.path) == Shown(u.path);
  }

  /** A URL of only path, query and fragment needs to start with its path. */
  lemma OriginFormRoundTrip(u: Url)
    requires RegularTail(u) && u.path.Some?
    requires u == NOTHING.(path := u.path, query := u.query, fragment := u.fragment)
    ensures Parse(Encode(u)) == Ok(u) <==> (u.query == [] ==> Lacks(Shown(u.fragment), '?'))
  {
    OriginText(u);
    PathIsParsed(u.path.value, Tail(u));
    RestRoundTrip(u, NOTHING);
  }

  // ----- the quirks, one by one ----------------------------------------------------------

  lemma HttpOnHost(u: Url)
    requires u.scheme == Some("http") && u.host == Some("h") && u.password.None? && u.port.None?
    requires u.user.None? || u.user == Some("a")
    ensures RegularAuthority(u)
  {
    assert forall i :: 0 <= i < 5 ==> Lacks("h", ":/?#@"[i]) && Lacks("a", ":/?#@"[i]);
  }

  lemma TextOnHost(u: Url)
    requires u.scheme == Some("http") && u.host == Some("h") && u.password.None? && u.port.None? && u.path.None? && u.query == []
    ensures Encode(u) == "http://" + (UserText(u) + "h") + Shown(u.fragment)
  {
    assert SchemeText(u) == "http://" && EndPoint(u) == "h" && Tail(u) == Shown(u.fragment);
    assert SchemeText(u) + Authority(u) + Shown(u.path) == SchemeText(u) + Authority(u);
  }

  /** http://a@h loses its user. */
  lemma OneCharacterUserIsLost()
    ensures var u := NOTHING.(scheme := Some("http"), user := Some("a"), host := Some("h"));
            Encode(u) == "http://" + "a@h" + "" && Parse(Encode(u)) != Ok(u)
  {
    var u := NOTHING.(scheme := Some("http"), user := Some("a"), host := Some("h"));
    HttpOnHost(u);
    TextOnHost(u);
    assert UserInformation(u) == "a" && UserText(u) == "a@" && UserText(u) + "h" == "a@h";
    UrlRoundTrip(u);
  }

  /** In http://h#/ the fragment ends the authority too late. */
  lemma SlashInFragmentIsTaken()
    ensures var u := NOTHING.(scheme := Some("http"), host := Some("h"), fragment := Some("#/"));
            Encode(u) == "http://" + "h" + "#/" && Parse(Encode(u)) != Ok(u)
  {
    var u := NOTHING.(scheme := Some("http"), host := Some("h"), fragment := Some("#/"));
    HttpOnHost(u);
    TextOnHost(u);
    assert UserText(u) + "h" == "h";
    UrlRoundTrip(u);
    assert Tail(u) == "#/" && Tail(u)[1] == '/';
  }

  /** In /p#? the fragment starts a query. */
  lemma QuestionInFragmentIsTaken()
    ensures var u := NOTHING.(path := Some("/p"), fragment := Some("#?"));
            Encode(u) == "/p#?" && Parse(Encode(u)) != Ok(u)
  {
    var u := NOTHING.(path := Some("/p"), fragment := Some("#?"));
    OriginFormRoundTrip(u);
    assert Shown(u.fragment)[1] == '?';
  }
}
