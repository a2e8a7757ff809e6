/** A character that is not in the text of a URL is in none of its components. */
module UrlCharacters {
  import opened Options
  import opened Text
  import opened Url

  /** The characters that encode puts between components. */
  predicate IsDelimiter(c: char) {
    c == ':' || c == '/' || c == '@' || c == '?' || c == '&' || c == '='
  }

  ghost predicate Without(component: Option<string>, c: char) {
    component.Some? ==> Lacks(component.value, c)
  }

  ghost predicate PairsLack(query: seq<KeyValue>, c: char) {
    forall i :: 0 <= i < |query| ==> Lacks(query[i].key, c) && Lacks(query[i].value, c)
  }

  ghost predicate AuthorityLacks(a: AuthorityParts, c: char) {
    Without(a.user, c) && Without(a.password, c) && Lacks(a.at.host, c) && Without(a.at.port, c)
  }

  ghost predicate UrlLacks(u: Url, c: char) {
    && Without(u.scheme, c) && Without(u.user, c) && Without(u.password, c) && Without(u.host, c)
    && Without(u.port, c) && Without(u.path, c) && Without(u.fragment, c) && PairsLack(u.query, c)
  }

  // ----- cutting -------------------------------------------------------------------------

  lemma PartLacks(s: string, c: char, i: nat, j: nat)
    requires Lacks(s, c) && i <= j <= |s|
    ensures Lacks(s[i..j], c)
  {
  }

  lemma SeparatedLacks(s: string, delim: char, c: char)
    requires Lacks(s, c)
    ensures Lacks(Separate(s, delim).0, c) && Lacks(Separate(s, delim).1, c)
  {
    var n := Find(s, delim);
    PartLacks(s, c, 0, n);
    if n < |s| { PartLacks(s, c, n + 1, |s|); }
  }

  lemma {:induction false} TokenLacks(s: string, delims: string, c: char)
    requires Lacks(s, c)
    ensures Lacks(ExtractToken(s, delims).text, c) && Lacks(ExtractToken(s, delims).rest, c)
    decreases delims
  {
    if delims != "" {
      var end := Find(s, delims[0]);
      PartLacks(s, c, 0, end);
      PartLacks(s, c, end, |s|);
      if end == |s| { TokenLacks(s, delims[1..], c); }
    }
  }

  lemma {:induction false} TokensLack(s: string, delim: char, c: char)
    requires Lacks(s, c)
    ensures forall i :: 0 <= i < |Tokens(s, delim)| ==> Lacks(Tokens(s, delim)[i], c)
    decreases |s|
  {
    if s != "" {
      var n := Find(s, delim);
      PartLacks(s, c, 0, n);
      PartLacks(s, c, n, |s|);
      PartLacks(s, c, 1, |s|);
      TokensLack(if s[0] == delim then s[1..] else s[n..], delim, c);
    }
  }

  /** What split yields holds no NUL, and nothing that the text did not hold. */
  lemma SplitLacks(s: string, delim: char, c: char)
    requires Lacks(s, c) || c == NUL
    ensures forall i :: 0 <= i < |Split(s, delim)| ==> Lacks(Split(s, delim)[i], c)
  {
    TokensLack(CString(s), delim, c);
  }

  // ----- reading -------------------------------------------------------------------------

  lemma EndPointLacks(s: string, c: char)
    requires Lacks(s, c) && ReadEndPoint(s).Ok?
    ensures Lacks(ReadEndPoint(s).value.host, c) && Without(ReadEndPoint(s).value.port, c)
  {
    SeparatedLacks(s, ':', c);
  }

  lemma ReadAuthorityLacks(token: string, start: nat, c: char)
    requires Lacks(token, c) && ReadAuthority(token, start).Ok?
    ensures AuthorityLacks(ReadAuthority(token, start).value, c)
  {
    if HasUserInformation(token, start) {
      var parts := Separate(token, '@');
      SeparatedLacks(token, '@', c);
      SeparatedLacks(parts.0, ':', c);
      EndPointLacks(parts.1, c);
    } else {
      EndPointLacks(token, c);
    }
  }

  lemma {:induction false} ReadPairsLack(pairs: seq<string>, c: char)
    requires (forall i :: 0 <= i < |pairs| ==> Lacks(pairs[i], c)) && ReadPairs(pairs).Ok?
    ensures PairsLack(ReadPairs(pairs).value, c)
  {
    if pairs != [] {
      SeparatedLacks(pairs[0], '=', c);
      ReadPairsLack(pairs[1..], c);
    }
  }

  lemma ReadQueryLacks(s: string, c: char)
    requires Lacks(s, c) && ReadQuery(s).Ok?
    ensures PairsLack(ReadQuery(s).value.query, c) && Lacks(ReadQuery(s).value.rest, c)
  {
    if s != "" && s[0] == '?' {
      PartLacks(s, c, 1, |s|);
      var token := ExtractToken(s[1..], "#");
      TokenLacks(s[1..], "#", c);
      SplitLacks(token.text, '&', c);
      ReadPairsLack(Split(token.text, '&'), c);
    }
  }

  lemma ReadRestLacks(s: string, base: Url, c: char)
    requires Lacks(s, c) && UrlLacks(base, c) && ReadRest(s, base).Ok?
    ensures UrlLacks(ReadRest(s, base).value, c)
  {
    TokenLacks(s, "?#", c);
    ReadQueryLacks(ReadPath(s).rest, c);
  }

  lemma ParsedLacks(s: string, c: char)
    requires Lacks(s, c) && Parse(s).Ok?
    ensures UrlLacks(Parse(s).value, c)
  {
    if s[0] == '/' {
      ReadRestLacks(s, NOTHING, c);
    } else {
      SeparatedLacks(s, ':', c);
      var scheme, text := Separate(s, ':').0, Separate(s, ':').1;
      var start := AuthorityStart(text);
      PartLacks(text, c, start, |text|);
      TokenLacks(text[start..], "/?#", c);
      var token := ExtractToken(text[start..], "/?#");
      ReadAuthorityLacks(token.text, start, c);
      ReadRestLacks(token.rest, WithAuthority(scheme, ReadAuthority(token.text, start).value), c);
    }
  }

  // ----- writing -------------------------------------------------------------------------

  lemma JoinedLack(a: string, b: string, c: char)
    requires Lacks(a, c) && Lacks(b, c)
    ensures Lacks(a + b, c)
  {
  }

  lemma {:induction false} PairTextsLack(query: seq<KeyValue>, c: char)
    requires PairsLack(query, c) && !IsDelimiter(c)
    ensures Lacks(Join(PairTexts(query), '&'), c)
  {
    if query != [] {
      PairTextsLack(query[1..], c);
      assert PairTexts(query)[1..] == PairTexts(query[1..]);
    }
  }

  lemma AuthorityTextLacks(u: Url, c: char)
    requires UrlLacks(u, c) && !IsDelimiter(c)
    ensures Lacks(Authority(u), c)
  {
    JoinedLack(UserText(u), EndPoint(u), c);
  }

  lemma EncodedLacks(u: Url, c: char)
    requires UrlLacks(u, c) && !IsDelimiter(c)
    ensures Lacks(Encode(u), c)
  {
    AuthorityTextLacks(u, c);
    PairTextsLack(u.query, c);
    JoinedLack(QueryText(u), Shown(u.fragment), c);
    JoinedLack(SchemeText(u), Authority(u), c);
    JoinedLack(SchemeText(u) + Authority(u), Shown(u.path), c);
    JoinedLack(SchemeText(u) + Authority(u) + Shown(u.path), Tail(u), c);
  }

  /** Parsing and writing again brings in no character but delimiters. */
  lemma NothingIsInvented(s: string, c: char)
    requires Lacks(s, c) && Parse(s).Ok? && !IsDelimiter(c)
    ensures Lacks(Encode(Parse(s).value), c)
  {
    ParsedLacks(s, c);
    EncodedLacks(Parse(s).value, c);
  }
}
