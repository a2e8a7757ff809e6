/** URLs: the text of a URL, and the parser that reads it back. */
module Url {
  import opened Options
  import opened Text

  datatype KeyValue = KeyValue(key: string, value: string)

  /** The components that are present, and the query in order. */
  datatype Url = Url(scheme: Option<string>, user: Option<string>, password: Option<string>, host: Option<string>,
                     port: Option<string>, path: Option<string>, fragment: Option<string>, query: seq<KeyValue>)

  // ----- encode --------------------------------------------------------------------------

  function Shown(component: Option<string>): string {
    if component.Some? then component.value else ""
  }

  function SchemeText(u: Url): string {
    if u.scheme.Some? then u.scheme.value + "://" else ""
  }

  /** User and password, without the '@'. */
  function UserInformation(u: Url): string {
    Shown(u.user) + if u.password.Some? then ":" + u.password.value else ""
  }

  function UserText(u: Url): string {
    if u.user.Some? || u.password.Some? then UserInformation(u) + "@" else ""
  }

  function EndPoint(u: Url): string {
    Shown(u.host) + if u.port.Some? then ":" + u.port.value else ""
  }

  function PairText(p: KeyValue): string {
    p.key + if p.value != "" then "=" + p.value else ""
  }

  function PairTexts(query: seq<KeyValue>): (r: seq<string>)
    ensures |r| == |query| && forall i :: 0 <= i < |r| ==> r[i] == PairText(query[i])
  {
    if query == [] then [] else [PairText(query[0])] + PairTexts(query[1..])
  }

  function QueryText(u: Url): string {
    if u.query == [] then "" else "?" + Join(PairTexts(u.query), '&')
  }

  function Authority(u: Url): string {
    UserText(u) + EndPoint(u)
  }

  function Tail(u: Url): string {
    QueryText(u) + Shown(u.fragment)
  }

  function Encode(u: Url): string {
    SchemeText(u) + Authority(u) + Shown(u.path) + Tail(u)
  }

  // ----- the parser ----------------------------------------------------------------------

  /** A token and what remains after it, the delimiter included. */
  datatype Token = Token(text: string, rest: string)

  /** Cuts at the first delimiter of the list that occurs anywhere in `s`, not at the delimiter
      that comes first in the string. */
  function ExtractToken(s: string, delims: string): (t: Token)
    ensures |t.text| + |t.rest| == |s|
  {
    if delims == "" then Token(s, "")
    else
      var end := Find(s, delims[0]);
      if end < |s| then Token(s[..end], s[end..]) else ExtractToken(s, delims[1..])
  }

  function Optional(value: string): Option<string> {
    if value == "" then None else Some(value)
  }

  datatype EndPointParts = EndPointParts(host: string, port: Option<string>)

  /** The host is mandatory, the port must be numeric if there is one. */
  function ReadEndPoint(s: string): Result<EndPointParts> {
    var parts := Separate(s, ':');
    if parts.0 == "" || (parts.1 != "" && !IsNumeric(parts.1)) then Err
    else Ok(EndPointParts(parts.0, Optional(parts.1)))
  }

  datatype AuthorityParts = AuthorityParts(user: Option<string>, password: Option<string>, at: EndPointParts)

  /** Where the authority starts: after "//", wherever that is, or at the beginning. */
  function AuthorityStart(s: string): (n: nat)
    ensures n <= |s|
  {
    var slashes := FindPair(s, '/', '/');
    if slashes < |s| then slashes + 2 else 0
  }

  /** The search for '@' skips as many characters of the token as were skipped before it. */
  predicate HasUserInformation(token: string, start: nat) {
    start <= |token| && !Lacks(token[start..], '@')
  }

  function ReadAuthority(token: string, start: nat): Result<AuthorityParts> {
    if HasUserInformation(token, start) then
      var parts := Separate(token, '@');
      var user := Separate(parts.0, ':');
      var at := ReadEndPoint(parts.1);
      if at.Err? then Err else Ok(AuthorityParts(Optional(user.0), Optional(user.1), at.value))
    else
      var at := ReadEndPoint(token);
      if at.Err? then Err else Ok(AuthorityParts(None, None, at.value))
  }

  function ReadPath(s: string): Token {
    if s == "" then Token("", "") else ExtractToken(s, "?#")
  }

  /** An empty key is an error. */
  function ReadPairs(pairs: seq<string>): Result<seq<KeyValue>> {
    if pairs == [] then Ok([])
    else
      var parts := Separate(pairs[0], '=');
      var rest := ReadPairs(pairs[1..]);
      if parts.0 == "" || rest.Err? then Err else Ok([KeyValue(parts.0, parts.1)] + rest.value)
  }

  datatype QueryParts = QueryParts(query: seq<KeyValue>, rest: string)

  function ReadQuery(s: string): Result<QueryParts> {
    if s == "" || s[0] != '?' then Ok(QueryParts([], s))
    else
      var token := ExtractToken(s[1..], "#");
      var pairs := ReadPairs(Split(token.text, '&'));
      if pairs.Err? then Err else Ok(QueryParts(pairs.value, token.rest))
  }

  /** Everything after the authority. */
  function ReadRest(s: string, base: Url): Result<Url> {
    var path := ReadPath(s);
    var query := ReadQuery(path.rest);
    if query.Err? then Err
    else Ok(base.(path := Optional(path.text), query := query.value.query, fragment := Optional(query.value.rest)))
  }

  const NOTHING := Url(None, None, None, None, None, None, None, [])

  function WithAuthority(scheme: string, authority: AuthorityParts): Url {
    NOTHING.(scheme := Some(scheme), user := authority.user, password := authority.password,
             host := Some(authority.at.host), port := authority.at.port)
  }

  /** Everything after the scheme and its ':'. */
  function ParseWithoutScheme(s: string, scheme: string): Result<Url> {
    var start := AuthorityStart(s);
    var token := ExtractToken(s[start..], "/?#");
    var authority := ReadAuthority(token.text, start);
    if authority.Err? then Err else ReadRest(token.rest, WithAuthority(scheme, authority.value))
  }

  function Parse(s: string): Result<Url> {
    if s != "" && s[0] == '/' then ReadRest(s, NOTHING)
    else
      var parts := Separate(s, ':');
      if parts.0 == "" then Err else ParseWithoutScheme(parts.1, parts.0)
  }
}
