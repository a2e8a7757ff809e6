/** Strings as the parsers see them: searching, cutting, C strings and decimal numbers. */
module Text {

  datatype Result<+T> = Ok(value: T) | Err

  const NUL := '\0'

  predicate Lacks(s: string, c: char) {
    forall i :: 0 <= i < |s| ==> s[i] != c
  }

  /** The first position of `c`; the length of the string stands for "not found". */
  function Find(s: string, c: char): (n: nat)
    ensures n <= |s| && (n < |s| ==> s[n] == c) && forall i :: 0 <= i < n ==> s[i] != c
  {
    if s == "" || s[0] == c then 0 else 1 + Find(s[1..], c)
  }

  /** The first position where `a` is followed by `b`. */
  function FindPair(s: string, a: char, b: char): (n: nat)
    ensures n <= |s| && (n < |s| ==> n + 1 < |s| && s[n] == a && s[n + 1] == b)
    ensures forall i :: 0 <= i < n && i + 1 < |s| ==> !(s[i] == a && s[i + 1] == b)
  {
    if |s| < 2 then |s|
    else if s[0] == a && s[1] == b then 0
    else 1 + FindPair(s[1..], a, b)
  }

  lemma FindAfter(a: string, c: char, rest: string)
    requires Lacks(a, c) && rest != "" && rest[0] == c
    ensures Find(a + rest, c) == |a|
  {
    assert (a + rest)[|a|] == c;
  }

  lemma DropDrop(s: string, a: nat, b: nat)
    requires a + b <= |s|
    ensures s[a..][b..] == s[a + b..]
  {
  }

  lemma Associate(a: string, b: string, c: string)
    ensures a + (b + c) == a + b + c
  {
  }

  lemma DropPrefix(a: string, b: string)
    ensures (a + b)[|a|..] == b
  {
  }

  // ----- separate ------------------------------------------------------------------------

  /** protocol::separate: the string before and after the first delimiter. */
  function Separate(s: string, delim: char): (r: (string, string))
    ensures Lacks(r.0, delim)
    ensures if Lacks(s, delim) then r == (s, "") else s == r.0 + [delim] + r.1
  {
    var n := Find(s, delim);
    if n < |s| then (s[..n], s[n + 1..]) else (s, "")
  }

  lemma SeparateAt(a: string, delim: char, b: string)
    requires Lacks(a, delim)
    ensures Separate(a + [delim] + b, delim) == (a, b)
  {
    assert a + [delim] + b == a + ([delim] + b);
    FindAfter(a, delim, [delim] + b);
  }

  // ----- C strings and strtok ------------------------------------------------------------

  /** What c_str() shows to a C function: the part before the first NUL. */
  function CString(s: string): (r: string)
    ensures Lacks(r, NUL) && r <= s
    ensures |r| < |s| ==> s[|r|] == NUL
    ensures Lacks(s, NUL) ==> r == s
  {
    s[..Find(s, NUL)]
  }

  /** The runs of characters other than `delim`. */
  function Tokens(s: string, delim: char): (r: seq<string>)
    ensures forall i :: 0 <= i < |r| ==> r[i] != "" && Lacks(r[i], delim)
    decreases |s|
  {
    if s == "" then []
    else if s[0] == delim then Tokens(s[1..], delim)
    else
      var n := Find(s, delim);
      [s[..n]] + Tokens(s[n..], delim)
  }

  /** Delimiters are skipped, and a run of other characters is one item, whatever comes around it. */
  lemma TokensAreRuns(a: string, delim: char, rest: string)
    requires a != "" && Lacks(a, delim) && (rest == "" || rest[0] == delim)
    ensures Tokens("", delim) == []
    ensures Tokens([delim] + rest, delim) == Tokens(rest, delim)
    ensures Tokens(a + rest, delim) == [a] + Tokens(rest, delim)
  {
    assert ([delim] + rest)[1..] == rest;
    FirstRun(a + rest, |a|, delim);
    assert (a + rest)[..|a|] == a && (a + rest)[|a|..] == rest;
  }

  lemma FirstRun(s: string, n: nat, delim: char)
    requires 0 < n <= |s| && Lacks(s[..n], delim) && (n == |s| || s[n] == delim)
    ensures Tokens(s, delim) == [s[..n]] + Tokens(s[n..], delim)
  {
    assert forall i :: 0 <= i < n ==> s[i] == s[..n][i];
    assert s[0] != delim && Find(s, delim) == n;
  }

  /** Nothing after a NUL is split. */
  lemma SplitStopsAtNul(s: string, rest: string, delim: char)
    requires Lacks(s, NUL)
    ensures Split(s + [NUL] + rest, delim) == Tokens(s, delim)
  {
    var t := s + [NUL] + rest;
    assert t[|s|] == NUL;
    assert CString(t) == s by {
      assert |CString(t)| == |s|;
      assert t[..|s|] == s;
    }
  }

  /** protocol::split, by strtok_r on the C string. */
  function Split(s: string, delim: char): (r: seq<string>)
    ensures forall i :: 0 <= i < |r| ==> r[i] != "" && Lacks(r[i], delim)
  {
    Tokens(CString(s), delim)
  }

  function Join(items: seq<string>, delim: char): string {
    if items == [] then "" else if |items| == 1 then items[0] else items[0] + [delim] + Join(items[1..], delim)
  }

  /** Items that are not empty and hold neither the delimiter nor a NUL. */
  ghost predicate Items(items: seq<string>, delim: char) {
    forall i :: 0 <= i < |items| ==> items[i] != "" && Lacks(items[i], delim) && Lacks(items[i], NUL)
  }

  lemma {:induction false} JoinHasNoNul(items: seq<string>, delim: char)
    requires Items(items, delim) && delim != NUL
    ensures Lacks(Join(items, delim), NUL)
  {
    if |items| > 1 { JoinHasNoNul(items[1..], delim); }
  }

  lemma {:induction false} TokensOfJoin(items: seq<string>, delim: char)
    requires Items(items, delim)
    ensures Tokens(Join(items, delim), delim) == items
  {
    if |items| == 1 {
      var s := items[0];
      assert s[..|s|] == s && s[|s|..] == "";
    } else if |items| > 1 {
      var a, rest := items[0], Join(items[1..], delim);
      var s := Join(items, delim);
      assert s == a + ([delim] + rest);
      FindAfter(a, delim, [delim] + rest);
      assert s[..|a|] == a && s[|a|..] == [delim] + rest && ([delim] + rest)[1..] == rest;
      TokensOfJoin(items[1..], delim);
    }
  }

  /** Splitting undoes joining. */
  lemma SplitOfJoin(items: seq<string>, delim: char)
    requires Items(items, delim) && delim != NUL
    ensures Split(Join(items, delim), delim) == items
  {
    JoinHasNoNul(items, delim);
    TokensOfJoin(items, delim);
  }

  // ----- decimal numbers -----------------------------------------------------------------

  predicate IsDigit(c: char) {
    '0' <= c <= '9'
  }

  /** protocol::isNumeric. */
  predicate IsNumeric(s: string) {
    s != "" && forall i :: 0 <= i < |s| ==> IsDigit(s[i])
  }

  function Digit(d: int): (c: char)
    requires 0 <= d < 10
    ensures IsDigit(c) && (c as int) - ('0' as int) == d
  {
    ('0' as int + d) as char
  }

  function Decimal(n: nat): (s: string)
    ensures IsNumeric(s)
  {
    if n < 10 then [Digit(n)] else Decimal(n / 10) + [Digit(n % 10)]
  }

  function Number(s: string): nat
    requires forall i :: 0 <= i < |s| ==> IsDigit(s[i])
  {
    if s == "" then 0
    else
      assert IsDigit(s[|s| - 1]);
      10 * Number(s[..|s| - 1]) + (s[|s| - 1] as int - '0' as int)
  }

  lemma {:induction false} NumberOfDecimal(n: nat)
    ensures Number(Decimal(n)) == n
  {
    var s := Decimal(n);
    if n < 10 {
      assert s[..0] == "";
    } else {
      NumberOfDecimal(n / 10);
      assert s[..|s| - 1] == Decimal(n / 10);
    }
  }

  /** The last digit counts once, and all others ten times as much, leading zeros included. */
  lemma NumberIsPositional(s: string, c: char)
    requires (forall i :: 0 <= i < |s| ==> '0' <= s[i] <= '9') && '0' <= c <= '9'
    ensures Number("") == 0 && Number(s + [c]) == 10 * Number(s) + (c as int - 48)
  {
    assert (s + [c])[..|s|] == s;
  }

  /** strtol saturates at the largest long. */
  const LONG_MAX := 0x7fff_ffff_ffff_ffff

  function Atol(s: string): int
    requires IsNumeric(s)
  {
    if Number(s) <= LONG_MAX then Number(s) else LONG_MAX
  }

  /** atoi keeps the low 32 bits of strtol, as a signed number. */
  function Atoi(s: string): int
    requires IsNumeric(s)
  {
    var low := Atol(s) % 0x1_0000_0000;
    if low < 0x8000_0000 then low else low - 0x1_0000_0000
  }

  lemma AtoiOfDecimal(n: nat)
    requires n < 0x8000_0000
    ensures Atoi(Decimal(n)) == n
  {
    NumberOfDecimal(n);
  }

  /** Whatever the number, atoi gives its low 32 bits as a signed number; -1 beyond a long. */
  lemma AtoiOfAnyDecimal(n: nat)
    ensures -0x8000_0000 <= Atoi(Decimal(n)) < 0x8000_0000
    ensures n < 0x8000_0000_0000_0000 ==> (Atoi(Decimal(n)) - n) % 0x1_0000_0000 == 0
    ensures n >= 0x8000_0000_0000_0000 ==> Atoi(Decimal(n)) == -1
  {
    NumberOfDecimal(n);
    AtoiOfNumber(Decimal(n));
  }

  lemma AtoiOfNumber(s: string)
    requires IsNumeric(s)
    ensures -0x8000_0000 <= Atoi(s) < 0x8000_0000
    ensures Number(s) < 0x8000_0000_0000_0000 ==> (Atoi(s) - Number(s)) % 0x1_0000_0000 == 0
    ensures Number(s) >= 0x8000_0000_0000_0000 ==> Atoi(s) == -1
  {
    if Number(s) < 0x8000_0000_0000_0000 { LowWord(Number(s), Atoi(s)); }
  }

  lemma LowWord(n: nat, word: int)
    requires word == n % 0x1_0000_0000 || word == n % 0x1_0000_0000 - 0x1_0000_0000
    ensures (word - n) % 0x1_0000_0000 == 0
  {
    var high := n / 0x1_0000_0000;
    assert n == high * 0x1_0000_0000 + n % 0x1_0000_0000;
    assert word - n == -high * 0x1_0000_0000 || word - n == (-high - 1) * 0x1_0000_0000;
  }

  // ----- case ----------------------------------------------------------------------------

  function Lower(c: char): char {
    if 'A' <= c <= 'Z' then (c as int + 32) as char else c
  }

  function LowerCase(s: string): (r: string)
    ensures |r| == |s|
  {
    seq(|s|, i requires 0 <= i < |s| => Lower(s[i]))
  }

  /** strcasecmp on the C strings is zero. */
  predicate SameIgnoringCase(a: string, b: string) {
    LowerCase(CString(a)) == LowerCase(CString(b))
  }

  /** The same character, or the same letter in the other case. */
  predicate EitherCase(c: char, d: char) {
    c == d || ('a' <= c <= 'z' && c as int == d as int + 32) || ('a' <= d <= 'z' && d as int == c as int + 32)
  }

  /** Character by character the same, each letter in either case. */
  ghost predicate SpelledAs(text: string, name: string) {
    |text| == |name| && forall i :: 0 <= i < |text| ==> EitherCase(text[i], name[i])
  }

  lemma LowerIsEitherCase(c: char, d: char)
    ensures Lower(c) == Lower(d) <==> EitherCase(c, d)
  {
  }

  /** Two strings are the same ignoring case exactly when one spells the other. */
  lemma SameIgnoringCaseIsSpelling(a: string, b: string)
    ensures SameIgnoringCase(a, b) <==> SpelledAs(CString(a), CString(b))
  {
    var x, y := CString(a), CString(b);
    forall c, d ensures Lower(c) == Lower(d) <==> EitherCase(c, d) { LowerIsEitherCase(c, d); }
    if SpelledAs(x, y) {
      assert LowerCase(x) == LowerCase(y);
    } else if |x| == |y| {
      var i :| 0 <= i < |x| && !EitherCase(x[i], y[i]);
      assert LowerCase(x)[i] != LowerCase(y)[i];
    }
  }
}
