/** Primary keys: named components that are compared, matched and hashed. */
module Keys {
  import opened Bits

  /** The types of components; the bytes of a block are characters here. */
  datatype Value =
    | Integer(number: int)
    | Text(text: string)
    | Float(amount: real)
    | ShortBlock(bytes: string)
    | LongBlock(bytes: string)
    | Date(seconds: int)
    | TimeStamp(seconds: int)
    | MultiString(values: seq<string>)

  /** A null component keeps its last value out of sight. */
  datatype Data = Data(name: string, isNull: bool, value: Value)

  datatype Verdict = Order(order: int) | Thrown

  /** The position in Abstract::Datatype. */
  function Type(v: Value): nat {
    match v
    case Integer(_) => 0 case Text(_) => 1 case Float(_) => 2 case ShortBlock(_) => 3
    case LongBlock(_) => 4 case Date(_) => 5 case TimeStamp(_) => 6 case MultiString(_) => 7
  }

  predicate SameType(d: Data, e: Data) {
    Type(d.value) == Type(e.value)
  }

  predicate IsDate(v: Value) {
    v.Date? || v.TimeStamp?
  }

  predicate IsBlock(v: Value) {
    v.ShortBlock? || v.LongBlock?
  }

  // ----- comparing components ------------------------------------------------------------

  const WORD32 := 0x1_0000_0000

  /** A difference returned as a 32-bit int. */
  function Int32(x: int): int {
    var low := x % WORD32;
    if low < WORD32 / 2 then low else low - WORD32
  }

  lemma Int32IsZero(x: int)
    ensures Int32(x) == 0 <==> x % WORD32 == 0
  {
  }

  /** strcmp, by its sign. */
  function StrCmp(s: string, t: string): int {
    if s == "" && t == "" then 0
    else if s == "" then -1
    else if t == "" then 1
    else if s[0] < t[0] then -1
    else if t[0] < s[0] then 1
    else StrCmp(s[1..], t[1..])
  }

  lemma {:induction false} StrCmpIsZero(s: string, t: string)
    ensures StrCmp(s, t) == 0 <==> s == t
  {
    if s != "" && t != "" && s[0] == t[0] {
      StrCmpIsZero(s[1..], t[1..]);
      assert s == [s[0]] + s[1..] && t == [t[0]] + t[1..];
    }
  }

  /** MultiString::do_compare: the sizes, then the strings in order. */
  function CompareStrings(v: seq<string>, w: seq<string>): int {
    if |v| != |w| then |v| - |w|
    else if v == [] then 0
    else if StrCmp(v[0], w[0]) != 0 then StrCmp(v[0], w[0])
    else CompareStrings(v[1..], w[1..])
  }

  lemma {:induction false} CompareStringsIsZero(v: seq<string>, w: seq<string>)
    ensures CompareStrings(v, w) == 0 <==> v == w
  {
    if |v| == |w| && v != [] {
      StrCmpIsZero(v[0], w[0]);
      CompareStringsIsZero(v[1..], w[1..]);
      assert v == [v[0]] + v[1..] && w == [w[0]] + w[1..];
    }
  }

  function Sign(x: real): int {
    if x == 0.0 then 0 else if x < 0.0 then -1 else 1
  }

  /** The do_compare of the types: integers and dates by a difference cut to 32 bits, blocks not
      at all. */
  function CompareValues(v: Value, w: Value): Verdict
    requires Type(v) == Type(w)
  {
    match v
    case Integer(m) => Order(Int32(m - w.number))
    case Text(s) => Order(StrCmp(s, w.text))
    case Float(x) => Order(Sign(x - w.amount))
    case Date(s) => Order(Int32(s - w.seconds))
    case TimeStamp(s) => Order(Int32(s - w.seconds))
    case MultiString(values) => Order(CompareStrings(values, w.values))
    case _ => Thrown
  }

  /** Abstract::compare. */
  function CompareData(d: Data, e: Data): Verdict {
    if !SameType(d, e) then Thrown
    else if d.isNull && e.isNull then Order(0)
    else if e.isNull then Order(1)
    else if d.isNull then Order(-1)
    else CompareValues(d.value, e.value)
  }

  /** Integers have 32 bits. */
  predicate InRange(d: Data) {
    d.value.Integer? ==> -WORD32 / 2 <= d.value.number < WORD32 / 2
  }

  /** Two components are taken for equal. */
  predicate Alike(d: Data, e: Data) {
    SameType(d, e) && d.isNull == e.isNull && (d.isNull || AlikeValues(d.value, e.value))
  }

  predicate AlikeValues(v: Value, w: Value)
    requires Type(v) == Type(w)
  {
    if IsDate(v) then (v.seconds - w.seconds) % WORD32 == 0
    else if IsBlock(v) then false
    else v == w
  }

  lemma CompareDataIsZero(d: Data, e: Data)
    requires InRange(d) && InRange(e)
    ensures CompareData(d, e) == Order(0) <==> Alike(d, e)
  {
    if SameType(d, e) {
      match d.value {
        case Integer(m) => Int32IsZero(m - e.value.number);
        case Text(s) => StrCmpIsZero(s, e.value.text);
        case Date(s) => Int32IsZero(s - e.value.seconds);
        case TimeStamp(s) => Int32IsZero(s - e.value.seconds);
        case MultiString(values) => CompareStringsIsZero(values, e.value.values);
        case _ =>
      }
    }
  }

  // ----- the order of components ---------------------------------------------------------

  /** The strings agree up to `k`, and there the first one ends or has the smaller character. */
  ghost predicate SmallerAt(s: string, t: string, k: nat) {
    k <= |s| && k < |t| && s[..k] == t[..k] && (k < |s| ==> s[k] < t[k])
  }

  lemma SmallerBehind(s: string, t: string, k: nat)
    requires s != "" && t != "" && s[0] == t[0]
    ensures SmallerAt(s[1..], t[1..], k) <==> SmallerAt(s, t, k + 1)
  {
    if k + 1 <= |s| && k + 1 < |t| {
      assert s[..k + 1] == [s[0]] + s[1..][..k] && t[..k + 1] == [t[0]] + t[1..][..k];
      if s[..k + 1] == t[..k + 1] { assert s[..k + 1][1..] == s[1..][..k] && t[..k + 1][1..] == t[1..][..k]; }
    }
  }

  lemma SameStart(s: string, t: string, k: nat)
    requires SmallerAt(s, t, k) && k > 0
    ensures s != "" && t != "" && s[0] == t[0]
  {
    assert s[..k][0] == t[..k][0];
  }

  /** Texts are ordered by their first difference. */
  lemma {:induction false} TextsAreOrdered(s: string, t: string)
    ensures StrCmp(s, t) < 0 <==> exists k: nat :: SmallerAt(s, t, k)
  {
    if s == "" {
      if t != "" { assert SmallerAt(s, t, 0); }
    } else if t != "" {
      if s[0] == t[0] {
        TextsAreOrdered(s[1..], t[1..]);
        if k: nat :| SmallerAt(s[1..], t[1..], k) { SmallerBehind(s, t, k); }
        if k: nat :| SmallerAt(s, t, k) { SmallerBehind(s, t, k - 1); }
      } else if s[0] < t[0] {
        assert SmallerAt(s, t, 0);
      } else if k: nat :| SmallerAt(s, t, k) {
        if k > 0 { SameStart(s, t, k); }
      }
    }
  }

  lemma {:induction false} TextsAreAntisymmetric(s: string, t: string)
    ensures StrCmp(s, t) == -StrCmp(t, s) && -1 <= StrCmp(s, t) <= 1
  {
    if s != "" && t != "" && s[0] == t[0] { TextsAreAntisymmetric(s[1..], t[1..]); }
  }

  lemma {:induction false} TextsAreTransitive(s: string, t: string, u: string)
    requires StrCmp(s, t) <= 0 && StrCmp(t, u) <= 0
    ensures StrCmp(s, u) <= 0
  {
    if s != "" && t != "" && u != "" && s[0] == t[0] == u[0] { TextsAreTransitive(s[1..], t[1..], u[1..]); }
  }

  /** Components of different types cannot be compared; a null comes before a value; blocks with
      values cannot be compared. */
  lemma NullsComeFirst(d: Data, e: Data)
    ensures Type(d.value) == Type(e.value) <==>
            || (d.value.Integer? && e.value.Integer?) || (d.value.Text? && e.value.Text?) || (d.value.Float? && e.value.Float?)
            || (d.value.ShortBlock? && e.value.ShortBlock?) || (d.value.LongBlock? && e.value.LongBlock?)
            || (d.value.Date? && e.value.Date?) || (d.value.TimeStamp? && e.value.TimeStamp?)
            || (d.value.MultiString? && e.value.MultiString?)
    ensures Type(d.value) != Type(e.value) ==> CompareData(d, e) == Thrown
    ensures Type(d.value) == Type(e.value) && (d.isNull || e.isNull) ==>
              CompareData(d, e) == Order((if d.isNull then 0 else 1) - (if e.isNull then 0 else 1))
    ensures Type(d.value) == Type(e.value) && !d.isNull && !e.isNull && (d.value.ShortBlock? || d.value.LongBlock?) ==>
              CompareData(d, e) == Thrown
  {
  }

  /** The sign of a comparison is the order of the values: of floats and texts always, of integers and
      dates if and only if their difference fits 32 bits. */
  lemma OrderOfValues(d: Data, e: Data)
    requires !d.isNull && !e.isNull && Type(d.value) == Type(e.value)
    ensures d.value.Float? ==>
              CompareData(d, e) == Order(if d.value.amount < e.value.amount then -1
                                         else if d.value.amount == e.value.amount then 0 else 1)
    ensures d.value.Text? ==> CompareData(d, e) == Order(StrCmp(d.value.text, e.value.text))
    ensures d.value.Integer? ==> SignIsRight(CompareData(d, e), d.value.number - e.value.number)
    ensures IsDate(d.value) ==> SignIsRight(CompareData(d, e), d.value.seconds - e.value.seconds)
  {
    if d.value.Integer? { SignOfInt32(d.value.number - e.value.number); }
    if IsDate(d.value) { SignOfInt32(d.value.seconds - e.value.seconds); }
  }

  /** A difference that fits 32 bits is the result; of the others below 2^32 the sign is wrong. */
  ghost predicate SignIsRight(verdict: Verdict, difference: int) {
    && verdict.Order?
    && (-0x8000_0000 <= difference < 0x8000_0000 <==> verdict.order == difference)
    && (0x8000_0000 <= difference < 0x1_0000_0000 ==> verdict.order < 0)
    && (-0x1_0000_0000 < difference < -0x8000_0000 ==> verdict.order > 0)
  }

  lemma SignOfInt32(x: int)
    ensures SignIsRight(Order(Int32(x)), x)
  {
    if -WORD32 < x < 0 { assert x % WORD32 == x + WORD32; }
    if 0 <= x < WORD32 { assert x % WORD32 == x; }
  }

  /** Lists of texts are ordered by their sizes, and lists of one size by the first texts that differ. */
  lemma {:induction false} ListsAreOrdered(v: seq<string>, w: seq<string>)
    ensures |v| != |w| ==> CompareStrings(v, w) == |v| - |w|
    ensures |v| == |w| ==> (CompareStrings(v, w) < 0 <==>
              exists k :: 0 <= k < |v| && v[..k] == w[..k] && StrCmp(v[k], w[k]) < 0)
  {
    if |v| == |w| && v != [] {
      StrCmpIsZero(v[0], w[0]);
      ListsAreOrdered(v[1..], w[1..]);
      if StrCmp(v[0], w[0]) == 0 {
        if k :| 0 <= k < |v[1..]| && v[1..][..k] == w[1..][..k] && StrCmp(v[1..][k], w[1..][k]) < 0 {
          assert v[..k + 1] == [v[0]] + v[1..][..k] && w[..k + 1] == [w[0]] + w[1..][..k];
          assert v[k + 1] == v[1..][k] && w[k + 1] == w[1..][k];
        }
        if k :| 0 <= k < |v| && v[..k] == w[..k] && StrCmp(v[k], w[k]) < 0 {
          assert v[1..][..k - 1] == v[..k][1..] && w[1..][..k - 1] == w[..k][1..];
          assert v[1..][k - 1] == v[k] && w[1..][k - 1] == w[k];
        }
      } else if StrCmp(v[0], w[0]) < 0 {
        assert v[..0] == w[..0];
      } else if k :| 0 <= k < |v| && v[..k] == w[..k] && StrCmp(v[k], w[k]) < 0 {
        if k > 0 { assert v[..k][0] == w[..k][0]; }
      }
    }
  }

  // ----- sets of components --------------------------------------------------------------

  /** The components in the order in which they were inserted. */
  type Components = seq<Data>

  function Place(data: Components, name: string): (i: nat)
    ensures i <= |data| && (i < |data| ==> data[i].name == name)
    ensures forall j :: 0 <= j < i ==> data[j].name != name
  {
    if data == [] || data[0].name == name then 0 else 1 + Place(data[1..], name)
  }

  predicate Defines(data: Components, name: string) {
    Place(data, name) < |data|
  }

  ghost predicate Proper(data: Components) {
    && (forall i, j :: 0 <= i < j < |data| ==> data[i].name != data[j].name)
    && (forall i :: 0 <= i < |data| ==> InRange(data[i]))
  }

  /** Set::compare, from the i-th component on: the first difference, or an exception when the
      other set lacks a name or a pair cannot be compared. */
  function CompareFrom(data: Components, other: Components, i: nat): Verdict
    requires i <= |data|
    decreases |data| - i
  {
    if i == |data| then Order(0)
    else
      var j := Place(other, data[i].name);
      if j == |other| then Thrown
      else
        var verdict := CompareData(data[i], other[j]);
        if verdict == Order(0) then CompareFrom(data, other, i + 1) else verdict
  }

  function Compare(data: Components, other: Components): Verdict {
    if |data| != |other| then Thrown else CompareFrom(data, other, 0)
  }

  predicate HasAlike(other: Components, d: Data) {
    var j := Place(other, d.name);
    j < |other| && Alike(d, other[j])
  }

  lemma {:induction false} CompareFromIsZero(data: Components, other: Components, i: nat)
    requires Proper(data) && Proper(other) && i <= |data|
    ensures CompareFrom(data, other, i) == Order(0) <==> forall k :: i <= k < |data| ==> HasAlike(other, data[k])
    decreases |data| - i
  {
    if i < |data| {
      CompareFromIsZero(data, other, i + 1);
      var j := Place(other, data[i].name);
      if j < |other| { CompareDataIsZero(data[i], other[j]); }
    }
  }

  ghost predicate AllAlike(data: Components, other: Components) {
    |data| == |other| && forall k :: 0 <= k < |data| ==> HasAlike(other, data[k])
  }

  /** Two keys compare equal exactly when every component has its like in the other key. */
  lemma CompareIsZero(data: Components, other: Components)
    requires Proper(data) && Proper(other)
    ensures Compare(data, other) == Order(0) <==> AllAlike(data, other)
  {
    if |data| == |other| { CompareFromIsZero(data, other, 0); }
  }

  // ----- counting names ------------------------------------------------------------------

  function Names(data: Components): set<string> {
    set i | 0 <= i < |data| :: data[i].name
  }

  lemma {:induction false} NamesCount(data: Components)
    requires Proper(data)
    ensures |Names(data)| == |data|
  {
    if data != [] {
      var last, rest := data[|data| - 1], data[..|data| - 1];
      NamesCount(rest);
      assert Names(data) == Names(rest) + {last.name};
    }
  }

  lemma PlaceOf(data: Components, i: nat)
    requires Proper(data) && i < |data|
    ensures Place(data, data[i].name) == i
  {
  }

  /** If every name of a key is in another key of the same size, the names are the same. */
  lemma SameNames(data: Components, other: Components)
    requires Proper(data) && Proper(other) && |data| == |other|
    requires forall i :: 0 <= i < |data| ==> Defines(other, data[i].name)
    ensures Names(data) == Names(other)
  {
    NamesCount(data);
    NamesCount(other);
    assert forall i :: 0 <= i < |data| ==> data[i].name == other[Place(other, data[i].name)].name;
    assert Names(data) <= Names(other);
    assert Names(other) == Names(data) + (Names(other) - Names(data));
  }

  /** Comparing equal does not depend on which key is asked. */
  lemma EqualIsSymmetric(data: Components, other: Components)
    requires Proper(data) && Proper(other) && Compare(data, other) == Order(0)
    ensures Compare(other, data) == Order(0)
  {
    CompareIsZero(data, other);
    assert forall i :: 0 <= i < |data| ==> HasAlike(other, data[i]);
    SameNames(data, other);
    forall j | 0 <= j < |other| ensures HasAlike(data, other[j]) {
      assert other[j].name in Names(data);
      var i :| 0 <= i < |data| && data[i].name == other[j].name;
      PlaceOf(data, i);
      PlaceOf(other, j);
      assert HasAlike(other, data[i]);
      AlikeIsSymmetric(data[i], other[j]);
    }
    CompareIsZero(other, data);
  }

  lemma AlikeIsSymmetric(d: Data, e: Data)
    requires Alike(d, e)
    ensures Alike(e, d)
  {
  }

  // ----- matches -------------------------------------------------------------------------

  predicate HasMatch(other: Components, d: Data) {
    var j := Place(other, d.name);
    j < |other| && SameType(d, other[j])
  }

  /** PrimaryKey::matches looks for the names of one key in the other only. */
  predicate Matches(data: Components, other: Components) {
    |data| == |other| && forall i :: 0 <= i < |data| ==> HasMatch(other, data[i])
  }

  /** Keys match exactly when they have as many components, and each has one of its name and type in
      the other. */
  lemma MatchesMeans(data: Components, other: Components)
    requires Proper(data) && Proper(other)
    ensures Matches(data, other) <==>
            |data| == |other| && forall i :: 0 <= i < |data| ==> HasPartner(other, data[i])
  {
    forall d ensures HasMatch(other, d) <==> HasPartner(other, d) {
      if j :| 0 <= j < |other| && other[j].name == d.name && Type(other[j].value) == Type(d.value) { PlaceOf(other, j); }
    }
    if forall i :: 0 <= i < |data| ==> HasPartner(other, data[i]) {
      forall i | 0 <= i < |data| ensures HasMatch(other, data[i]) { assert HasPartner(other, data[i]); }
    }
  }

  ghost predicate HasPartner(other: Components, d: Data) {
    exists j :: 0 <= j < |other| && other[j].name == d.name && Type(other[j].value) == Type(d.value)
  }

  lemma MatchesIsReflexive(data: Components)
    requires Proper(data)
    ensures Matches(data, data)
  {
    forall i | 0 <= i < |data| ensures HasMatch(data, data[i]) { PlaceOf(data, i); }
  }

  lemma MatchesIsSymmetric(data: Components, other: Components)
    requires Proper(data) && Proper(other) && Matches(data, other)
    ensures Matches(other, data)
  {
    assert forall i :: 0 <= i < |data| ==> HasMatch(other, data[i]);
    SameNames(data, other);
    forall j | 0 <= j < |other| ensures HasMatch(data, other[j]) {
      assert other[j].name in Names(data);
      var i :| 0 <= i < |data| && data[i].name == other[j].name;
      PlaceOf(data, i);
      PlaceOf(other, j);
      assert HasMatch(other, data[i]);
    }
  }

  lemma MatchesIsTransitive(a: Components, b: Components, c: Components)
    requires Matches(a, b) && Matches(b, c)
    ensures Matches(a, c)
  {
    forall i | 0 <= i < |a| ensures HasMatch(c, a[i]) {
      assert HasMatch(b, a[i]);
      assert HasMatch(c, b[Place(b, a[i].name)]);
    }
  }

  // ----- hashing -------------------------------------------------------------------------

  /** std::hash of the library, for the values that are hashed by it. */
  type Digest = Value -> nat

  /** The hash of a component: a date is its own hash, a block is hashed by its size. */
  function HashOf(v: Value, digest: Digest): nat {
    (if IsDate(v) then v.seconds else if IsBlock(v) then |v.bytes| else digest(v)) % WORD64
  }

  /** A loop over the components that carries a result along. */
  function Folded(before: nat, data: Components, mix: (nat, Value) -> nat): nat
    decreases data
  {
    if data == [] then before else Folded(mix(before, data[0].value), data[1..], mix)
  }

  /** One turn of the loop of PrimaryKey::hash. */
  function Mixing(digest: Digest): (nat, Value) -> nat {
    (before: nat, v: Value) => Xor(before, Doubled(HashOf(v, digest)))
  }

  lemma {:induction false} FoldedIsAWord(before: nat, data: Components, digest: Digest)
    requires before < WORD64
    ensures Folded(before, data, Mixing(digest)) < WORD64
    decreases data
  {
    if data != [] {
      XorIsAWord(before, Doubled(HashOf(data[0].value, digest)));
      FoldedIsAWord(Mixing(digest)(before, data[0].value), data[1..], digest);
    }
  }

  /** PrimaryKey::hash, over the components in the order of the iteration: a machine word. */
  function Hash(data: Components, digest: Digest): (hash: nat)
    ensures hash < WORD64
  {
    FoldedIsAWord(|data| % WORD64, data, digest);
    Folded(|data| % WORD64, data, Mixing(digest))
  }

  lemma FoldedOnce(before: nat, d: Data, rest: Components, digest: Digest)
    ensures Folded(before, [d] + rest, Mixing(digest)) ==
            Folded(Xor(before, (2 * OwnHash(d.value, digest)) % 0x1_0000_0000_0000_0000), rest, Mixing(digest))
  {
    assert ([d] + rest)[0] == d && ([d] + rest)[1..] == rest;
    assert HashOf(d.value, digest) == OwnHash(d.value, digest);
  }

  /** The hash by its parts: the size, and each component's own hash shifted by one. */
  lemma HashOfFew(d: Data, e: Data, digest: Digest)
    ensures Hash([], digest) == 0
    ensures Hash([d], digest) == Xor(1, (2 * OwnHash(d.value, digest)) % 0x1_0000_0000_0000_0000)
    ensures Hash([d, e], digest) ==
            Xor(Xor(2, (2 * OwnHash(d.value, digest)) % 0x1_0000_0000_0000_0000),
                (2 * OwnHash(e.value, digest)) % 0x1_0000_0000_0000_0000)
  {
    FoldedOnce(1, d, [], digest);
    FoldedOnce(2, d, [e], digest);
    FoldedOnce(Xor(2, (2 * OwnHash(d.value, digest)) % 0x1_0000_0000_0000_0000), e, [], digest);
    assert [d] + [] == [d] && [d] + [e] == [d, e] && [e] + [] == [e];
  }

  /** The seconds of a date, the size of a block, and what the library says of anything else. */
  function OwnHash(v: Value, digest: Digest): nat {
    match v
    case Date(seconds) => seconds % 0x1_0000_0000_0000_0000
    case TimeStamp(seconds) => seconds % 0x1_0000_0000_0000_0000
    case ShortBlock(bytes) => |bytes| % 0x1_0000_0000_0000_0000
    case LongBlock(bytes) => |bytes| % 0x1_0000_0000_0000_0000
    case _ => digest(v) % 0x1_0000_0000_0000_0000
  }

  ghost predicate Commutes(mix: (nat, Value) -> nat) {
    forall b: nat, v: Value, w: Value :: mix(mix(b, v), w) == mix(mix(b, w), v)
  }

  lemma MixingCommutes(digest: Digest)
    ensures Commutes(Mixing(digest))
  {
    forall b: nat, v: Value, w: Value
      ensures Mixing(digest)(Mixing(digest)(b, v), w) == Mixing(digest)(Mixing(digest)(b, w), v)
    {
      XorExchanges(b, Doubled(HashOf(v, digest)), Doubled(HashOf(w, digest)));
    }
  }

  function Without(data: Components, i: nat): Components
    requires i < |data|
  {
    data[..i] + data[i + 1..]
  }

  /** A component may be taken first, wherever it is. */
  lemma {:induction false} FoldedFirst(before: nat, data: Components, i: nat, mix: (nat, Value) -> nat)
    requires i < |data| && Commutes(mix)
    ensures Folded(before, data, mix) == Folded(mix(before, data[i].value), Without(data, i), mix)
    decreases i
  {
    if i == 0 {
      assert Without(data, 0) == data[1..];
    } else {
      FoldedFirst(mix(before, data[0].value), data[1..], i - 1, mix);
      assert Without(data, i)[1..] == Without(data[1..], i - 1) && Without(data, i)[0] == data[0];
    }
  }

  predicate Holds(data: Components, d: Data) {
    exists j :: 0 <= j < |data| && data[j].name == d.name && data[j].value == d.value
  }

  lemma HoldsWithout(other: Components, j: nat, d: Data)
    requires Holds(other, d) && j < |other| && other[j].name != d.name
    ensures Holds(Without(other, j), d)
  {
    var k :| 0 <= k < |other| && other[k].name == d.name && other[k].value == d.value;
    assert Without(other, j)[if k < j then k else k - 1] == other[k];
  }

  lemma ProperWithout(data: Components, j: nat)
    requires Proper(data) && j < |data|
    ensures Proper(Without(data, j))
  {
  }

  /** The same values under the same names fold alike, in whatever order they come. */
  lemma {:induction false} FoldedIgnoresOrder(before: nat, data: Components, other: Components, mix: (nat, Value) -> nat)
    requires Proper(data) && Proper(other) && |data| == |other| && Commutes(mix)
    requires forall i :: 0 <= i < |data| ==> Holds(other, data[i])
    ensures Folded(before, data, mix) == Folded(before, other, mix)
    decreases data
  {
    if data != [] {
      assert Holds(other, data[0]);
      var j :| 0 <= j < |other| && other[j].name == data[0].name && other[j].value == data[0].value;
      FoldedFirst(before, other, j, mix);
      forall i | 0 <= i < |data[1..]| ensures Holds(Without(other, j), data[1..][i]) {
        assert Holds(other, data[i + 1]);
        HoldsWithout(other, j, data[i + 1]);
      }
      ProperWithout(other, j);
      FoldedIgnoresOrder(mix(before, data[0].value), data[1..], Without(other, j), mix);
    }
  }

  // ----- equal keys hash equally ---------------------------------------------------------

  ghost predicate AllHaveValues(data: Components) {
    forall i :: 0 <= i < |data| ==> !data[i].isNull
  }

  /** Dates of the same name are less than 2^32 seconds apart. */
  ghost predicate DatesAreNear(data: Components, other: Components) {
    forall i :: 0 <= i < |data| && IsDate(data[i].value) ==> DateIsNear(other, data[i])
  }

  predicate DateIsNear(other: Components, d: Data)
    requires IsDate(d.value)
  {
    var j := Place(other, d.name);
    j < |other| && IsDate(other[j].value) ==> -WORD32 < d.value.seconds - other[j].value.seconds < WORD32
  }

  lemma NearMultiple(x: int)
    requires x % WORD32 == 0 && -WORD32 < x < WORD32
    ensures x == 0
  {
  }

  lemma AlikeHolds(other: Components, d: Data)
    requires HasAlike(other, d) && !d.isNull && (IsDate(d.value) ==> DateIsNear(other, d))
    ensures Holds(other, d)
  {
    var j := Place(other, d.name);
    if IsDate(d.value) { NearMultiple(d.value.seconds - other[j].value.seconds); }
    assert other[j].value == d.value;
  }

  /** One of the orders in which the iteration may visit the components. */
  ghost predicate Visits(order: Components, data: Components) {
    |order| == |data| && Proper(order) && forall d :: d in order <==> d in data
  }

  /** The hash does not depend on the order of the iteration. */
  lemma HashIgnoresIteration(data: Components, visited: Components, digest: Digest)
    requires Proper(data) && Visits(visited, data)
    ensures Hash(visited, digest) == Hash(data, digest)
  {
    forall i | 0 <= i < |visited| ensures Holds(data, visited[i]) {
      assert visited[i] in data;
    }
    MixingCommutes(digest);
    FoldedIgnoresOrder(|visited| % WORD64, visited, data, Mixing(digest));
  }

  /** Keys that compare equal hash equally, whatever the order of insertion or iteration. */
  lemma EqualKeysHashEqually(data: Components, other: Components, visited: Components, otherVisited: Components, digest: Digest)
    requires Proper(data) && Proper(other) && AllHaveValues(data) && DatesAreNear(data, other)
    requires Visits(visited, data) && Visits(otherVisited, other)
    requires Compare(data, other) == Order(0)
    ensures Hash(visited, digest) == Hash(otherVisited, digest)
  {
    CompareIsZero(data, other);
    forall i | 0 <= i < |visited| ensures Holds(otherVisited, visited[i]) {
      assert visited[i] in data;
      var k :| 0 <= k < |data| && data[k] == visited[i];
      assert HasAlike(other, data[k]);
      AlikeHolds(other, data[k]);
      var j :| 0 <= j < |other| && other[j].name == data[k].name && other[j].value == data[k].value;
      assert other[j] in otherVisited;
    }
    MixingCommutes(digest);
    FoldedIgnoresOrder(|visited| % WORD64, visited, otherVisited, Mixing(digest));
  }

  // ----- dates that compare equal and do not hash equally --------------------------------

  function WithSeconds(v: Value, seconds: int): (w: Value)
    requires IsDate(v)
    ensures Type(w) == Type(v)
  {
    if v.Date? then Date(seconds) else TimeStamp(seconds)
  }

  /** The same components, but for one date. */
  function Redated(data: Components, i: nat, seconds: int): (r: Components)
    requires i < |data| && IsDate(data[i].value)
  {
    data[i := data[i].(value := WithSeconds(data[i].value, seconds))]
  }

  /** The rest of the loop does not bring different results together again. */
  lemma {:induction false} FoldedTellsApart(a: nat, b: nat, data: Components, digest: Digest)
    requires Folded(a, data, Mixing(digest)) == Folded(b, data, Mixing(digest))
    ensures a == b
    decreases data
  {
    if data != [] {
      var h := Doubled(HashOf(data[0].value, digest));
      FoldedTellsApart(Xor(a, h), Xor(b, h), data[1..], digest);
      XorCancels(a, b, h);
    }
  }

  lemma MixingTellsApart(before: nat, v: Value, w: Value, digest: Digest)
    ensures Mixing(digest)(before, v) == Mixing(digest)(before, w) <==>
            Doubled(HashOf(v, digest)) == Doubled(HashOf(w, digest))
  {
    var x, y := Doubled(HashOf(v, digest)), Doubled(HashOf(w, digest));
    XorCommutes(before, x);
    XorCommutes(before, y);
    if Xor(before, x) == Xor(before, y) { XorCancels(x, y, before); }
  }

  lemma RedatedTurn(data: Components, i: nat, seconds: int, digest: Digest)
    requires i < |data| && IsDate(data[i].value)
    ensures var v, w := data[i].value, Redated(data, i, seconds)[i].value;
            Hash(data, digest) == Hash(Redated(data, i, seconds), digest) <==>
            Doubled(HashOf(v, digest)) == Doubled(HashOf(w, digest))
  {
    var other, mix, size := Redated(data, i, seconds), Mixing(digest), |data| % WORD64;
    var v, w := data[i].value, other[i].value;
    MixingCommutes(digest);
    FoldedFirst(size, data, i, mix);
    FoldedFirst(size, other, i, mix);
    assert Without(data, i) == Without(other, i);
    MixingTellsApart(size, v, w, digest);
    if Hash(data, digest) == Hash(other, digest) {
      FoldedTellsApart(mix(size, v), mix(size, w), Without(data, i), digest);
    }
  }

  lemma DateHashes(v: Value, seconds: int, digest: Digest)
    requires IsDate(v)
    ensures Doubled(HashOf(v, digest)) == Doubled(HashOf(WithSeconds(v, seconds), digest)) <==>
            (v.seconds - seconds) % WORD63 == 0
  {
    DoubledTellsApart(v.seconds, seconds);
  }

  /** Two keys that differ in one date hash equally if and only if the dates agree in all binary
      digits but the highest. */
  lemma RedatedHash(data: Components, i: nat, seconds: int, digest: Digest)
    requires i < |data| && IsDate(data[i].value)
    ensures Hash(data, digest) == Hash(Redated(data, i, seconds), digest) <==>
            (data[i].value.seconds - seconds) % WORD63 == 0
  {
    RedatedTurn(data, i, seconds, digest);
    DateHashes(data[i].value, seconds, digest);
  }

  /** Keys that compare equal and differ in one date, of less than 2^63 seconds, hash equally if
      and only if the dates are less than 2^32 seconds apart; in whatever order the components
      are visited. */
  lemma DatesHashEquallyIffNear(data: Components, i: nat, seconds: int, visited: Components, otherVisited: Components,
                                digest: Digest)
    requires Proper(data) && i < |data| && IsDate(data[i].value) && !data[i].isNull
    requires -WORD63 < data[i].value.seconds - seconds < WORD63
    requires Compare(data, Redated(data, i, seconds)) == Order(0)
    requires Visits(visited, data) && Visits(otherVisited, Redated(data, i, seconds))
    ensures Hash(visited, digest) == Hash(otherVisited, digest) <==>
            -WORD32 < data[i].value.seconds - seconds < WORD32
  {
    var other, apart := Redated(data, i, seconds), data[i].value.seconds - seconds;
    RedatedIsProper(data, i, seconds);
    HashIgnoresIteration(data, visited, digest);
    HashIgnoresIteration(other, otherVisited, digest);
    RedatedHash(data, i, seconds, digest);
    CompareIsZero(data, other);
    assert HasAlike(other, data[i]);
    PlaceOf(other, i);
    if -WORD32 < apart < WORD32 { NearMultiple(apart); }
  }

  lemma RedatedIsProper(data: Components, i: nat, seconds: int)
    requires Proper(data) && i < |data| && IsDate(data[i].value)
    ensures Proper(Redated(data, i, seconds))
  {
  }

  /** Two keys that compare equal and do not hash equally. */
  lemma FarDatesCompareEqual(digest: Digest)
    ensures var data, other := [Data("date", false, Date(0))], [Data("date", false, Date(WORD32))];
            Compare(data, other) == Order(0) && Hash(data, digest) != Hash(other, digest)
  {
    var data, other := [Data("date", false, Date(0))], [Data("date", false, Date(WORD32))];
    assert CompareFrom(data, other, 1) == Order(0);
    assert other == Redated(data, 0, WORD32);
    RedatedHash(data, 0, WORD32, digest);
  }
}
