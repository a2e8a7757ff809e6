/** Choosing a resource: the cyclic search that both strategies share, and what round robin
    promises over many calls. */
module Balance {
  import opened Bits


  /** Which resources of a list are available, by position. */
  type Availability = seq<bool>

  datatype Choice = Nobody | Chosen(index: nat)

  /** The position after `i`, back to the start at the end. */
  function Next(i: nat, n: nat): (r: nat)
    requires i < n
    ensures r < n
  {
    if i + 1 == n then 0 else i + 1
  }

  /** `k` positions after `start`. */
  function Ahead(start: nat, k: nat, n: nat): (r: nat)
    requires start < n && k <= n
    ensures r < n
  {
    if start + k < n then start + k else start + k - n
  }

  /** The search from `start`, after `k` resources that are not available. */
  function Search(a: Availability, start: nat, k: nat): (c: Choice)
    requires start < |a| && k <= |a|
    ensures c.Chosen? ==> c.index < |a|
    decreases |a| - k
  {
    if k == |a| then Nobody
    else if a[Ahead(start, k, |a|)] then Chosen(Ahead(start, k, |a|))
    else Search(a, start, k + 1)
  }

  lemma StepAhead(start: nat, k: nat, n: nat)
    requires start < n && k < n
    ensures Next(Ahead(start, k, n), n) == Ahead(start, k + 1, n)
    ensures Ahead(Next(start, n), k, n) == Ahead(start, k + 1, n)
  {
  }

  /** How far `i` is ahead of `start`. */
  function Distance(start: nat, i: nat, n: nat): (d: nat)
    requires start < n && i < n
    ensures d < n && Ahead(start, d, n) == i
  {
    if start <= i then i - start else i + n - start
  }

  lemma {:induction false} SearchFindsNearest(a: Availability, start: nat, k: nat)
    requires start < |a| && k <= |a|
    ensures var c := Search(a, start, k);
            match c
            case Nobody => forall j :: k <= j < |a| ==> !a[Ahead(start, j, |a|)]
            case Chosen(i) =>
              k <= Distance(start, i, |a|) && a[i] && forall j :: k <= j < Distance(start, i, |a|) ==> !a[Ahead(start, j, |a|)]
    decreases |a| - k
  {
    if k < |a| && !a[Ahead(start, k, |a|)] { SearchFindsNearest(a, start, k + 1); }
  }

  /** The search finds the nearest available resource, and fails only if there is none at all. */
  lemma SearchIsExact(a: Availability, start: nat)
    requires start < |a|
    ensures Search(a, start, 0).Nobody? <==> forall i :: 0 <= i < |a| ==> !a[i]
    ensures forall i: nat :: Search(a, start, 0) == Chosen(i) <==>
              i < |a| && a[i] && forall j :: 0 <= j < |a| && a[j] ==> Distance(start, i, |a|) <= Distance(start, j, |a|)
  {
    SearchFindsNearest(a, start, 0);
    var c := Search(a, start, 0);
    forall j | 0 <= j < |a| && a[j]
      ensures c.Chosen? && Distance(start, c.index, |a|) <= Distance(start, j, |a|)
    {
      assert a[Ahead(start, Distance(start, j, |a|), |a|)];
    }
    forall i: nat | i < |a| && a[i] && forall j :: 0 <= j < |a| && a[j] ==> Distance(start, i, |a|) <= Distance(start, j, |a|)
      ensures c == Chosen(i)
    {
      assert a[c.index] && Ahead(start, Distance(start, i, |a|), |a|) == i;
    }
  }

  // ----- round robin ---------------------------------------------------------------------

  /** Where the next call starts. */
  function After(a: Availability, position: nat): (r: nat)
    requires position < |a|
    ensures r < |a|
  {
    var c := Search(a, position, 0);
    if c.Chosen? then Next(c.index, |a|) else position
  }

  /** The choices of consecutive calls, while the availability changes between them. */
  function Choices(history: seq<Availability>, n: nat, position: nat): (r: seq<Choice>)
    requires position < n && forall t :: 0 <= t < |history| ==> |history[t]| == n
    ensures |r| == |history|
    decreases history
  {
    if history == [] then []
    else [Search(history[0], position, 0)] + Choices(history[1..], n, After(history[0], position))
  }

  /** A resource that stays available is chosen within as many calls as it is ahead, plus one. */
  lemma {:induction false} ChosenInTime(history: seq<Availability>, n: nat, position: nat, i: nat) returns (t: nat)
    requires position < n && i < n && Distance(position, i, n) < |history|
    requires forall t :: 0 <= t < |history| ==> |history[t]| == n && history[t][i]
    ensures t <= Distance(position, i, n) && Choices(history, n, position)[t] == Chosen(i)
    decreases history
  {
    var a := history[0];
    SearchIsExact(a, position);
    var c := Search(a, position, 0);
    if c == Chosen(i) {
      t := 0;
    } else {
      var next := After(a, position);
      assert Distance(next, i, n) < Distance(position, i, n);
      var rest := ChosenInTime(history[1..], n, next, i);
      t := rest + 1;
    }
  }

  /** Bounded fairness: whatever happens to the others, a resource that stays available is chosen
      in any run of as many calls as there are resources. */
  lemma BoundedFairness(history: seq<Availability>, n: nat, position: nat, i: nat)
    requires position < n && i < n && |history| == n
    requires forall t :: 0 <= t < |history| ==> |history[t]| == n && history[t][i]
    ensures Chosen(i) in Choices(history, n, position)
  {
    var t := ChosenInTime(history, n, position, i);
  }

  // ----- round robin while nothing changes -----------------------------------------------

  function Available(a: Availability): set<nat> {
    set i: nat | i < |a| && a[i]
  }

  /** `calls` consecutive choices over the same availability. */
  function Repeated(a: Availability, position: nat, calls: nat): (r: seq<Choice>)
    requires position < |a|
    ensures |r| == calls
    decreases calls
  {
    if calls == 0 then [] else [Search(a, position, 0)] + Repeated(a, After(a, position), calls - 1)
  }

  /** The available resources from `k` positions after `start` on, once round. */
  function Sweep(a: Availability, start: nat, k: nat): seq<Choice>
    requires start < |a| && k <= |a|
    decreases |a| - k
  {
    if k == |a| then []
    else
      var rest := Sweep(a, start, k + 1);
      if a[Ahead(start, k, |a|)] then [Chosen(Ahead(start, k, |a|))] + rest else rest
  }

  lemma {:induction false} SweepMembers(a: Availability, start: nat, k: nat)
    requires start < |a| && k <= |a|
    ensures forall c :: c in Sweep(a, start, k) <==>
              c.Chosen? && c.index < |a| && a[c.index] && k <= Distance(start, c.index, |a|)
    ensures forall s, t :: 0 <= s < t < |Sweep(a, start, k)| ==> Sweep(a, start, k)[s] != Sweep(a, start, k)[t]
    decreases |a| - k
  {
    if k < |a| {
      SweepMembers(a, start, k + 1);
      var here := Ahead(start, k, |a|);
      assert Distance(start, here, |a|) == k;
      assert forall i :: 0 <= i < |a| && Distance(start, i, |a|) == k ==> i == here;
    }
  }

  lemma {:induction false} SearchShifts(a: Availability, here: nat, j: nat)
    requires here < |a| && !a[here] && j < |a|
    ensures Search(a, here, j + 1) == Search(a, Next(here, |a|), j)
    decreases |a| - j
  {
    StepAhead(here, j, |a|);
    if j + 1 < |a| { SearchShifts(a, here, j + 1); }
  }

  /** Starting at a resource that is not available or right after it makes no difference. */
  lemma SearchSkips(a: Availability, here: nat)
    requires here < |a| && !a[here]
    ensures Search(a, here, 0) == Search(a, Next(here, |a|), 0)
  {
    assert Ahead(here, 0, |a|) == here;
    SearchShifts(a, here, 0);
  }

  lemma SameSearchSameCalls(a: Availability, p: nat, q: nat, calls: nat)
    requires p < |a| && q < |a| && Search(a, p, 0) == Search(a, q, 0) && Search(a, p, 0).Chosen?
    ensures Repeated(a, p, calls) == Repeated(a, q, calls)
  {
    assert After(a, p) == After(a, q);
  }

  /** Consecutive calls make one sweep. */
  lemma {:induction false} CallsSweep(a: Availability, start: nat, k: nat)
    requires start < |a| && k < |a|
    ensures Repeated(a, Ahead(start, k, |a|), |Sweep(a, start, k)|) == Sweep(a, start, k)
    decreases |a| - k
  {
    var here, rest := Ahead(start, k, |a|), Sweep(a, start, k + 1);
    StepAhead(start, k, |a|);
    if k + 1 < |a| { CallsSweep(a, start, k + 1); }
    if a[here] {
      assert Ahead(here, 0, |a|) == here;
      assert After(a, here) == Next(here, |a|);
    } else if rest != [] {
      SearchSkips(a, here);
      SweepMembers(a, start, k + 1);
      assert rest[0] in rest;
      SameSearchSameCalls(a, here, Next(here, |a|), |rest|);
    }
  }

  lemma {:induction false} DistinctCount(choices: seq<Choice>, indexes: set<nat>)
    requires forall s, t :: 0 <= s < t < |choices| ==> choices[s] != choices[t]
    requires forall c :: c in choices <==> c.Chosen? && c.index in indexes
    ensures |choices| == |indexes|
    decreases choices
  {
    if choices == [] {
      forall i: nat ensures i !in indexes { assert Chosen(i) !in choices; }
    } else {
      var last, rest := choices[|choices| - 1], choices[..|choices| - 1];
      assert choices == rest + [last];
      assert last in choices;
      DistinctCount(rest, indexes - {last.index});
    }
  }

  /** While the availability does not change, as many calls as there are available resources
      choose each of them exactly once. */
  lemma EachExactlyOnce(a: Availability, position: nat)
    requires position < |a|
    ensures var choices := Repeated(a, position, |Available(a)|);
            && (forall c :: c in choices <==> c.Chosen? && c.index in Available(a))
            && forall s, t :: 0 <= s < t < |choices| ==> choices[s] != choices[t]
  {
    SweepMembers(a, position, 0);
    DistinctCount(Sweep(a, position, 0), Available(a));
    assert Ahead(position, 0, |a|) == position;
    CallsSweep(a, position, 0);
  }

  // ----- indexed -------------------------------------------------------------------------

  /** The identifier as an unsigned number of 64 bits, modulo the number of resources. */
  function StartOf(identifier: int, n: nat): (i: nat)
    requires n > 0
    ensures i < n
  {
    (identifier % WORD64) % n
  }

  // ----- ranges --------------------------------------------------------------------------

  datatype Range<T> = Range(bottom: int, top: int, strategy: T)

  predicate Within(r: Range, x: int) {
    r.bottom <= x <= r.top
  }

  /** The three tests of StrategyByRange::addRange. */
  predicate Hides(bottom: int, top: int, r: Range) {
    || (bottom >= r.bottom && bottom <= r.top)
    || (top >= r.bottom && top <= r.top)
    || (bottom <= r.bottom && top >= r.top)
  }

  /** The tests find out whether some identifier would be in both ranges. */
  lemma HidesMeansSharing<T>(bottom: int, top: int, r: Range<T>)
    requires r.bottom <= r.top
    ensures bottom <= top ==> (Hides(bottom, top, r) <==> exists x :: bottom <= x <= top && Within(r, x))
  {
    if bottom <= top && Hides(bottom, top, r) {
      var x := if bottom >= r.bottom then bottom else r.bottom;
      assert bottom <= x <= top && Within(r, x);
    }
  }

  ghost predicate Disjoint<T>(ranges: seq<Range<T>>) {
    && (forall i :: 0 <= i < |ranges| ==> ranges[i].bottom <= ranges[i].top)
    && (forall i, j, x :: 0 <= i < j < |ranges| && Within(ranges[i], x) ==> !Within(ranges[j], x))
  }

  /** StrategyByRange::addRange, once the strategy is acceptable. */
  predicate Acceptable<T>(ranges: seq<Range<T>>, bottom: int, top: int) {
    bottom <= top && forall i :: 0 <= i < |ranges| ==> !Hides(bottom, top, ranges[i])
  }

  /** The test accepts exactly the ranges that leave all ranges disjoint. */
  lemma AcceptableKeepsDisjoint<T>(ranges: seq<Range<T>>, added: Range<T>)
    requires Disjoint(ranges)
    ensures Acceptable(ranges, added.bottom, added.top) <==> Disjoint(ranges + [added])
  {
    var all := ranges + [added];
    forall i | 0 <= i < |ranges| ensures all[i] == ranges[i] { HidesMeansSharing(added.bottom, added.top, ranges[i]); }
    assert all[|ranges|] == added && (Disjoint(all) ==> all[|ranges|].bottom <= added.top);
    if added.bottom <= added.top && Disjoint(all) {
      forall i | 0 <= i < |ranges| ensures !Hides(added.bottom, added.top, ranges[i]) {
        HidesMeansSharing(added.bottom, added.top, ranges[i]);
        forall x | added.bottom <= x <= added.top ensures !Within(ranges[i], x) {
          assert Within(all[|ranges|], x);
        }
      }
    }
    if Acceptable(ranges, added.bottom, added.top) {
      forall i, x | 0 <= i < |ranges| && Within(all[i], x) ensures !Within(added, x) {
        HidesMeansSharing(added.bottom, added.top, ranges[i]);
      }
    }
  }

  /** StrategyByRange::findRange. */
  function FindRange<T>(ranges: seq<Range<T>>, x: int): (k: nat)
    ensures k <= |ranges| && (k < |ranges| ==> Within(ranges[k], x))
    ensures forall i :: 0 <= i < k ==> !Within(ranges[i], x)
  {
    if ranges == [] || Within(ranges[0], x) then 0 else 1 + FindRange(ranges[1..], x)
  }

  /** Two lists of the same disjoint ranges route every identifier alike, whatever the order. */
  lemma RoutingIgnoresOrder<T>(ranges: seq<Range<T>>, shuffled: seq<Range<T>>, x: int)
    requires Disjoint(ranges) && Disjoint(shuffled) && forall r :: r in ranges <==> r in shuffled
    ensures var k, l := FindRange(ranges, x), FindRange(shuffled, x);
            (k == |ranges| <==> l == |shuffled|) && (k < |ranges| ==> ranges[k] == shuffled[l])
  {
    var k, l := FindRange(ranges, x), FindRange(shuffled, x);
    if k < |ranges| { assert ranges[k] in shuffled; }
    if l < |shuffled| { assert shuffled[l] in ranges; }
  }
}
