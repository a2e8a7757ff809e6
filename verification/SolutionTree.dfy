/** What the backtracking solver is for: the solutions of a search problem, as sequences of
    values, and the tree that is grown to hold them. */
module SolutionTree {

  /** The functions a solver is made of. `reject` and `accept` see the values from the root of
      the partial solution down to its last step. */
  datatype Problem<!T> = Problem(
    start: T,
    first: (int, T) -> T,
    stop: (int, T) -> bool,
    next: (int, T) -> T,
    reject: (seq<T>, T) -> bool,
    accept: (seq<T>, T) -> bool)

  /** Why a search ends: a bound on the candidates after a value, and a height that every
      partial solution lowers. */
  datatype Bounds<!T> = Bounds(count: (int, T) -> nat, height: seq<T> -> nat)

  datatype Tree<T> = Node(value: T, successors: seq<Tree<T>>)

  // ----- candidates ----------------------------------------------------------------------

  /** The iteration from `x` meets the stop condition within `n` steps. */
  ghost predicate Stops<T>(p: Problem<T>, depth: int, x: T, n: nat) {
    p.stop(depth, x) || (n > 0 && Stops(p, depth, p.next(depth, x), n - 1))
  }

  function Candidates<T>(p: Problem<T>, depth: int, x: T, n: nat): seq<T> {
    if p.stop(depth, x) || n == 0 then [] else [x] + Candidates(p, depth, p.next(depth, x), n - 1)
  }

  /** The candidates for the step at `depth` after the value `v`. */
  function Range<T>(p: Problem<T>, b: Bounds<T>, depth: int, v: T): seq<T> {
    Candidates(p, depth, p.first(depth, v), b.count(depth, v))
  }

  ghost predicate Distinct<T>(s: seq<T>) {
    forall i, j :: 0 <= i < j < |s| ==> s[i] != s[j]
  }

  lemma NextCandidate<T>(p: Problem<T>, depth: int, x: T, n: nat)
    requires Stops(p, depth, x, n) && !p.stop(depth, x)
    ensures n > 0 && Stops(p, depth, p.next(depth, x), n - 1)
    ensures Candidates(p, depth, x, n) == [x] + Candidates(p, depth, p.next(depth, x), n - 1)
  {
  }

  lemma {:induction false} StopsAtOnePlace<T>(p: Problem<T>, depth: int, x: T, n: nat, m: nat)
    requires Stops(p, depth, x, n) && Stops(p, depth, x, m)
    ensures Candidates(p, depth, x, n) == Candidates(p, depth, x, m)
  {
    if !p.stop(depth, x) {
      StopsAtOnePlace(p, depth, p.next(depth, x), n - 1, m - 1);
    }
  }

  lemma {:induction false} CandidatesFrom<T>(p: Problem<T>, depth: int, x: T, n: nat, i: nat)
    requires Stops(p, depth, x, n) && i < |Candidates(p, depth, x, n)|
    ensures i <= n && Stops(p, depth, Candidates(p, depth, x, n)[i], n - i)
    ensures |Candidates(p, depth, Candidates(p, depth, x, n)[i], n - i)| == |Candidates(p, depth, x, n)| - i
  {
    if i > 0 {
      CandidatesFrom(p, depth, p.next(depth, x), n - 1, i - 1);
    }
  }

  /** An iteration that stops never repeats a candidate. */
  lemma CandidatesAreDistinct<T>(p: Problem<T>, depth: int, x: T, n: nat)
    requires Stops(p, depth, x, n)
    ensures Distinct(Candidates(p, depth, x, n))
  {
    var s := Candidates(p, depth, x, n);
    forall i, j | 0 <= i < j < |s| ensures s[i] != s[j] {
      CandidatesFrom(p, depth, x, n, i);
      CandidatesFrom(p, depth, x, n, j);
      if s[i] == s[j] {
        StopsAtOnePlace(p, depth, s[i], n - i, n - j);
      }
    }
  }

  // ----- solutions -----------------------------------------------------------------------

  /** The candidates for the step after the partial solution `s`. */
  ghost function Steps<T>(p: Problem<T>, b: Bounds<T>, s: seq<T>): seq<T>
    requires s != []
  {
    Range(p, b, |s|, s[|s| - 1])
  }

  /** A partial solution: a first value in range, then candidates neither rejected nor accepted. */
  ghost predicate Partial<T>(p: Problem<T>, b: Bounds<T>, s: seq<T>) {
    if |s| <= 1 then |s| == 1 && s[0] in Range(p, b, 0, p.start)
    else
      var before, last := s[..|s| - 1], s[|s| - 1];
      Partial(p, b, before) && last in Steps(p, b, before) && !p.reject(before, last) && !p.accept(before, last)
  }

  /** A solution: a partial solution and one more candidate, not rejected, that is accepted. */
  ghost predicate Solution<T>(p: Problem<T>, b: Bounds<T>, s: seq<T>) {
    && |s| >= 2
    && var before, last := s[..|s| - 1], s[|s| - 1];
       Partial(p, b, before) && last in Steps(p, b, before) && !p.reject(before, last) && p.accept(before, last)
  }

  /** After the partial solution `s` the candidates run out. */
  ghost predicate Ends<T>(p: Problem<T>, b: Bounds<T>, s: seq<T>)
    requires s != []
  {
    Stops(p, |s|, p.first(|s|, s[|s| - 1]), b.count(|s|, s[|s| - 1]))
  }

  /** A partial solution is below the one it extends. */
  ghost predicate Lower<T>(b: Bounds<T>, s: seq<T>)
    requires s != []
  {
    b.height(s) < b.height(s[..|s| - 1])
  }

  /** The search is finite in breadth and in depth. */
  ghost predicate Finite<T(!new)>(p: Problem<T>, b: Bounds<T>) {
    && Stops(p, 0, p.first(0, p.start), b.count(0, p.start))
    && (forall s {:trigger Ends(p, b, s)} :: s != [] && Partial(p, b, s) ==> Ends(p, b, s))
    && (forall s {:trigger Lower(b, s)} :: |s| > 1 && Partial(p, b, s) ==> Lower(b, s))
  }

  /** The candidates in the order of the iteration: from `x` on by `next`, up to the first one that
      stops it, which is not a candidate any more. */
  lemma {:induction false} CandidatesInOrder<T>(p: Problem<T>, depth: int, x: T, n: nat)
    requires Stops(p, depth, x, n)
    ensures var s := Candidates(p, depth, x, n);
            && (forall i :: 0 <= i < |s| ==> !p.stop(depth, s[i]))
            && (forall i :: 0 <= i < |s| ==> s[i] == if i == 0 then x else p.next(depth, s[i - 1]))
            && p.stop(depth, if s == [] then x else p.next(depth, s[|s| - 1]))
  {
    if !p.stop(depth, x) { CandidatesInOrder(p, depth, p.next(depth, x), n - 1); }
  }

  /** Step by step: the value at `i` is a candidate after the values before it, and not rejected. */
  ghost predicate Continues<T>(p: Problem<T>, b: Bounds<T>, s: seq<T>, i: nat)
    requires 0 < i < |s|
  {
    s[i] in Candidates(p, i, p.first(i, s[i - 1]), b.count(i, s[i - 1])) && !p.reject(s[..i], s[i])
  }

  lemma {:induction false} PartialByIndex<T>(p: Problem<T>, b: Bounds<T>, s: seq<T>)
    requires s != []
    ensures Partial(p, b, s) <==>
            && s[0] in Candidates(p, 0, p.first(0, p.start), b.count(0, p.start))
            && forall i: nat {:trigger Continues(p, b, s, i)} :: 0 < i < |s| ==> Continues(p, b, s, i) && !p.accept(s[..i], s[i])
  {
    if |s| > 1 {
      var before := s[..|s| - 1];
      PartialByIndex(p, b, before);
      forall i: nat | 0 < i < |before| ensures Continues(p, b, before, i) <==> Continues(p, b, s, i) && before[..i] == s[..i] {
        assert before[..i] == s[..i];
      }
      if Partial(p, b, s) {
        forall i: nat | 0 < i < |s| ensures Continues(p, b, s, i) && !p.accept(s[..i], s[i]) {
          if i < |before| { assert Continues(p, b, before, i) && before[..i] == s[..i]; }
        }
      } else if forall i: nat {:trigger Continues(p, b, s, i)} :: 0 < i < |s| ==> Continues(p, b, s, i) && !p.accept(s[..i], s[i]) {
        forall i: nat | 0 < i < |before| ensures Continues(p, b, before, i) && !p.accept(before[..i], before[i]) {
          assert Continues(p, b, s, i) && before[..i] == s[..i];
        }
        assert Continues(p, b, s, |s| - 1);
      }
    }
  }

  /** A solution, value by value: a first value in range, then candidates that are not rejected, of
      which the last one and no other is accepted. */
  lemma SolutionByIndex<T>(p: Problem<T>, b: Bounds<T>, s: seq<T>)
    ensures Solution(p, b, s) <==>
            && |s| >= 2
            && s[0] in Candidates(p, 0, p.first(0, p.start), b.count(0, p.start))
            && (forall i: nat {:trigger Continues(p, b, s, i)} :: 0 < i < |s| ==>
                  Continues(p, b, s, i) && (p.accept(s[..i], s[i]) <==> i == |s| - 1))
  {
    if |s| >= 2 {
      var before := s[..|s| - 1];
      PartialByIndex(p, b, before);
      forall i: nat | 0 < i < |before| ensures Continues(p, b, before, i) <==> Continues(p, b, s, i) && before[..i] == s[..i] {
        assert before[..i] == s[..i];
      }
      if Solution(p, b, s) {
        forall i: nat | 0 < i < |s| ensures Continues(p, b, s, i) && (p.accept(s[..i], s[i]) <==> i == |s| - 1) {
          if i < |before| { assert Continues(p, b, before, i) && before[..i] == s[..i]; }
        }
      } else if forall i: nat {:trigger Continues(p, b, s, i)} :: 0 < i < |s| ==>
                  Continues(p, b, s, i) && (p.accept(s[..i], s[i]) <==> i == |s| - 1) {
        forall i: nat | 0 < i < |before| ensures Continues(p, b, before, i) && !p.accept(before[..i], before[i]) {
          assert Continues(p, b, s, i) && before[..i] == s[..i];
        }
        assert Continues(p, b, s, |s| - 1);
      }
    }
  }

  lemma PartialGrows<T(!new)>(p: Problem<T>, b: Bounds<T>, s: seq<T>, c: T)
    requires Finite(p, b) && Partial(p, b, s) && c in Steps(p, b, s)
    requires !p.reject(s, c) && !p.accept(s, c)
    ensures Partial(p, b, s + [c]) && b.height(s + [c]) < b.height(s)
  {
    var t := s + [c];
    assert t[..|t| - 1] == s;
    assert Lower(b, t);
  }

  lemma PartialPrefix<T>(p: Problem<T>, b: Bounds<T>, s: seq<T>, n: nat)
    requires Partial(p, b, s) && 1 <= n <= |s|
    ensures Partial(p, b, s[..n])
  {
    if n < |s| {
      PartialPrefix(p, b, s[..|s| - 1], n);
      assert s[..|s| - 1][..n] == s[..n];
    } else {
      assert s[..n] == s;
    }
  }

  // ----- the tree ------------------------------------------------------------------------

  /** What trying one candidate adds below a partial solution: nothing, or one subtree. */
  ghost function Branch<T(!new)>(p: Problem<T>, b: Bounds<T>, s: seq<T>, c: T): seq<Tree<T>>
    requires Finite(p, b) && Partial(p, b, s) && c in Steps(p, b, s)
    decreases b.height(s), 0, 0
  {
    if p.reject(s, c) then []
    else if p.accept(s, c) then [Node(c, [])]
    else
      PartialGrows(p, b, s, c);
      var below := Grow(p, b, s + [c], Steps(p, b, s + [c]));
      if below == [] then [] else [Node(c, below)]
  }

  ghost function Grow<T(!new)>(p: Problem<T>, b: Bounds<T>, s: seq<T>, cs: seq<T>): seq<Tree<T>>
    requires Finite(p, b) && Partial(p, b, s) && forall c :: c in cs ==> c in Steps(p, b, s)
    decreases b.height(s), 1, |cs|
  {
    if cs == [] then [] else Branch(p, b, s, cs[0]) + Grow(p, b, s, cs[1..])
  }

  lemma RootIsPartial<T>(p: Problem<T>, b: Bounds<T>, v: T)
    requires v in Range(p, b, 0, p.start)
    ensures Partial(p, b, [v])
  {
  }

  ghost function Root<T(!new)>(p: Problem<T>, b: Bounds<T>, v: T): seq<Tree<T>>
    requires Finite(p, b) && v in Range(p, b, 0, p.start)
  {
    RootIsPartial(p, b, v);
    var below := Grow(p, b, [v], Steps(p, b, [v]));
    if below == [] then [] else [Node(v, below)]
  }

  ghost function Roots<T(!new)>(p: Problem<T>, b: Bounds<T>, vs: seq<T>): seq<Tree<T>>
    requires Finite(p, b) && forall v :: v in vs ==> v in Range(p, b, 0, p.start)
  {
    if vs == [] then [] else Root(p, b, vs[0]) + Roots(p, b, vs[1..])
  }

  /** The tree of a whole search. */
  ghost function Search<T(!new)>(p: Problem<T>, b: Bounds<T>): seq<Tree<T>>
    requires Finite(p, b)
  {
    Roots(p, b, Range(p, b, 0, p.start))
  }

  /** The paths from the given nodes down to the leaves, left to right. */
  ghost function Paths<T>(ts: seq<Tree<T>>): seq<seq<T>> {
    if ts == [] then [] else PathsOf(ts[0]) + Paths(ts[1..])
  }

  ghost function PathsOf<T>(t: Tree<T>): seq<seq<T>> {
    if t.successors == [] then [[t.value]] else Under(t.value, Paths(t.successors))
  }

  ghost function Under<T>(v: T, paths: seq<seq<T>>): (r: seq<seq<T>>)
    ensures |r| == |paths| && forall i :: 0 <= i < |r| ==> r[i] == [v] + paths[i]
  {
    seq(|paths|, i requires 0 <= i < |paths| => [v] + paths[i])
  }

  // ----- soundness and completeness ------------------------------------------------------

  /** `s + q` is a solution that extends the partial solution `s`. */
  ghost predicate Completes<T>(p: Problem<T>, b: Bounds<T>, s: seq<T>, q: seq<T>) {
    q != [] && Solution(p, b, s + q)
  }

  lemma PathsOfFirst<T>(ts: seq<Tree<T>>)
    requires ts != []
    ensures Paths(ts) == PathsOf(ts[0]) + Paths(ts[1..])
  {
  }

  lemma Associate<X>(a: seq<X>, b: seq<X>, c: seq<X>)
    ensures a + (b + c) == a + b + c
  {
  }

  lemma {:induction false} PathsAppend<T>(a: seq<Tree<T>>, c: seq<Tree<T>>)
    ensures Paths(a + c) == Paths(a) + Paths(c)
  {
    if a == [] {
      assert a + c == c;
    } else {
      calc {
        Paths(a + c);
        { PathsOfFirst(a + c); assert (a + c)[1..] == a[1..] + c; }
        PathsOf(a[0]) + Paths(a[1..] + c);
        { PathsAppend(a[1..], c); }
        PathsOf(a[0]) + (Paths(a[1..]) + Paths(c));
        { Associate(PathsOf(a[0]), Paths(a[1..]), Paths(c)); }
        PathsOf(a[0]) + Paths(a[1..]) + Paths(c);
        { PathsOfFirst(a); }
        Paths(a) + Paths(c);
      }
    }
  }

  lemma OnePath<T>(t: Tree<T>)
    ensures Paths([t]) == PathsOf(t)
  {
    assert Paths([t]) == PathsOf(t) + Paths([t][1..]);
  }

  lemma PathsAreNonEmpty<T>(ts: seq<Tree<T>>, q: seq<T>)
    requires q in Paths(ts)
    ensures q != []
  {
    var i :| 0 <= i < |Paths(ts)| && Paths(ts)[i] == q;
    if i < |PathsOf(ts[0])| {
    } else {
      assert q == Paths(ts[1..])[i - |PathsOf(ts[0])|];
      PathsAreNonEmpty(ts[1..], q);
    }
  }

  /** A completion begins with an allowed candidate; it ends there iff the candidate is accepted. */
  lemma CompletionStep<T(!new)>(p: Problem<T>, b: Bounds<T>, s: seq<T>, c: T, q: seq<T>)
    requires Partial(p, b, s)
    ensures Completes(p, b, s, [c] + q) <==>
            && c in Steps(p, b, s) && !p.reject(s, c)
            && (if p.accept(s, c) then q == [] else Completes(p, b, s + [c], q))
  {
    assert s + ([c] + q) == s + [c] + q;
    if q == [] {
      assert (s + [c])[..|s|] == s;
    } else if Completes(p, b, s, [c] + q) {
      PassedStep(p, b, s, c, q);
    }
  }

  /** A solution that goes on after the candidate `c` has passed it without accepting it. */
  lemma PassedStep<T>(p: Problem<T>, b: Bounds<T>, s: seq<T>, c: T, q: seq<T>)
    requires s != [] && q != [] && Solution(p, b, s + [c] + q)
    ensures c in Steps(p, b, s) && !p.reject(s, c) && !p.accept(s, c)
  {
    var t := s + [c] + q;
    PartialPrefix(p, b, t[..|t| - 1], |s| + 1);
    assert t[..|t| - 1][..|s| + 1] == s + [c];
    assert (s + [c])[..|s|] == s;
  }

  /** Below a partial solution the tree holds exactly its completions. */
  lemma {:induction false} GrowIsExact<T(!new)>(p: Problem<T>, b: Bounds<T>, s: seq<T>, cs: seq<T>, q: seq<T>)
    requires Finite(p, b) && Partial(p, b, s) && forall c :: c in cs ==> c in Steps(p, b, s)
    ensures q in Paths(Grow(p, b, s, cs)) <==> q != [] && q[0] in cs && Completes(p, b, s, q)
    decreases b.height(s), 1, |cs|
  {
    if cs != [] {
      BranchIsExact(p, b, s, cs[0], q);
      GrowIsExact(p, b, s, cs[1..], q);
      PathsAppend(Branch(p, b, s, cs[0]), Grow(p, b, s, cs[1..]));
      assert forall c :: c in cs <==> c == cs[0] || c in cs[1..];
    }
  }

  lemma {:induction false} BranchIsExact<T(!new)>(p: Problem<T>, b: Bounds<T>, s: seq<T>, c: T, q: seq<T>)
    requires Finite(p, b) && Partial(p, b, s) && c in Steps(p, b, s)
    ensures q in Paths(Branch(p, b, s, c)) <==> q != [] && q[0] == c && Completes(p, b, s, q)
    decreases b.height(s), 0, 0
  {
    if q == [] {
      if q in Paths(Branch(p, b, s, c)) { PathsAreNonEmpty(Branch(p, b, s, c), q); }
    } else {
      var rest := q[1..];
      assert q == [q[0]] + rest;
      CompletionStep(p, b, s, q[0], rest);
      if p.reject(s, c) {
      } else if p.accept(s, c) {
        AcceptedPath(c, q);
      } else {
        PartialGrows(p, b, s, c);
        var t := s + [c];
        var below := Grow(p, b, t, Steps(p, b, t));
        GrowIsExact(p, b, t, Steps(p, b, t), rest);
        if Completes(p, b, t, rest) { FirstStepIsACandidate(p, b, t, rest); }
        PathsBelow(c, below, q);
      }
    }
  }

  lemma AcceptedPath<T>(c: T, q: seq<T>)
    requires q != []
    ensures q in Paths([Node(c, [])]) <==> q[0] == c && q[1..] == []
  {
    OnePath(Node(c, []));
    if q[1..] == [] { assert q == [q[0]]; }
  }

  lemma PathsBelow<T>(c: T, below: seq<Tree<T>>, q: seq<T>)
    requires q != []
    ensures q in Paths(if below == [] then [] else [Node(c, below)]) <==> q[0] == c && q[1..] in Paths(below)
  {
    if below != [] {
      OnePath(Node(c, below));
      InUnder(c, Paths(below), q);
    }
  }

  lemma FirstStepIsACandidate<T(!new)>(p: Problem<T>, b: Bounds<T>, s: seq<T>, q: seq<T>)
    requires Partial(p, b, s) && Completes(p, b, s, q)
    ensures q[0] in Steps(p, b, s)
  {
    assert q == [q[0]] + q[1..];
    CompletionStep(p, b, s, q[0], q[1..]);
  }

  lemma InUnder<T>(v: T, paths: seq<seq<T>>, q: seq<T>)
    requires q != []
    ensures q in Under(v, paths) <==> q[0] == v && q[1..] in paths
  {
    if q in Under(v, paths) {
      var i :| 0 <= i < |paths| && Under(v, paths)[i] == q;
      assert q[1..] == paths[i];
    }
    if q[0] == v && q[1..] in paths {
      var i :| 0 <= i < |paths| && paths[i] == q[1..];
      assert Under(v, paths)[i] == [v] + q[1..] == q;
    }
  }

  lemma RootIsExact<T(!new)>(p: Problem<T>, b: Bounds<T>, v: T, q: seq<T>)
    requires Finite(p, b) && v in Range(p, b, 0, p.start)
    ensures q in Paths(Root(p, b, v)) <==> q != [] && q[0] == v && Solution(p, b, q)
  {
    RootIsPartial(p, b, v);
    if q == [] {
      if q in Paths(Root(p, b, v)) { PathsAreNonEmpty(Root(p, b, v), q); }
    } else {
      var rest := q[1..];
      assert q == [q[0]] + rest;
      GrowIsExact(p, b, [v], Steps(p, b, [v]), rest);
      if Completes(p, b, [v], rest) { FirstStepIsACandidate(p, b, [v], rest); }
      PathsBelow(v, Grow(p, b, [v], Steps(p, b, [v])), q);
    }
  }

  lemma {:induction false} RootsAreExact<T(!new)>(p: Problem<T>, b: Bounds<T>, vs: seq<T>, q: seq<T>)
    requires Finite(p, b) && forall v :: v in vs ==> v in Range(p, b, 0, p.start)
    ensures q in Paths(Roots(p, b, vs)) <==> q != [] && q[0] in vs && Solution(p, b, q)
  {
    if vs != [] {
      RootIsExact(p, b, vs[0], q);
      RootsAreExact(p, b, vs[1..], q);
      PathsAppend(Root(p, b, vs[0]), Roots(p, b, vs[1..]));
      assert forall v :: v in vs <==> v == vs[0] || v in vs[1..];
    }
  }

  /** Soundness and completeness: the root-to-leaf paths are exactly the solutions. */
  lemma SearchIsExact<T(!new)>(p: Problem<T>, b: Bounds<T>, q: seq<T>)
    requires Finite(p, b)
    ensures q in Paths(Search(p, b)) <==> Solution(p, b, q)
  {
    RootsAreExact(p, b, Range(p, b, 0, p.start), q);
    if Solution(p, b, q) {
      PartialPrefix(p, b, q[..|q| - 1], 1);
      assert q[..|q| - 1][..1][0] == q[0];
    }
  }

  // ----- each solution once --------------------------------------------------------------

  lemma DistinctAppend<T>(a: seq<T>, c: seq<T>)
    requires Distinct(a) && Distinct(c) && forall x :: x in a ==> x !in c
    ensures Distinct(a + c)
  {
    var r := a + c;
    forall i, j | 0 <= i < j < |r| ensures r[i] != r[j] {
      if i < |a| <= j {
        assert r[i] in a && r[j] in c;
      }
    }
  }

  lemma UnderIsDistinct<T>(v: T, paths: seq<seq<T>>)
    requires Distinct(paths)
    ensures Distinct(Under(v, paths))
  {
    var r := Under(v, paths);
    forall i, j | 0 <= i < j < |r| ensures r[i] != r[j] {
      assert r[i][1..] == paths[i] && r[j][1..] == paths[j];
    }
  }

  lemma DistinctBelow<T>(c: T, below: seq<Tree<T>>)
    requires Distinct(Paths(below))
    ensures Distinct(Paths(if below == [] then [] else [Node(c, below)]))
  {
    if below != [] {
      OnePath(Node(c, below));
      UnderIsDistinct(c, Paths(below));
    }
  }

  lemma {:induction false} GrowIsDistinct<T(!new)>(p: Problem<T>, b: Bounds<T>, s: seq<T>, cs: seq<T>)
    requires Finite(p, b) && Partial(p, b, s) && Distinct(cs) && forall c :: c in cs ==> c in Steps(p, b, s)
    ensures Distinct(Paths(Grow(p, b, s, cs)))
    decreases b.height(s), 1, |cs|
  {
    if cs != [] {
      var one, rest := Branch(p, b, s, cs[0]), Grow(p, b, s, cs[1..]);
      GrowIsDistinct(p, b, s, cs[1..]);
      BranchIsDistinct(p, b, s, cs[0]);
      PathsAppend(one, rest);
      forall q | q in Paths(one) ensures q !in Paths(rest) {
        BranchIsExact(p, b, s, cs[0], q);
        GrowIsExact(p, b, s, cs[1..], q);
      }
      DistinctAppend(Paths(one), Paths(rest));
    }
  }

  lemma {:induction false} BranchIsDistinct<T(!new)>(p: Problem<T>, b: Bounds<T>, s: seq<T>, c: T)
    requires Finite(p, b) && Partial(p, b, s) && c in Steps(p, b, s)
    ensures Distinct(Paths(Branch(p, b, s, c)))
    decreases b.height(s), 0, 0
  {
    if p.reject(s, c) {
    } else if p.accept(s, c) {
      OnePath(Node(c, []));
    } else {
      PartialGrows(p, b, s, c);
      assert Ends(p, b, s + [c]);
      CandidatesAreDistinct(p, |s| + 1, p.first(|s| + 1, c), b.count(|s| + 1, c));
      GrowIsDistinct(p, b, s + [c], Steps(p, b, s + [c]));
      DistinctBelow(c, Grow(p, b, s + [c], Steps(p, b, s + [c])));
    }
  }

  lemma {:induction false} RootsAreDistinct<T(!new)>(p: Problem<T>, b: Bounds<T>, vs: seq<T>)
    requires Finite(p, b) && Distinct(vs) && forall v :: v in vs ==> v in Range(p, b, 0, p.start)
    ensures Distinct(Paths(Roots(p, b, vs)))
  {
    if vs != [] {
      var v := vs[0];
      var one, rest := Root(p, b, v), Roots(p, b, vs[1..]);
      RootsAreDistinct(p, b, vs[1..]);
      RootIsPartial(p, b, v);
      assert Ends(p, b, [v]);
      CandidatesAreDistinct(p, 1, p.first(1, v), b.count(1, v));
      GrowIsDistinct(p, b, [v], Steps(p, b, [v]));
      DistinctBelow(v, Grow(p, b, [v], Steps(p, b, [v])));
      PathsAppend(one, rest);
      forall q | q in Paths(one) ensures q !in Paths(rest) {
        RootIsExact(p, b, v, q);
        RootsAreExact(p, b, vs[1..], q);
      }
      DistinctAppend(Paths(one), Paths(rest));
    }
  }

  lemma {:induction false} DistinctSize<T>(s: seq<T>) returns (elements: set<T>)
    requires Distinct(s)
    ensures |elements| == |s| && forall x :: x in elements <==> x in s
  {
    if s == [] {
      elements := {};
    } else {
      var rest := DistinctSize(s[1..]);
      elements := {s[0]} + rest;
    }
  }

  /** The number of leaves of the tree is the number of solutions. */
  lemma LeavesCountSolutions<T(!new)>(p: Problem<T>, b: Bounds<T>) returns (solutions: set<seq<T>>)
    requires Finite(p, b)
    ensures forall q :: q in solutions <==> Solution(p, b, q)
    ensures |Paths(Search(p, b))| == |solutions|
    ensures Search(p, b) == [] <==> solutions == {}
  {
    var vs := Range(p, b, 0, p.start);
    CandidatesAreDistinct(p, 0, p.first(0, p.start), b.count(0, p.start));
    RootsAreDistinct(p, b, vs);
    solutions := DistinctSize(Paths(Search(p, b)));
    forall q ensures q in solutions <==> Solution(p, b, q) {
      SearchIsExact(p, b, q);
    }
    if Search(p, b) != [] {
      EveryTreeHasALeaf(Search(p, b)[0]);
    }
  }

  lemma SomeSolutionIffGrown<T(!new)>(p: Problem<T>, b: Bounds<T>)
    requires Finite(p, b)
    ensures Search(p, b) != [] <==> exists s :: Solution(p, b, s)
  {
    var solutions := LeavesCountSolutions(p, b);
    if solutions != {} {
      var s :| s in solutions;
      assert Solution(p, b, s);
    }
  }

  lemma {:induction false} EveryTreeHasALeaf<T>(t: Tree<T>)
    ensures PathsOf(t) != []
  {
    if t.successors != [] {
      EveryTreeHasALeaf(t.successors[0]);
    }
  }

  /** What countSolutions reports at the root of a finished search: the number of solutions,
      or 1 when there is none, because a root without successors is its own leaf. */
  lemma RootLeavesCountSolutions<T(!new)>(p: Problem<T>, b: Bounds<T>, root: Tree<T>) returns (solutions: set<seq<T>>)
    requires Finite(p, b) && root.successors == Search(p, b)
    ensures forall q :: q in solutions <==> Solution(p, b, q)
    ensures |PathsOf(root)| == if solutions == {} then 1 else |solutions|
  {
    solutions := LeavesCountSolutions(p, b);
  }

  // ----- the sums example of the repository is a finite search ---------------------------

  function Sum(s: seq<int>): int {
    if s == [] then 0 else Sum(s[..|s| - 1]) + s[|s| - 1]
  }

  /** All ways to write `n` as a sum of decreasing positive numbers. */
  function AddUp(n: int): Problem<int> {
    Problem(n, (d, v) => if v > 0 then v - 1 else 0, (d, v) => v <= 0, (d, v) => v - 1,
            (s, c) => Sum(s) + c > n, (s, c) => Sum(s) + c == n)
  }

  function AddUpBounds(n: int): Bounds<int> {
    Bounds((d, v) => if v > 0 then v else 0, s => if n > Sum(s) then n - Sum(s) else 0)
  }

  lemma CountdownStops(n: int, d: int, x: int, k: nat)
    requires x <= k
    ensures Stops(AddUp(n), d, x, k)
    ensures forall c :: c in Candidates(AddUp(n), d, x, k) ==> 0 < c <= x
    decreases k
  {
    if x > 0 {
      CountdownStops(n, d, x - 1, k - 1);
    }
  }

  lemma {:induction false} PartialSumsStayBelow(n: int, s: seq<int>)
    requires Partial(AddUp(n), AddUpBounds(n), s)
    ensures Sum(s) < n && s[|s| - 1] > 0
  {
    var p, b := AddUp(n), AddUpBounds(n);
    if |s| == 1 {
      CountdownStops(n, 0, p.first(0, n), b.count(0, n));
      assert Sum(s) == Sum(s[..0]) + s[0];
    } else {
      var before := s[..|s| - 1];
      PartialSumsStayBelow(n, before);
      var v := before[|before| - 1];
      CountdownStops(n, |before|, p.first(|before|, v), b.count(|before|, v));
    }
  }

  lemma AddUpIsFinite(n: int)
    ensures Finite(AddUp(n), AddUpBounds(n))
  {
    var p, b := AddUp(n), AddUpBounds(n);
    CountdownStops(n, 0, p.first(0, n), b.count(0, n));
    forall s | s != [] ensures Ends(p, b, s) {
      var v := s[|s| - 1];
      CountdownStops(n, |s|, p.first(|s|, v), b.count(|s|, v));
    }
    forall s | |s| > 1 && Partial(p, b, s) ensures Lower(b, s) {
      PartialSumsStayBelow(n, s);
    }
  }
}
