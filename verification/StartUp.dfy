/** Recursive start-up of services: a depth-first search with the marks Starting and Running,
    over the graph of selected requirements. */
module StartUp {
  import opened Options

  datatype Status = Stopped | Starting | Running | StoppedWithError

  /** For every attached service, what each of its requirements selects; None where select throws. */
  type Graph<+V> = map<V, seq<Option<V>>>

  /** The marks, the services whose do_initialize has completed, in order, and whether the call
      returned normally. */
  datatype Outcome<+V> = Outcome(status: map<V, Status>, log: seq<V>, ok: bool)

  ghost predicate Inside<V>(g: Graph<V>, requirements: seq<Option<V>>) {
    forall i :: 0 <= i < |requirements| && requirements[i].Some? ==> requirements[i].value in g
  }

  ghost predicate Closed<V>(g: Graph<V>) {
    forall v {:trigger Inside(g, g[v])} :: v in g ==> Inside(g, g[v])
  }

  function Idle<V>(status: map<V, Status>): set<V> {
    set v | v in status && status[v] != Starting
  }

  /** Nothing is being started. */
  ghost predicate Quiet<V>(status: map<V, Status>) {
    forall v :: v in status ==> status[v] != Starting
  }

  lemma StaysQuiet<V>(status: map<V, Status>, status': map<V, Status>)
    requires Quiet(status) && status'.Keys == status.Keys && Idle(status') == Idle(status)
    ensures Quiet(status')
  {
    forall v | v in status' ensures status'[v] != Starting { assert v in Idle(status); }
  }

  lemma MarkingShrinksIdle<V>(status: map<V, Status>, v: V)
    requires v in status && status[v] != Starting
    ensures |Idle(status[v := Starting])| < |Idle(status)|
  {
    assert Idle(status[v := Starting]) == Idle(status) - {v};
  }

  /** Service::initialize. `broken` holds the services whose do_initialize throws. */
  function Initialize<V(==)>(g: Graph<V>, broken: set<V>, status: map<V, Status>, log: seq<V>, v: V): (r: Outcome<V>)
    requires Closed(g) && status.Keys == g.Keys && v in g && status[v] != Starting
    ensures r.status.Keys == g.Keys && Idle(r.status) == Idle(status)
    decreases |Idle(status)|, 0
  {
    MarkingShrinksIdle(status, v);
    assert Inside(g, g[v]);
    Visit(g, broken, status[v := Starting], log, v, g[v])
  }

  /** The loop over the requirements, then do_initialize; a failure leaves the service stopped. */
  function Visit<V(==)>(g: Graph<V>, broken: set<V>, status: map<V, Status>, log: seq<V>, v: V,
                        requirements: seq<Option<V>>): (r: Outcome<V>)
    requires Closed(g) && status.Keys == g.Keys && v in g && status[v] == Starting
    requires Inside(g, requirements)
    ensures r.status.Keys == g.Keys && Idle(r.status) == Idle(status) + {v}
    decreases |Idle(status)|, 1 + |requirements|
  {
    if requirements == [] then
      if v in broken then Outcome(status[v := Stopped], log, false)
      else Outcome(status[v := Running], log + [v], true)
    else if requirements[0].None? then Outcome(status[v := Stopped], log, false)
    else
      var t := requirements[0].value;
      if status[t] == Running then Visit(g, broken, status, log, v, requirements[1..])
      else if status[t] == Starting then Outcome(status[v := Stopped], log, false)
      else
        var r := Initialize(g, broken, status, log, t);
        assert v !in Idle(r.status);
        if r.ok then Visit(g, broken, r.status, r.log, v, requirements[1..])
        else r.(status := r.status[v := Stopped])
  }

  /** One requirement of `v`: nothing to do if it runs, an error if it is missing or being
      started, and else its own start-up. */
  function Bring<V(==)>(g: Graph<V>, broken: set<V>, status: map<V, Status>, log: seq<V>, v: V,
                        requirement: Option<V>): (r: Outcome<V>)
    requires Closed(g) && status.Keys == g.Keys && v in g && status[v] == Starting
    requires requirement.Some? ==> requirement.value in g
    ensures r.status.Keys == g.Keys && Idle(r.status) == Idle(status) && r.status[v] == Starting
  {
    if requirement.None? then Outcome(status, log, false)
    else if status[requirement.value] == Running then Outcome(status, log, true)
    else if status[requirement.value] == Starting then Outcome(status, log, false)
    else
      var r := Initialize(g, broken, status, log, requirement.value);
      assert v !in Idle(r.status);
      r
  }

  lemma VisitNothing<V>(g: Graph<V>, broken: set<V>, status: map<V, Status>, log: seq<V>, v: V, requirements: seq<Option<V>>)
    requires Closed(g) && status.Keys == g.Keys && v in g && status[v] == Starting && requirements == []
    ensures Visit(g, broken, status, log, v, requirements) ==
            if v in broken then Outcome(status[v := Stopped], log, false) else Outcome(status[v := Running], log + [v], true)
  {
  }

  lemma VisitBrings<V>(g: Graph<V>, broken: set<V>, status: map<V, Status>, log: seq<V>, v: V, requirements: seq<Option<V>>)
    requires Closed(g) && status.Keys == g.Keys && v in g && status[v] == Starting && requirements != []
    requires Inside(g, requirements)
    ensures var r := Bring(g, broken, status, log, v, requirements[0]);
            Visit(g, broken, status, log, v, requirements) ==
            if r.ok then Visit(g, broken, r.status, r.log, v, requirements[1..]) else r.(status := r.status[v := Stopped])
  {
  }

  // ----- what must not be reachable ------------------------------------------------------

  ghost predicate Edge<V>(g: Graph<V>, v: V, t: V) {
    v in g && Some(t) in g[v]
  }

  ghost predicate Path<V>(g: Graph<V>, p: seq<V>) {
    p != [] && forall i :: 0 <= i < |p| - 1 ==> Edge(g, p[i], p[i + 1])
  }

  ghost predicate Reaches<V(!new)>(g: Graph<V>, v: V, t: V) {
    exists p :: Path(g, p) && p[0] == v && p[|p| - 1] == t
  }

  /** A path that ends in a requirement nobody offers, in a service that cannot start, or where
      it has been before. */
  ghost predicate Flaw<V>(g: Graph<V>, broken: set<V>, p: seq<V>) {
    && Path(g, p)
    && var last := p[|p| - 1];
       last in broken || (last in g && None in g[last]) || last in p[..|p| - 1]
  }

  ghost predicate Flawed<V(!new)>(g: Graph<V>, broken: set<V>, v: V) {
    exists p :: Flaw(g, broken, p) && p[0] == v
  }

  lemma ExtendPath<V>(g: Graph<V>, v: V, p: seq<V>)
    requires Path(g, p) && Edge(g, v, p[0])
    ensures Path(g, [v] + p)
  {
    var q := [v] + p;
    forall i | 0 <= i < |q| - 1 ensures Edge(g, q[i], q[i + 1]) {
      if i > 0 { assert q[i] == p[i - 1] && q[i + 1] == p[i]; }
    }
  }

  lemma AppendToPath<V>(g: Graph<V>, p: seq<V>, t: V)
    requires Path(g, p) && Edge(g, p[|p| - 1], t)
    ensures Path(g, p + [t])
  {
  }

  lemma FlawIsInherited<V(!new)>(g: Graph<V>, broken: set<V>, v: V, t: V)
    requires Edge(g, v, t) && Flawed(g, broken, t)
    ensures Flawed(g, broken, v)
  {
    var p :| Flaw(g, broken, p) && p[0] == t;
    ExtendPath(g, v, p);
    var q := [v] + p;
    if p[|p| - 1] in p[..|p| - 1] {
      var i :| 0 <= i < |p| - 1 && p[i] == p[|p| - 1];
      assert q[..|q| - 1][i + 1] == p[i];
    }
    assert Flaw(g, broken, q);
  }

  /** A service that reaches one it depends on lies on a loop. */
  lemma LoopIsAFlaw<V(!new)>(g: Graph<V>, broken: set<V>, v: V, t: V)
    requires Edge(g, v, t) && Reaches(g, t, v)
    ensures Flawed(g, broken, v)
  {
    var p :| Path(g, p) && p[0] == t && p[|p| - 1] == v;
    ExtendPath(g, v, p);
    var q := [v] + p;
    assert q[..|q| - 1][0] == v;
    assert Flaw(g, broken, q);
  }

  lemma ReachesNext<V(!new)>(g: Graph<V>, x: V, v: V, t: V)
    requires Reaches(g, x, v) && Edge(g, v, t)
    ensures Reaches(g, x, t)
  {
    var p :| Path(g, p) && p[0] == x && p[|p| - 1] == v;
    AppendToPath(g, p, t);
    var q := p + [t];
    assert q[0] == x && q[|q| - 1] == t;
  }

  lemma ReachesItself<V(!new)>(g: Graph<V>, v: V)
    ensures Reaches(g, v, v)
  {
    assert Path(g, [v]);
  }

  // ----- the invariant -------------------------------------------------------------------

  /** Every entry of the log works, and all its requirements were initialized before it. */
  ghost predicate Entry<V>(g: Graph<V>, broken: set<V>, log: seq<V>, i: int)
    requires 0 <= i < |log|
  {
    && log[i] in g && log[i] !in broken
    && forall r :: r in g[log[i]] ==> r.Some? && r.value in log[..i]
  }

  ghost predicate Ordered<V>(g: Graph<V>, broken: set<V>, log: seq<V>) {
    forall i {:trigger Entry(g, broken, log, i)} :: 0 <= i < |log| ==> Entry(g, broken, log, i)
  }

  /** The marks agree with the log: what runs has been initialized, in dependency order. */
  ghost predicate Consistent<V>(g: Graph<V>, broken: set<V>, status: map<V, Status>, log: seq<V>) {
    && Closed(g) && status.Keys == g.Keys
    && Ordered(g, broken, log)
    && (forall v :: v in g ==> (status[v] == Running ==> v in log))
    && (forall v :: v in log ==> v in g && (status[v] == Running || status[v] == Starting))
  }

  lemma FirstIndex<V>(log: seq<V>, v: V) returns (f: nat)
    requires v in log
    ensures f < |log| && log[f] == v && forall j :: 0 <= j < f ==> log[j] != v
  {
    if log[0] == v {
      f := 0;
    } else {
      var g := FirstIndex(log[1..], v);
      f := g + 1;
    }
  }

  lemma RequirementIsEarlier<V>(g: Graph<V>, broken: set<V>, log: seq<V>, i: nat, t: V) returns (j: nat)
    requires Ordered(g, broken, log) && i < |log| && Edge(g, log[i], t)
    ensures j < i && log[j] == t
  {
    assert Entry(g, broken, log, i);
    assert t in log[..i];
    j :| 0 <= j < i && log[..i][j] == t;
  }

  /** Following a path from entry `i` of the log ends at an entry that is not later, and that is
      earlier if there is a step. */
  lemma {:induction false} PathsGoBack<V(!new)>(g: Graph<V>, broken: set<V>, log: seq<V>, p: seq<V>, i: nat) returns (l: nat)
    requires Ordered(g, broken, log) && Path(g, p) && i < |log| && log[i] == p[0]
    ensures l <= i && log[l] == p[|p| - 1] && (|p| > 1 ==> l < i)
    decreases |p|
  {
    l := i;
    if |p| > 1 {
      assert Edge(g, p[0], p[1]);
      var j := RequirementIsEarlier(g, broken, log, i, p[1]);
      l := PathsGoBack(g, broken, log, p[1..], j);
    }
  }

  /** What has been initialized in order cannot reach a flaw. */
  lemma LoggedIsFlawless<V(!new)>(g: Graph<V>, broken: set<V>, log: seq<V>, v: V)
    requires Ordered(g, broken, log) && v in log
    ensures !Flawed(g, broken, v)
  {
    forall p | Flaw(g, broken, p) ensures p[0] != v {
      if p[0] == v {
        var i := FirstIndex(log, v);
        var l := PathsGoBack(g, broken, log, p, i);
        assert Entry(g, broken, log, l);
        var last := p[|p| - 1];
        var a :| 0 <= a < |p| - 1 && p[..|p| - 1][a] == last;
        var b := PathsGoBack(g, broken, log, p[..a + 1], i);
        var f := FirstIndex(log, last);
        var e := PathsGoBack(g, broken, log, p[a..], f);
      }
    }
  }

  // ----- initialize is exact -------------------------------------------------------------

  /** The services being started are the ones the search has come through. */
  ghost predicate OnTheWay<V(!new)>(g: Graph<V>, status: map<V, Status>, v: V) {
    forall x {:trigger Reaches(g, x, v)} :: x in status && status[x] == Starting ==> Reaches(g, x, v)
  }

  /** What a call of initialize on `v` promises. */
  ghost predicate Exact<V(!new)>(g: Graph<V>, broken: set<V>, status: map<V, Status>, v: V, r: Outcome<V>)
    requires status.Keys == g.Keys == r.status.Keys && v in g
  {
    && Consistent(g, broken, r.status, r.log)
    && (r.ok <==> !Flawed(g, broken, v))
    && (r.ok ==> r.status[v] == Running)
    && (!r.ok ==> r.status[v] == Stopped)
    && (forall x :: x in g && x != v ==> (r.status[x] == Starting <==> status[x] == Starting))
    && (forall x :: x in g && x != v ==> (status[x] == Running ==> r.status[x] == Running))
  }

  lemma {:induction false} InitializeIsExact<V(!new)>(g: Graph<V>, broken: set<V>, status: map<V, Status>, log: seq<V>, v: V)
    requires Consistent(g, broken, status, log) && v in g && status[v] != Starting
    requires OnTheWay(g, status, v)
    ensures Exact(g, broken, status, v, Initialize(g, broken, status, log, v))
    decreases |Idle(status)|, 0
  {
    var marked := status[v := Starting];
    MarkingShrinksIdle(status, v);
    ReachesItself(g, v);
    forall x | x in marked && marked[x] == Starting ensures Reaches(g, x, v) {}
    assert Inside(g, g[v]);
    VisitIsExact(g, broken, marked, log, v, 0);
  }

  /** The requirements of `v` before `n` are running. */
  lemma {:induction false} VisitIsExact<V(!new)>(g: Graph<V>, broken: set<V>, status: map<V, Status>, log: seq<V>, v: V, n: nat)
    requires Consistent(g, broken, status, log) && v in g && status[v] == Starting && n <= |g[v]|
    requires Inside(g, g[v]) && OnTheWay(g, status, v)
    requires forall i :: 0 <= i < n ==> g[v][i].Some? && status[g[v][i].value] == Running
    ensures Exact(g, broken, status, v, Visit(g, broken, status, log, v, g[v][n..]))
    decreases |Idle(status)|, 1 + |g[v]| - n
  {
    if n == |g[v]| {
      VisitEnds(g, broken, status, log, v);
    } else if g[v][n].None? {
      assert Flaw(g, broken, [v]);
      StoppingIsConsistent(g, broken, status, log, v);
    } else {
      var t := g[v][n].value;
      assert Edge(g, v, t);
      assert g[v][n..][1..] == g[v][n + 1..];
      if status[t] == Running {
        VisitIsExact(g, broken, status, log, v, n + 1);
      } else if status[t] == Starting {
        LoopIsAFlaw(g, broken, v, t);
        StoppingIsConsistent(g, broken, status, log, v);
      } else {
        forall x | x in status && status[x] == Starting ensures Reaches(g, x, t) { ReachesNext(g, x, v, t); }
        InitializeIsExact(g, broken, status, log, t);
        var r := Initialize(g, broken, status, log, t);
        if r.ok {
          forall x | x in r.status && r.status[x] == Starting ensures Reaches(g, x, v) {}
          VisitIsExact(g, broken, r.status, r.log, v, n + 1);
        } else {
          FlawIsInherited(g, broken, v, t);
          StoppingIsConsistent(g, broken, r.status, r.log, v);
        }
      }
    }
  }

  /** A service that has a flaw was never initialized, so stopping it keeps the agreement. */
  lemma StoppingIsConsistent<V(!new)>(g: Graph<V>, broken: set<V>, status: map<V, Status>, log: seq<V>, v: V)
    requires Consistent(g, broken, status, log) && v in g && Flawed(g, broken, v)
    ensures Consistent(g, broken, status[v := Stopped], log)
  {
    if v in log { LoggedIsFlawless(g, broken, log, v); }
  }

  lemma VisitEnds<V(!new)>(g: Graph<V>, broken: set<V>, status: map<V, Status>, log: seq<V>, v: V)
    requires Consistent(g, broken, status, log) && v in g && status[v] == Starting && Inside(g, g[v])
    requires forall i :: 0 <= i < |g[v]| ==> g[v][i].Some? && status[g[v][i].value] == Running
    ensures Exact(g, broken, status, v, Visit(g, broken, status, log, v, []))
  {
    if v in broken {
      assert Flaw(g, broken, [v]);
      StoppingIsConsistent(g, broken, status, log, v);
    } else {
      var log' := log + [v];
      forall i | 0 <= i < |log'| ensures Entry(g, broken, log', i) {
        if i < |log| {
          assert Entry(g, broken, log, i);
          assert log'[..i] == log[..i];
        } else {
          assert log'[..i] == log;
          forall r | r in g[v] ensures r.Some? && r.value in log {
            var k :| 0 <= k < |g[v]| && g[v][k] == r;
          }
        }
      }
      assert v in log';
      LoggedIsFlawless(g, broken, log', v);
    }
  }

  // ----- the promises --------------------------------------------------------------------

  /** From a state where nothing is being started, initialize succeeds exactly when no loop, no
      missing requirement and no failing service is reachable. On success everything reachable
      runs; in any case no service is left Starting and what runs was initialized after all its
      requirements. */
  lemma StartUpIsExact<V(!new)>(g: Graph<V>, broken: set<V>, status: map<V, Status>, log: seq<V>, v: V)
    requires Consistent(g, broken, status, log) && v in g
    requires Quiet(status)
    ensures var r := Initialize(g, broken, status, log, v);
            && Consistent(g, broken, r.status, r.log)
            && (r.ok <==> !Flawed(g, broken, v))
            && Quiet(r.status)
            && (r.ok ==> forall t :: Reaches(g, v, t) ==> t in g && r.status[t] == Running)
            && RunningIsClosed(g, r.status)
  {
    InitializeIsExact(g, broken, status, log, v);
    var r := Initialize(g, broken, status, log, v);
    RunningClosed(g, broken, r.status, r.log);
    if r.ok {
      forall t | Reaches(g, v, t) ensures t in g && r.status[t] == Running {
        var p :| Path(g, p) && p[0] == v && p[|p| - 1] == t;
        RunningAlong(g, r.status, p);
      }
    }
  }

  /** Whatever runs has only requirements that run. */
  ghost predicate RunningIsClosed<V(!new)>(g: Graph<V>, status: map<V, Status>)
    requires status.Keys == g.Keys
  {
    forall v, t {:trigger Edge(g, v, t)} :: v in g && status[v] == Running && Edge(g, v, t) ==>
      t in g && status[t] == Running
  }

  lemma RunningClosed<V(!new)>(g: Graph<V>, broken: set<V>, status: map<V, Status>, log: seq<V>)
    requires Consistent(g, broken, status, log) && Quiet(status)
    ensures RunningIsClosed(g, status)
  {
    forall v, t | v in g && status[v] == Running && Edge(g, v, t) ensures t in g && status[t] == Running {
      var i := FirstIndex(log, v);
      var j := RequirementIsEarlier(g, broken, log, i, t);
      assert t in log;
    }
  }

  lemma {:induction false} RunningAlong<V(!new)>(g: Graph<V>, status: map<V, Status>, p: seq<V>)
    requires status.Keys == g.Keys && RunningIsClosed(g, status)
    requires Path(g, p) && p[0] in g && status[p[0]] == Running
    ensures p[|p| - 1] in g && status[p[|p| - 1]] == Running
    decreases |p|
  {
    if |p| > 1 {
      assert Edge(g, p[0], p[1]);
      RunningAlong(g, status, p[1..]);
    }
  }

  // ----- Application::startServices ------------------------------------------------------

  /** Initializes the services one after another, also those that already run; stops at the
      first failure. In one turn do_initialize is called at most once for a service, so `brokens`
      says turn by turn for which services it throws. */
  function StartServices<V(==)>(g: Graph<V>, brokens: seq<set<V>>, status: map<V, Status>, log: seq<V>, vs: seq<V>): (r: Outcome<V>)
    requires Closed(g) && status.Keys == g.Keys && (forall v :: v in vs ==> v in g) && Quiet(status)
    requires |brokens| == |vs|
    ensures r.status.Keys == g.Keys && Quiet(r.status)
    decreases |vs|
  {
    if vs == [] then Outcome(status, log, true)
    else
      var r := Initialize(g, brokens[0], status, log, vs[0]);
      StaysQuiet(status, r.status);
      if r.ok then StartServices(g, brokens[1..], r.status, r.log, vs[1..]) else r
  }

  /** If do_initialize of a service always ends in the same way, the application starts exactly
      when no service has a flaw, and then everything runs. */
  lemma {:induction false} SteadyServicesAreExact<V(!new)>(g: Graph<V>, brokens: seq<set<V>>, broken: set<V>,
                                                           status: map<V, Status>, log: seq<V>, vs: seq<V>)
    requires Consistent(g, broken, status, log) && (forall v :: v in vs ==> v in g) && Quiet(status)
    requires |brokens| == |vs| && forall i :: 0 <= i < |brokens| ==> brokens[i] == broken
    ensures var r := StartServices(g, brokens, status, log, vs);
            && Consistent(g, broken, r.status, r.log)
            && (r.ok <==> forall v :: v in vs ==> !Flawed(g, broken, v))
            && (r.ok ==> forall v :: v in vs || (v in g && status[v] == Running) ==> r.status[v] == Running)
    decreases |vs|
  {
    if vs != [] {
      InitializeIsExact(g, broken, status, log, vs[0]);
      var r := Initialize(g, broken, status, log, vs[0]);
      if r.ok {
        SteadyServicesAreExact(g, brokens[1..], broken, r.status, r.log, vs[1..]);
      }
      assert forall v :: v in vs <==> v == vs[0] || v in vs[1..];
    }
  }

  // ----- how often do_initialize is called -----------------------------------------------

  function Times<V(==)>(log: seq<V>, v: V): nat {
    multiset(log)[v]
  }

  /** One call of initialize on `v` initializes what it newly brings to Running, once each; that
      includes `v`, even if `v` was running before. */
  ghost predicate Grows<V(!new)>(g: Graph<V>, status: map<V, Status>, log: seq<V>, v: V, r: Outcome<V>)
    requires status.Keys == g.Keys == r.status.Keys && v in g
  {
    && Times(r.log, v) == Times(log, v) + (if r.ok then 1 else 0)
    && (r.ok <==> r.status[v] == Running)
    && forall x :: x in g && x != v ==>
         && (status[x] == Running ==> r.status[x] == Running && Times(r.log, x) == Times(log, x))
         && (status[x] != Running && r.status[x] == Running ==> Times(r.log, x) == Times(log, x) + 1 && Reaches(g, v, x))
         && (r.status[x] != Running ==> Times(r.log, x) == Times(log, x))
  }

  lemma {:induction false} InitializeGrows<V(!new)>(g: Graph<V>, broken: set<V>, status: map<V, Status>, log: seq<V>, v: V)
    requires Closed(g) && status.Keys == g.Keys && v in g && status[v] != Starting
    ensures Grows(g, status, log, v, Initialize(g, broken, status, log, v))
    decreases |Idle(status)|, 0
  {
    MarkingShrinksIdle(status, v);
    assert Inside(g, g[v]);
    VisitGrows(g, broken, status[v := Starting], log, v, 0);
  }

  lemma {:induction false} VisitGrows<V(!new)>(g: Graph<V>, broken: set<V>, status: map<V, Status>, log: seq<V>, v: V, n: nat)
    requires Closed(g) && status.Keys == g.Keys && v in g && status[v] == Starting && n <= |g[v]| && Inside(g, g[v])
    ensures Grows(g, status, log, v, Visit(g, broken, status, log, v, g[v][n..]))
    decreases |Idle(status)|, 1 + |g[v]| - n
  {
    if n < |g[v]| && g[v][n].Some? {
      var t := g[v][n].value;
      assert Edge(g, v, t);
      assert g[v][n..][1..] == g[v][n + 1..];
      if status[t] == Running {
        VisitGrows(g, broken, status, log, v, n + 1);
      } else if status[t] != Starting {
        InitializeGrows(g, broken, status, log, t);
        var r := Initialize(g, broken, status, log, t);
        assert v !in Idle(r.status);
        if r.ok {
          VisitGrows(g, broken, r.status, r.log, v, n + 1);
          GrowthAdds(g, status, log, v, t, r, Visit(g, broken, r.status, r.log, v, g[v][n + 1..]));
        } else {
          GrowthStops(g, status, log, v, t, r);
        }
      }
    }
  }

  lemma GrowthAdds<V(!new)>(g: Graph<V>, status: map<V, Status>, log: seq<V>, v: V, t: V, r: Outcome<V>, end: Outcome<V>)
    requires status.Keys == g.Keys == r.status.Keys == end.status.Keys && v in g && t in g && t != v && Edge(g, v, t)
    requires status[v] == Starting && r.status[v] == Starting && status[t] != Running
    requires r.ok && Grows(g, status, log, t, r) && Grows(g, r.status, r.log, v, end)
    ensures Grows(g, status, log, v, end)
  {
    ReachesItself(g, t);
    ReachesFrom(g, v, t, t);
    forall x | x in g && x != v && status[x] != Running && end.status[x] == Running
      ensures Times(end.log, x) == Times(log, x) + 1 && Reaches(g, v, x)
    {
      if r.status[x] == Running && x != t { ReachesFrom(g, v, t, x); }
    }
  }

  lemma GrowthStops<V(!new)>(g: Graph<V>, status: map<V, Status>, log: seq<V>, v: V, t: V, r: Outcome<V>)
    requires status.Keys == g.Keys == r.status.Keys && v in g && t in g && t != v && Edge(g, v, t)
    requires status[v] == Starting && r.status[v] == Starting && status[t] != Running
    requires !r.ok && Grows(g, status, log, t, r)
    ensures Grows(g, status, log, v, r.(status := r.status[v := Stopped]))
  {
    forall x | x in g && x != v && status[x] != Running && r.status[x] == Running
      ensures Times(r.log, x) == Times(log, x) + 1 && Reaches(g, v, x)
    {
      ReachesFrom(g, v, t, x);
    }
  }

  lemma ReachesFrom<V(!new)>(g: Graph<V>, v: V, t: V, x: V)
    requires Edge(g, v, t) && Reaches(g, t, x)
    ensures Reaches(g, v, x)
  {
    var p :| Path(g, p) && p[0] == t && p[|p| - 1] == x;
    ExtendPath(g, v, p);
    var q := [v] + p;
    assert q[0] == v && q[|q| - 1] == x;
  }

  /** Some service whose turn has come, one of the first `k`, leads to `x`. */
  ghost predicate Required<V(!new)>(g: Graph<V>, vs: seq<V>, k: nat, x: V)
    requires k <= |vs|
  {
    exists j {:trigger vs[j]} :: 0 <= j < k && Reaches(g, vs[j], x)
  }

  ghost predicate RunsIfRequired<V(!new)>(g: Graph<V>, status: map<V, Status>, vs: seq<V>, k: nat, x: V)
    requires k <= |vs| && x in status
  {
    status[x] == Running <==> Required(g, vs, k, x)
  }

  /** How often a service has been initialized after the turns of the first `k`. */
  ghost predicate Counted<V(!new)>(g: Graph<V>, status: map<V, Status>, log: seq<V>, vs: seq<V>, k: nat, i: nat)
    requires i < |vs| && vs[i] in status
  {
    Times(log, vs[i]) == if i < k then (if Required(g, vs, i, vs[i]) then 2 else 1)
                         else if status[vs[i]] == Running then 1 else 0
  }

  /** The count after the turns of the first `k` services: what runs is what they lead to, and
      a service has been initialized once for that and once for its own turn. */
  ghost predicate Tally<V(!new)>(g: Graph<V>, status: map<V, Status>, log: seq<V>, vs: seq<V>, k: nat)
    requires status.Keys == g.Keys && k <= |vs| && forall v :: v in vs ==> v in g
  {
    && (forall x {:trigger RunsIfRequired(g, status, vs, k, x)} :: x in g ==> RunsIfRequired(g, status, vs, k, x))
    && (forall i: nat {:trigger Counted(g, status, log, vs, k, i)} :: i < |vs| ==> Counted(g, status, log, vs, k, i))
  }

  lemma RequiredNext<V(!new)>(g: Graph<V>, vs: seq<V>, k: nat, x: V)
    requires k < |vs|
    ensures Required(g, vs, k + 1, x) <==> Required(g, vs, k, x) || Reaches(g, vs[k], x)
  {
  }

  lemma RunningMoves<V(!new)>(g: Graph<V>, status: map<V, Status>, log: seq<V>, vs: seq<V>, k: nat, r: Outcome<V>, x: V)
    requires status.Keys == g.Keys == r.status.Keys && k < |vs| && vs[k] in g && x in g
    requires RunsIfRequired(g, status, vs, k, x)
    requires r.ok && Grows(g, status, log, vs[k], r)
    requires Reaches(g, vs[k], x) ==> r.status[x] == Running
    ensures RunsIfRequired(g, r.status, vs, k + 1, x)
  {
    RequiredNext(g, vs, k, x);
    ReachesItself(g, vs[k]);
  }

  lemma TimesMove<V(!new)>(g: Graph<V>, status: map<V, Status>, log: seq<V>, vs: seq<V>, k: nat, r: Outcome<V>, i: nat)
    requires status.Keys == g.Keys == r.status.Keys && k < |vs| && i < |vs| && vs[i] in g && vs[k] in g
    requires i != k ==> vs[i] != vs[k]
    requires RunsIfRequired(g, status, vs, k, vs[i]) && Counted(g, status, log, vs, k, i)
    requires r.ok && Grows(g, status, log, vs[k], r)
    ensures Counted(g, r.status, r.log, vs, k + 1, i)
  {
    if i < k {
      ReachesItself(g, vs[i]);
      assert Required(g, vs, k, vs[i]);
    }
  }

  lemma TallyMoves<V(!new)>(g: Graph<V>, status: map<V, Status>, log: seq<V>, vs: seq<V>, k: nat, r: Outcome<V>)
    requires status.Keys == g.Keys == r.status.Keys && k < |vs| && (forall v :: v in vs ==> v in g)
    requires forall i, j :: 0 <= i < j < |vs| ==> vs[i] != vs[j]
    requires Tally(g, status, log, vs, k) && r.ok && Grows(g, status, log, vs[k], r)
    requires forall t :: Reaches(g, vs[k], t) ==> t in g && r.status[t] == Running
    ensures Tally(g, r.status, r.log, vs, k + 1)
  {
    forall x | x in g ensures RunsIfRequired(g, r.status, vs, k + 1, x) {
      assert RunsIfRequired(g, status, vs, k, x);
      RunningMoves(g, status, log, vs, k, r, x);
    }
    forall i: nat {:trigger Counted(g, r.status, r.log, vs, k + 1, i)} | i < |vs| ensures Counted(g, r.status, r.log, vs, k + 1, i) {
      assert RunsIfRequired(g, status, vs, k, vs[i]) && Counted(g, status, log, vs, k, i);
      TimesMove(g, status, log, vs, k, r, i);
    }
  }

  // ----- a turn, whatever do_initialize did before ---------------------------------------

  /** The two sets agree on the services that may be initialized. */
  ghost predicate SameThreats<V>(g: Graph<V>, broken: set<V>, broken': set<V>, status: map<V, Status>, v: V)
    requires status.Keys == g.Keys
  {
    forall x :: x in g && (status[x] != Running || x == v) ==> (x in broken <==> x in broken')
  }

  lemma {:induction false} InitializeIgnoresRunning<V(!new)>(g: Graph<V>, broken: set<V>, broken': set<V>,
                                                             status: map<V, Status>, log: seq<V>, v: V)
    requires Closed(g) && status.Keys == g.Keys && v in g && status[v] != Starting
    requires SameThreats(g, broken, broken', status, v)
    ensures Initialize(g, broken, status, log, v) == Initialize(g, broken', status, log, v)
    decreases |Idle(status)|, 0
  {
    MarkingShrinksIdle(status, v);
    assert Inside(g, g[v]);
    VisitIgnoresRunning(g, broken, broken', status[v := Starting], log, v, 0);
    assert g[v][0..] == g[v];
  }

  lemma {:induction false} VisitIgnoresRunning<V(!new)>(g: Graph<V>, broken: set<V>, broken': set<V>,
                                                        status: map<V, Status>, log: seq<V>, v: V, n: nat)
    requires Closed(g) && status.Keys == g.Keys && v in g && status[v] == Starting && n <= |g[v]| && Inside(g, g[v])
    requires SameThreats(g, broken, broken', status, v)
    ensures Visit(g, broken, status, log, v, g[v][n..]) == Visit(g, broken', status, log, v, g[v][n..])
    decreases |Idle(status)|, 1 + |g[v]| - n
  {
    if n < |g[v]| && g[v][n].Some? {
      var t := g[v][n].value;
      assert g[v][n..][1..] == g[v][n + 1..];
      if status[t] == Running {
        VisitIgnoresRunning(g, broken, broken', status, log, v, n + 1);
      } else if status[t] != Starting {
        InitializeIgnoresRunning(g, broken, broken', status, log, t);
        InitializeGrows(g, broken, status, log, t);
        var r := Initialize(g, broken, status, log, t);
        assert v !in Idle(r.status);
        if r.ok { VisitIgnoresRunning(g, broken, broken', r.status, r.log, v, n + 1); }
      }
    }
  }

  /** The services that throw and do not run yet. */
  function Threats<V(==)>(g: Graph<V>, broken: set<V>, status: map<V, Status>): set<V>
    requires status.Keys == g.Keys
  {
    set x | x in broken && x in g && status[x] != Running
  }

  /** What a turn needs to succeed. */
  ghost predicate Works<V(!new)>(g: Graph<V>, broken: set<V>, status: map<V, Status>, v: V)
    requires status.Keys == g.Keys && v in g
  {
    if status[v] == Running then v !in broken else !Flawed(g, Threats(g, broken, status), v)
  }

  lemma ThreatsAreNotLogged<V(!new)>(g: Graph<V>, broken: set<V>, status: map<V, Status>, log: seq<V>)
    requires Consistent(g, {}, status, log) && Quiet(status)
    ensures Consistent(g, Threats(g, broken, status), status, log)
  {
    forall i | 0 <= i < |log| ensures Entry(g, Threats(g, broken, status), log, i) {
      assert Entry(g, {}, log, i);
      assert log[i] in log;
    }
  }

  lemma FewerThreats<V(!new)>(g: Graph<V>, broken: set<V>, status: map<V, Status>, log: seq<V>)
    requires Consistent(g, broken, status, log)
    ensures Consistent(g, {}, status, log)
  {
    forall i | 0 <= i < |log| ensures Entry(g, {}, log, i) { assert Entry(g, broken, log, i); }
  }

  lemma {:induction false} VisitPassesRunning<V(!new)>(g: Graph<V>, broken: set<V>, status: map<V, Status>, log: seq<V>,
                                                       v: V, n: nat)
    requires Closed(g) && status.Keys == g.Keys && v in g && status[v] == Starting && n <= |g[v]| && Inside(g, g[v])
    requires forall i :: 0 <= i < |g[v]| ==> g[v][i].Some? && status[g[v][i].value] == Running
    ensures Visit(g, broken, status, log, v, g[v][n..]) == Visit(g, broken, status, log, v, [])
    decreases |g[v]| - n
  {
    if n < |g[v]| {
      assert g[v][n..][1..] == g[v][n + 1..];
      VisitPassesRunning(g, broken, status, log, v, n + 1);
    }
  }

  lemma RunningIsRequired<V(!new)>(g: Graph<V>, status: map<V, Status>, log: seq<V>, v: V, t: V)
    requires Consistent(g, {}, status, log) && Quiet(status) && v in g && status[v] == Running && Edge(g, v, t)
    ensures t in g && status[t] == Running && t != v
  {
    RunningClosed(g, {}, status, log);
    var i := FirstIndex(log, v);
    var j := RequirementIsEarlier(g, {}, log, i, t);
  }

  /** Initializing a service that runs calls its do_initialize again, and nothing else. */
  lemma AgainIsExact<V(!new)>(g: Graph<V>, broken: set<V>, status: map<V, Status>, log: seq<V>, v: V)
    requires Consistent(g, {}, status, log) && Quiet(status) && v in g && status[v] == Running
    ensures Initialize(g, broken, status, log, v) ==
            if v in broken then Outcome(status[v := Stopped], log, false) else Outcome(status, log + [v], true)
  {
    var marked := status[v := Starting];
    MarkingShrinksIdle(status, v);
    assert Inside(g, g[v]);
    var i := FirstIndex(log, v);
    assert Entry(g, {}, log, i);
    forall j | 0 <= j < |g[v]| ensures g[v][j].Some? && marked[g[v][j].value] == Running {
      assert g[v][j] in g[v];
      RunningIsRequired(g, status, log, v, g[v][j].value);
    }
    VisitPassesRunning(g, broken, marked, log, v, 0);
    assert g[v][0..] == g[v];
    assert marked[v := Running] == status && marked[v := Stopped] == status[v := Stopped];
  }

  lemma TurnIsExact<V(!new)>(g: Graph<V>, broken: set<V>, status: map<V, Status>, log: seq<V>, v: V)
    requires Consistent(g, {}, status, log) && Quiet(status) && v in g
    ensures var r := Initialize(g, broken, status, log, v);
            && (r.ok <==> Works(g, broken, status, v))
            && (r.ok || status[v] != Running ==> Consistent(g, {}, r.status, r.log))
            && (r.ok ==> Quiet(r.status) && forall t :: Reaches(g, v, t) ==> t in g && r.status[t] == Running)
            && (!r.ok && status[v] != Running ==> RunningIsClosed(g, r.status))
  {
    if status[v] == Running {
      AgainIsExact(g, broken, status, log, v);
      if v !in broken { AgainStaysConsistent(g, status, log, v); }
    } else {
      var threats := Threats(g, broken, status);
      ThreatsAreNotLogged(g, broken, status, log);
      InitializeIgnoresRunning(g, broken, threats, status, log, v);
      StartUpIsExact(g, threats, status, log, v);
      var r := Initialize(g, broken, status, log, v);
      FewerThreats(g, threats, r.status, r.log);
    }
  }

  lemma AgainStaysConsistent<V(!new)>(g: Graph<V>, status: map<V, Status>, log: seq<V>, v: V)
    requires Consistent(g, {}, status, log) && Quiet(status) && v in g && status[v] == Running
    ensures Consistent(g, {}, status, log + [v])
    ensures forall t :: Reaches(g, v, t) ==> t in g && status[t] == Running
  {
    var log' := log + [v];
    var f := FirstIndex(log, v);
    forall i | 0 <= i < |log'| ensures Entry(g, {}, log', i) {
      var k := if i < |log| then i else f;
      assert Entry(g, {}, log, k);
      assert log'[i] == log[k];
      forall x | x in log[..k] ensures x in log'[..i] {
        var a :| 0 <= a < k && log[..k][a] == x;
        assert log'[..i][a] == x;
      }
    }
    RunningClosed(g, {}, status, log);
    forall t | Reaches(g, v, t) ensures t in g && status[t] == Running {
      var p :| Path(g, p) && p[0] == v && p[|p| - 1] == t;
      RunningAlong(g, status, p);
    }
  }

  /** Stopping a service that runs strands the services that require it. */
  lemma StoppingStrands<V(!new)>(g: Graph<V>, status: map<V, Status>, log: seq<V>, vs: seq<V>, k: nat)
    requires Consistent(g, {}, status, log) && Quiet(status) && (forall v :: v in vs ==> v in g)
    requires k < |vs| && forall i, j :: 0 <= i < j < |vs| ==> vs[i] != vs[j]
    requires Required(g, vs, k, vs[k])
    requires forall x {:trigger RunsIfRequired(g, status, vs, k, x)} :: x in g ==> RunsIfRequired(g, status, vs, k, x)
    ensures !RunningIsClosed(g, status[vs[k] := Stopped])
  {
    var v := vs[k];
    var j :| 0 <= j < k && Reaches(g, vs[j], v);
    var p :| Path(g, p) && p[0] == vs[j] && p[|p| - 1] == v;
    assert |p| >= 2;
    var q, x := p[..|p| - 1], p[|p| - 2];
    assert Edge(g, p[|p| - 2], p[|p| - 1]);
    assert Path(g, q) && q[0] == vs[j] && q[|q| - 1] == x;
    assert Required(g, vs, k, x);
    assert RunsIfRequired(g, status, vs, k, x);
    RunningIsRequired(g, status, log, x, v);
    assert Edge(g, x, v);
  }

  // ----- the whole start-up --------------------------------------------------------------

  ghost function NewThreats<V(!new)>(g: Graph<V>, broken: set<V>, vs: seq<V>, i: nat): set<V>
    requires i <= |vs|
  {
    set x | x in broken && x in g && !Required(g, vs, i, x)
  }

  /** The turn of a service that an earlier one leads to only calls its do_initialize again; any
      other turn needs that no loop, no missing requirement and no service that would throw is
      reachable, where services that earlier ones lead to do not count. */
  ghost predicate TurnWorks<V(!new)>(g: Graph<V>, brokens: seq<set<V>>, vs: seq<V>, i: nat)
    requires |brokens| == |vs| && i < |vs|
  {
    if Required(g, vs, i, vs[i]) then vs[i] !in brokens[i] else !Flawed(g, NewThreats(g, brokens[i], vs, i), vs[i])
  }

  /** The turn that fails first. */
  ghost predicate FailsFirst<V(!new)>(g: Graph<V>, brokens: seq<set<V>>, vs: seq<V>, k: nat, i: nat)
    requires |brokens| == |vs|
  {
    && k <= i < |vs| && !TurnWorks(g, brokens, vs, i)
    && forall j: nat {:trigger TurnWorks(g, brokens, vs, j)} :: k <= j < i ==> TurnWorks(g, brokens, vs, j)
  }

  /** A failed start-up leaves the running services closed under requirements, unless the turn that
      failed was the second one of its service. */
  ghost predicate FailedSomewhere<V(!new)>(g: Graph<V>, brokens: seq<set<V>>, vs: seq<V>, k: nat, status: map<V, Status>)
    requires |brokens| == |vs| && status.Keys == g.Keys
  {
    exists i: nat ::
      FailsFirst(g, brokens, vs, k, i) && (RunningIsClosed(g, status) <==> !Required(g, vs, i, vs[i]))
  }

  /** How a start-up ends whose first `k` turns are over. */
  ghost predicate EndsAsItMust<V(!new)>(g: Graph<V>, brokens: seq<set<V>>, vs: seq<V>, k: nat, r: Outcome<V>)
    requires |brokens| == |vs| && k <= |vs| && r.status.Keys == g.Keys && forall v :: v in vs ==> v in g
  {
    if r.ok then
      && (forall j: nat {:trigger TurnWorks(g, brokens, vs, j)} :: k <= j < |vs| ==> TurnWorks(g, brokens, vs, j))
      && Tally(g, r.status, r.log, vs, |vs|) && RunningIsClosed(g, r.status)
    else FailedSomewhere(g, brokens, vs, k, r.status)
  }

  lemma TurnWorksWhen<V(!new)>(g: Graph<V>, brokens: seq<set<V>>, status: map<V, Status>, vs: seq<V>, k: nat)
    requires status.Keys == g.Keys && |brokens| == |vs| && k < |vs| && vs[k] in g
    requires forall x {:trigger RunsIfRequired(g, status, vs, k, x)} :: x in g ==> RunsIfRequired(g, status, vs, k, x)
    ensures Works(g, brokens[k], status, vs[k]) <==> TurnWorks(g, brokens, vs, k)
  {
    forall x | x in g ensures status[x] == Running <==> Required(g, vs, k, x) {
      assert RunsIfRequired(g, status, vs, k, x);
    }
    assert Threats(g, brokens[k], status) == NewThreats(g, brokens[k], vs, k);
  }

  lemma LaterEnd<V(!new)>(g: Graph<V>, brokens: seq<set<V>>, vs: seq<V>, k: nat, r: Outcome<V>)
    requires |brokens| == |vs| && k < |vs| && r.status.Keys == g.Keys && forall v :: v in vs ==> v in g
    requires TurnWorks(g, brokens, vs, k) && EndsAsItMust(g, brokens, vs, k + 1, r)
    ensures EndsAsItMust(g, brokens, vs, k, r)
  {
    if !r.ok {
      var i: nat :| FailsFirst(g, brokens, vs, k + 1, i) && (RunningIsClosed(g, r.status) <==> !Required(g, vs, i, vs[i]));
      assert FailsFirst(g, brokens, vs, k, i);
    }
  }

  lemma FailedEnd<V(!new)>(g: Graph<V>, brokens: seq<set<V>>, status: map<V, Status>, log: seq<V>, vs: seq<V>, k: nat,
                           r: Outcome<V>)
    requires Consistent(g, {}, status, log) && Quiet(status) && (forall v :: v in vs ==> v in g)
    requires k < |vs| == |brokens| && forall i, j :: 0 <= i < j < |vs| ==> vs[i] != vs[j]
    requires Tally(g, status, log, vs, k) && !TurnWorks(g, brokens, vs, k)
    requires r == Initialize(g, brokens[k], status, log, vs[k]) && !r.ok
    ensures EndsAsItMust(g, brokens, vs, k, r)
  {
    TurnIsExact(g, brokens[k], status, log, vs[k]);
    assert RunsIfRequired(g, status, vs, k, vs[k]);
    if Required(g, vs, k, vs[k]) {
      AgainIsExact(g, brokens[k], status, log, vs[k]);
      StoppingStrands(g, status, log, vs, k);
    }
    assert FailsFirst(g, brokens, vs, k, k);
  }

  lemma {:induction false} StartServicesIsExact<V(!new)>(g: Graph<V>, brokens: seq<set<V>>, status: map<V, Status>,
                                                         log: seq<V>, vs: seq<V>, k: nat)
    requires Consistent(g, {}, status, log) && Quiet(status) && (forall v :: v in vs ==> v in g)
    requires k <= |vs| == |brokens| && forall i, j :: 0 <= i < j < |vs| ==> vs[i] != vs[j]
    requires Tally(g, status, log, vs, k)
    ensures EndsAsItMust(g, brokens, vs, k, StartServices(g, brokens[k..], status, log, vs[k..]))
    decreases |vs| - k
  {
    if k == |vs| {
      RunningClosed(g, {}, status, log);
    } else {
      assert vs[k..][0] == vs[k] && vs[k..][1..] == vs[k + 1..];
      assert brokens[k..][0] == brokens[k] && brokens[k..][1..] == brokens[k + 1..];
      var r := Initialize(g, brokens[k], status, log, vs[k]);
      TurnIsExact(g, brokens[k], status, log, vs[k]);
      TurnWorksWhen(g, brokens, status, vs, k);
      if r.ok {
        InitializeGrows(g, brokens[k], status, log, vs[k]);
        TallyMoves(g, status, log, vs, k, r);
        StartServicesIsExact(g, brokens, r.status, r.log, vs, k + 1);
        LaterEnd(g, brokens, vs, k, StartServices(g, brokens[k + 1..], r.status, r.log, vs[k + 1..]));
      } else {
        FailedEnd(g, brokens, status, log, vs, k, r);
      }
    }
  }

  /** A start-up from scratch succeeds exactly when every turn works; then everything runs, and
      do_initialize was called once for every service, and a second time exactly for those that
      an earlier service of the list leads to. If it fails, what runs is closed under requirements
      exactly when the turn that failed was not such a second call. */
  lemma StartUpFromScratch<V(!new)>(g: Graph<V>, brokens: seq<set<V>>, vs: seq<V>)
    requires Closed(g) && |brokens| == |vs| && forall v :: v in vs <==> v in g
    requires forall i, j :: 0 <= i < j < |vs| ==> vs[i] != vs[j]
    ensures var stopped := map v | v in g :: Stopped;
            Quiet(stopped) &&
            var r := StartServices(g, brokens, stopped, [], vs);
            && (r.ok <==> forall i: nat {:trigger TurnWorks(g, brokens, vs, i)} :: i < |vs| ==> TurnWorks(g, brokens, vs, i))
            && (r.ok ==> forall i :: 0 <= i < |vs| ==>
                  r.status[vs[i]] == Running && Times(r.log, vs[i]) == if Required(g, vs, i, vs[i]) then 2 else 1)
            && (!r.ok ==> FailedSomewhere(g, brokens, vs, 0, r.status))
  {
    var stopped := map v | v in g :: Stopped;
    assert vs[0..] == vs && brokens[0..] == brokens;
    StartServicesIsExact(g, brokens, stopped, [], vs, 0);
    var r := StartServices(g, brokens, stopped, [], vs);
    if r.ok { TalliedAll(g, r.status, r.log, vs); }
  }

  lemma BringingTwo<V(!new)>(a: V, b: V)
    requires a != b
    ensures var g, stopped := map[a := [Some(b)], b := []], map[a := Stopped, b := Stopped];
            && Closed(g)
            && Initialize(g, {}, stopped, [], a) == Outcome(map[a := Running, b := Running], [b, a], true)
  {
    var g, stopped := map[a := [Some(b)], b := []], map[a := Stopped, b := Stopped];
    var starting := stopped[a := Starting];
    VisitNothing(g, {}, starting[b := Starting], [], b, []);
    assert g[b] == [] && starting[b := Starting][b := Running] == starting[b := Running];
    assert Initialize(g, {}, starting, [], b) == Outcome(starting[b := Running], [b], true);
    VisitBrings(g, {}, starting, [], a, [Some(b)]);
    assert [Some(b)][1..] == [];
    VisitNothing(g, {}, starting[b := Running], [b], a, []);
    assert starting[b := Running][a := Running] == map[a := Running, b := Running];
  }

  /** With `a` requiring `b`, a second do_initialize of `b` that throws leaves `a` running without it. */
  lemma SecondCallStrands<V(!new)>(a: V, b: V)
    requires a != b
    ensures var g, stopped := map[a := [Some(b)], b := []], map[a := Stopped, b := Stopped];
            && Closed(g)
            && var r := StartServices(g, [{}, {b}], stopped, [], [a, b]);
               r == Outcome(map[a := Running, b := Stopped], [b, a], false) && !RunningIsClosed(g, r.status)
  {
    var g, stopped, running := map[a := [Some(b)], b := []], map[a := Stopped, b := Stopped], map[a := Running, b := Running];
    BringingTwo(a, b);
    assert [a, b][1..] == [b] && [{}, {b}][1..] == [{b}];
    VisitNothing(g, {b}, running[b := Starting], [b, a], b, []);
    assert running[b := Starting][b := Stopped] == map[a := Running, b := Stopped];
    assert Initialize(g, {b}, running, [b, a], b) == Outcome(map[a := Running, b := Stopped], [b, a], false);
    assert StartServices(g, [{b}], running, [b, a], [b]) == Outcome(map[a := Running, b := Stopped], [b, a], false);
    assert g[a][0] == Some(b);
    assert Edge(g, a, b);
  }

  lemma TalliedAll<V(!new)>(g: Graph<V>, status: map<V, Status>, log: seq<V>, vs: seq<V>)
    requires status.Keys == g.Keys && (forall v :: v in vs ==> v in g) && Tally(g, status, log, vs, |vs|)
    ensures forall i :: 0 <= i < |vs| ==>
              status[vs[i]] == Running && Times(log, vs[i]) == if Required(g, vs, i, vs[i]) then 2 else 1
  {
    forall i: nat | i < |vs|
      ensures status[vs[i]] == Running && Times(log, vs[i]) == if Required(g, vs, i, vs[i]) then 2 else 1
    {
      ReachesItself(g, vs[i]);
      assert Required(g, vs, |vs|, vs[i]) && RunsIfRequired(g, status, vs, |vs|, vs[i]);
      assert Counted(g, status, log, vs, |vs|, i);
    }
  }
}
