/** Services and the application that owns them, updated in place. */
module Application {
  import opened Options
  import opened StartUp

  const WHATEVER_IMPLEMENTATION := "*"

  datatype Requirement = Requirement(feature: int, implementation: string)

  class Service {
    const feature: int
    const implementation: string
    var requirements: seq<Requirement>
    var status: Status

    constructor (feature: int, implementation: string)
      ensures this.feature == feature && this.implementation == implementation
      ensures requirements == [] && status == Stopped
    {
      this.feature, this.implementation := feature, implementation;
      requirements, status := [], Stopped;
    }

    /** A feature can be required once. */
    method Require(feature: int, implementation: string) returns (ok: bool)
      modifies `requirements
      ensures ok <==> forall r :: r in old(requirements) ==> r.feature != feature
      ensures requirements == if ok then old(requirements) + [Requirement(feature, implementation)] else old(requirements)
    {
      for ii := 0 to |requirements|
        invariant forall j :: 0 <= j < ii ==> requirements[j].feature != feature
        invariant requirements == old(requirements)
      {
        if requirements[ii].feature == feature { return false; }
      }
      requirements := requirements + [Requirement(feature, implementation)];
      ok := true;
    }
  }

  predicate Offers(s: Service, r: Requirement) {
    s.feature == r.feature && (r.implementation == WHATEVER_IMPLEMENTATION || s.implementation == r.implementation)
  }

  /** Application::select: the first service, in the order of the map, that offers what is required. */
  function Selected(services: seq<Service>, r: Requirement): (s: Option<Service>)
    ensures s.Some? ==> s.value in services && Offers(s.value, r)
    ensures s.None? ==> forall x :: x in services ==> !Offers(x, r)
  {
    if services == [] then None
    else if Offers(services[0], r) then Some(services[0])
    else Selected(services[1..], r)
  }

  function Selections(services: seq<Service>, requirements: seq<Requirement>): (r: seq<Option<Service>>)
    ensures |r| == |requirements|
    ensures forall i :: 0 <= i < |r| ==> r[i] == Selected(services, requirements[i])
  {
    if requirements == [] then []
    else [Selected(services, requirements[0])] + Selections(services, requirements[1..])
  }

  /** The feature, and the implementation unless it is "*". */
  ghost predicate Fits(s: Service, feature: int, implementation: string) {
    s.feature == feature && (implementation != "*" ==> s.implementation == implementation)
  }

  /** The service at `i` is the first one that fits. */
  ghost predicate IsFirstFit(services: seq<Service>, i: nat, feature: int, implementation: string)
    requires i < |services|
  {
    Fits(services[i], feature, implementation) && forall j :: 0 <= j < i ==> !Fits(services[j], feature, implementation)
  }

  /** The selection is the first service of the list with the feature and, unless "*" is asked for,
      the implementation; there is none exactly when no service has both. */
  lemma {:induction false} SelectionIsFirstFit(services: seq<Service>, feature: int, implementation: string)
    ensures var s := Selected(services, Requirement(feature, implementation));
            && (s.None? <==> forall i :: 0 <= i < |services| ==> !Fits(services[i], feature, implementation))
            && (s.Some? ==> exists i: nat :: i < |services| && services[i] == s.value && IsFirstFit(services, i, feature, implementation))
  {
    if services != [] {
      var rest := services[1..];
      SelectionIsFirstFit(rest, feature, implementation);
      if Fits(services[0], feature, implementation) {
        assert IsFirstFit(services, 0, feature, implementation);
      } else if Selected(rest, Requirement(feature, implementation)).Some? {
        var i: nat :| i < |rest| && rest[i] == Selected(rest, Requirement(feature, implementation)).value
                      && IsFirstFit(rest, i, feature, implementation);
        FirstFitBehind(services, i, feature, implementation);
      } else {
        forall i | 0 <= i < |services| ensures !Fits(services[i], feature, implementation) {
          if i > 0 { assert services[i] == rest[i - 1]; }
        }
      }
    }
  }

  lemma FirstFitBehind(services: seq<Service>, i: nat, feature: int, implementation: string)
    requires services != [] && !Fits(services[0], feature, implementation) && i < |services| - 1
    requires IsFirstFit(services[1..], i, feature, implementation)
    ensures IsFirstFit(services, i + 1, feature, implementation) && services[i + 1] == services[1..][i]
  {
    forall j | 0 <= j < i + 1 ensures !Fits(services[j], feature, implementation) {
      if j > 0 { assert services[j] == services[1..][j - 1]; }
    }
  }

  /** In the map of services a named implementation of a feature is there at most once. */
  lemma NamedFitIsUnique(services: seq<Service>, feature: int, implementation: string)
    requires OrderedByFeature(services) && implementation != "*"
    ensures forall i, j :: 0 <= i < j < |services| ==>
              !(Fits(services[i], feature, implementation) && Fits(services[j], feature, implementation))
  {
    forall i, j | 0 <= i < j < |services|
      ensures !(Fits(services[i], feature, implementation) && Fits(services[j], feature, implementation))
    {
      assert InOrder(services[i], services[j]);
    }
  }

  /** The map of services is ordered by feature, and an implementation of a feature is there once. */
  ghost predicate OrderedByFeature(services: seq<Service>) {
    forall i, j :: 0 <= i < j < |services| ==> InOrder(services[i], services[j])
  }

  predicate SameKey(a: Service, b: Service) {
    a.feature == b.feature && a.implementation == b.implementation
  }

  /** Where a multimap inserts: behind the services of the same feature. */
  function Place(services: seq<Service>, feature: int): (p: nat)
    ensures p <= |services| && (p < |services| ==> services[p].feature > feature)
    ensures forall i :: 0 <= i < p ==> services[i].feature <= feature
  {
    if services == [] || services[0].feature > feature then 0 else 1 + Place(services[1..], feature)
  }

  function Inserted(services: seq<Service>, service: Service): seq<Service> {
    var p := Place(services, service.feature);
    services[..p] + [service] + services[p..]
  }

  lemma InsertedAt(services: seq<Service>, service: Service, i: nat)
    requires i <= |services|
    ensures var p, r := Place(services, service.feature), Inserted(services, service);
            |r| == |services| + 1 && r[i] == if i < p then services[i] else if i == p then service else services[i - 1]
  {
  }

  ghost predicate InOrder(a: Service, b: Service) {
    a.feature <= b.feature && (a.feature == b.feature ==> a.implementation != b.implementation)
  }

  lemma InsertedPair(services: seq<Service>, service: Service, i: nat, j: nat)
    requires OrderedByFeature(services) && forall k :: 0 <= k < |services| ==> !SameKey(services[k], service)
    requires i < j <= |services|
    ensures var r := Inserted(services, service); |r| == |services| + 1 && InOrder(r[i], r[j])
  {
    var p := Place(services, service.feature);
    InsertedAt(services, service, i);
    InsertedAt(services, service, j);
    if p < i { assert InOrder(services[i - 1], services[j - 1]); }
    if p == i && p < |services| { assert InOrder(services[p], services[j - 1]) || j - 1 == p; }
    if j <= p && i < p && j < |services| { assert InOrder(services[i], services[j]); }
    if i < p < j && i < j - 1 { assert InOrder(services[i], services[j - 1]); }
  }

  lemma InsertKeepsOrder(services: seq<Service>, service: Service)
    requires OrderedByFeature(services) && forall j :: 0 <= j < |services| ==> !SameKey(services[j], service)
    ensures OrderedByFeature(Inserted(services, service))
  {
    var r := Inserted(services, service);
    forall i, j | 0 <= i < j < |r| ensures InOrder(r[i], r[j]) { InsertedPair(services, service, i, j); }
  }

  lemma InsertedMembers(services: seq<Service>, service: Service)
    ensures forall s :: s in Inserted(services, service) <==> s in services || s == service
  {
    var p := Place(services, service.feature);
    assert services == services[..p] + services[p..];
  }

  lemma {:induction false} SelectedInTwo(a: seq<Service>, b: seq<Service>, r: Requirement)
    ensures Selected(a + b, r) == if Selected(a, r).Some? then Selected(a, r) else Selected(b, r)
  {
    if a == [] {
      assert a + b == b;
    } else {
      assert (a + b)[1..] == a[1..] + b;
      SelectedInTwo(a[1..], b, r);
    }
  }

  lemma NoneBehindOffers(services: seq<Service>, service: Service, r: Requirement)
    requires OrderedByFeature(services) && Offers(service, r)
    ensures Selected(services[Place(services, service.feature)..], r).None?
  {
    var p := Place(services, service.feature);
    forall i | p <= i < |services| ensures !Offers(services[i], r) {
      if p < i { assert InOrder(services[p], services[i]); }
    }
    assert forall s :: s in services[p..] ==> !Offers(s, r);
  }

  lemma SelectedOfOne(service: Service, r: Requirement)
    ensures Selected([service], r) == if Offers(service, r) then Some(service) else None
  {
    assert [service][1..] == [];
  }

  /** A service that is attached is selected only if no earlier one offers what is required. */
  lemma FirstComeFirstSelected(services: seq<Service>, service: Service, r: Requirement)
    requires OrderedByFeature(services)
    ensures Selected(Inserted(services, service), r) ==
            if Offers(service, r) && Selected(services, r).None? then Some(service) else Selected(services, r)
  {
    var p := Place(services, service.feature);
    var before, after := services[..p], services[p..];
    assert services == before + after;
    SelectedInTwo(before, after, r);
    SelectedInTwo(before + [service], after, r);
    SelectedInTwo(before, [service], r);
    SelectedOfOne(service, r);
    if Offers(service, r) { NoneBehindOffers(services, service, r); }
  }

  class Application {
    var services: seq<Service>
    var log: seq<Service>
    ghost var members: set<Service>

    ghost predicate Attached()
      reads `services, `members
    {
      && (forall s :: s in services ==> s in members)
      && (forall s :: s in members ==> s in services)
    }

    ghost predicate Valid()
      reads `services, `members
    {
      OrderedByFeature(services) && Attached()
    }

    constructor ()
      ensures Valid() && services == [] && log == []
    {
      services, log, members := [], [], {};
    }

    /** The graph of the selected requirements. */
    ghost predicate Describes(g: Graph<Service>)
      reads `services, `members, members`requirements
    {
      && g.Keys == members
      && (forall s :: s in members ==> g[s] == Selections(services, s.requirements))
    }

    ghost function Statuses(): (m: map<Service, Status>)
      reads `members, members`status
      ensures m.Keys == members
    {
      map s | s in members :: s.status
    }

    method Select(r: Requirement) returns (selection: Option<Service>)
      ensures selection == Selected(services, r)
      ensures selection.None? <==> forall i :: 0 <= i < |services| ==> !Fits(services[i], r.feature, r.implementation)
      ensures selection.Some? ==> exists i: nat :: i < |services| && services[i] == selection.value
                                    && IsFirstFit(services, i, r.feature, r.implementation)
    {
      SelectionIsFirstFit(services, r.feature, r.implementation);
      var ii := 0;
      while ii < |services|
        invariant 0 <= ii <= |services|
        invariant Selected(services, r) == Selected(services[ii..], r)
      {
        if Offers(services[ii], r) { return Some(services[ii]); }
        assert services[ii..][1..] == services[ii + 1..];
        ii := ii + 1;
      }
      selection := None;
    }

    /** False if the application has that implementation of the feature already. */
    method Attach(service: Service) returns (attached: bool)
      requires Valid()
      modifies `services, `members
      ensures Valid()
      ensures attached <==> forall s :: s in old(services) ==>
                              s.feature != service.feature || s.implementation != service.implementation
      ensures services == if attached then Inserted(old(services), service) else old(services)
    {
      for ii := 0 to |services|
        invariant forall j :: 0 <= j < ii ==> !SameKey(services[j], service)
      {
        if SameKey(services[ii], service) { return false; }
      }
      InsertKeepsOrder(services, service);
      InsertedMembers(services, service);
      services := Inserted(services, service);
      members := members + {service};
      attached := true;
    }

    /** Service::initialize: the marks, the calls of do_initialize and the result are those of
        the depth-first search. */
    method Initialize(s: Service, ghost g: Graph<Service>, broken: set<Service>) returns (ok: bool)
      requires Describes(g) && Closed(g)
      requires s in members && s.status != Starting
      modifies `log, members`status
      ensures Describes(g)
      ensures Outcome<Service>.Outcome(Statuses(), log, ok) ==
              StartUp.Initialize<Service>(g, broken, old(Statuses()), old(log), s)
      decreases |Idle<Service>(Statuses())|, 0
    {
      MarkingShrinksIdle<Service>(Statuses(), s);
      s.status := Starting;
      assert Statuses() == old(Statuses())[s := Starting];
      assert g[s][0..] == g[s] && Inside(g, g[s]);
      ok := VisitRequirements(s, g, broken);
    }

    /** What remains of the start-up of `s` from its requirement `ii` on. */
    ghost function Rest(s: Service, ii: nat, g: Graph<Service>, broken: set<Service>): Outcome<Service>
      requires Closed(g) && s in members && s.status == Starting && g.Keys == members && ii <= |g[s]| && Inside(g, g[s])
      reads s, `members, `log, members`status
    {
      Visit<Service>(g, broken, Statuses(), log, s, g[s][ii..])
    }

    method VisitRequirements(s: Service, ghost g: Graph<Service>, broken: set<Service>) returns (ok: bool)
      requires Describes(g) && Closed(g)
      requires s in members && s.status == Starting && Inside(g, g[s])
      modifies `log, members`status
      ensures Describes(g)
      ensures Outcome<Service>.Outcome(Statuses(), log, ok) == old(Rest(s, 0, g, broken))
      decreases |Idle<Service>(Statuses())|, 2
    {
      var ii, brought := 0, true;
      ghost var goal := Rest(s, 0, g, broken);
      while brought && ii < |s.requirements|
        invariant Describes(g)
        invariant 0 <= ii <= |s.requirements| == |g[s]| && s.status == Starting
        invariant Idle<Service>(Statuses()) == old(Idle<Service>(Statuses()))
        invariant brought ==> Rest(s, ii, g, broken) == goal
        invariant !brought ==> goal == Outcome<Service>.Outcome(Statuses()[s := Stopped], log, false)
        decreases |s.requirements| - ii
      {
        brought := SelectAndBring(s, ii, g, broken);
        ii := ii + 1;
      }
      ok := Finish(s, brought, g, broken);
    }

    /** One turn of the loop over the requirements; an exception is the result false. */
    method SelectAndBring(s: Service, ii: nat, ghost g: Graph<Service>, broken: set<Service>) returns (ok: bool)
      requires Describes(g) && Closed(g)
      requires s in members && s.status == Starting && Inside(g, g[s]) && ii < |s.requirements| == |g[s]|
      modifies `log, members`status
      ensures Describes(g)
      ensures s.status == Starting && Idle<Service>(Statuses()) == old(Idle<Service>(Statuses()))
      ensures ok ==> Rest(s, ii + 1, g, broken) == old(Rest(s, ii, g, broken))
      ensures !ok ==> old(Rest(s, ii, g, broken)) == Outcome<Service>.Outcome(Statuses()[s := Stopped], log, false)
      decreases |Idle<Service>(Statuses())|, 1, 1
    {
      var selection := Select(s.requirements[ii]);
      ok := Bring(s, ii, selection, g, broken);
    }

    method Bring(s: Service, ghost ii: nat, selection: Option<Service>, ghost g: Graph<Service>, broken: set<Service>)
      returns (ok: bool)
      requires Describes(g) && Closed(g)
      requires s in members && s.status == Starting && Inside(g, g[s]) && ii < |g[s]| && selection == g[s][ii]
      modifies `log, members`status
      ensures Describes(g)
      ensures s.status == Starting && Idle<Service>(Statuses()) == old(Idle<Service>(Statuses()))
      ensures ok ==> Rest(s, ii + 1, g, broken) == old(Rest(s, ii, g, broken))
      ensures !ok ==> old(Rest(s, ii, g, broken)) == Outcome<Service>.Outcome(Statuses()[s := Stopped], log, false)
      decreases |Idle<Service>(Statuses())|, 1, 0
    {
      assert g[s][ii..][0] == selection && g[s][ii..][1..] == g[s][ii + 1..];
      VisitBrings<Service>(g, broken, Statuses(), log, s, g[s][ii..]);
      if selection.None? { return false; }
      var t := selection.value;
      assert selection == Some(t);
      if t.status == Running { return true; }
      if t.status == Starting { return false; }
      ghost var r := StartUp.Initialize<Service>(g, broken, Statuses(), log, t);
      ok := Initialize(t, g, broken);
      assert ok == r.ok && log == r.log && Statuses() == r.status;
      assert s !in Idle<Service>(Statuses());
    }

    method Mark(s: Service, mark: Status, ghost g: Graph<Service>)
      requires s in members && Describes(g)
      modifies s`status
      ensures Describes(g) && Statuses() == old(Statuses())[s := mark]
    {
      s.status := mark;
    }

    method Note(s: Service, ghost g: Graph<Service>)
      requires Describes(g)
      modifies `log
      ensures Describes(g) && Statuses() == old(Statuses()) && log == old(log) + [s]
    {
      log := log + [s];
    }

    /** Without requirements left, do_initialize decides. */
    lemma NothingLeft(s: Service, g: Graph<Service>, broken: set<Service>)
      requires Describes(g) && Closed(g)
      requires s in members && s.status == Starting && Inside(g, g[s])
      ensures Rest(s, |g[s]|, g, broken) ==
              if s in broken then Outcome<Service>.Outcome(Statuses()[s := Stopped], log, false)
              else Outcome<Service>.Outcome(Statuses()[s := Running], log + [s], true)
    {
      VisitNothing<Service>(g, broken, Statuses(), log, s, g[s][|g[s]|..]);
    }

    /** do_initialize and the mark Running, or the mark Stopped that an exception leaves. */
    method Finish(s: Service, brought: bool, ghost g: Graph<Service>, broken: set<Service>) returns (ok: bool)
      requires Describes(g) && Closed(g)
      requires s in members && s.status == Starting && Inside(g, g[s])
      modifies `log, s`status
      ensures Describes(g)
      ensures Outcome<Service>.Outcome(Statuses(), log, ok) ==
              if brought then old(Rest(s, |g[s]|, g, broken))
              else Outcome<Service>.Outcome(old(Statuses())[s := Stopped], old(log), false)
    {
      NothingLeft(s, g, broken);
      ok := brought && s !in broken;
      if ok {
        Mark(s, Running, g);
        Note(s, g);
      } else {
        Mark(s, Stopped, g);
      }
    }

    /** What remains of the start-up of the application from the service `ii` on. */
    ghost function Turns(ii: nat, g: Graph<Service>, brokens: seq<set<Service>>): Outcome<Service>
      requires Attached() && Closed(g) && g.Keys == members && Quiet(Statuses()) && ii <= |services| == |brokens|
      reads `services, `members, `log, members`status
    {
      assert forall s :: s in services[ii..] ==> s in g;
      StartUp.StartServices<Service>(g, brokens[ii..], Statuses(), log, services[ii..])
    }

    /** Application::startServices: every service in its turn, until one fails. `brokens` says turn
        by turn for which services do_initialize throws. */
    method StartServices(ghost g: Graph<Service>, brokens: seq<set<Service>>) returns (ok: bool)
      requires Attached() && Describes(g) && Closed(g) && Quiet(Statuses()) && |brokens| == |services|
      modifies `log, members`status
      ensures Quiet(Statuses()) && Outcome<Service>.Outcome(Statuses(), log, ok) == old(Turns(0, g, brokens))
    {
      for ii := 0 to |services|
        invariant Describes(g) && Quiet(Statuses())
        invariant Turns(ii, g, brokens) == old(Turns(0, g, brokens))
      {
        ok := StartNext(ii, g, brokens);
        if !ok { return; }
      }
      NoTurnLeft(g, brokens);
      ok := true;
    }

    lemma NoTurnLeft(g: Graph<Service>, brokens: seq<set<Service>>)
      requires Attached() && Closed(g) && g.Keys == members && Quiet(Statuses()) && |brokens| == |services|
      ensures Turns(|services|, g, brokens) == Outcome<Service>.Outcome(Statuses(), log, true)
    {
      assert services[|services|..] == [];
    }

    method StartNext(ii: nat, ghost g: Graph<Service>, brokens: seq<set<Service>>) returns (ok: bool)
      requires Attached() && Describes(g) && Closed(g) && Quiet(Statuses()) && ii < |services| == |brokens|
      modifies `log, members`status
      ensures Describes(g) && Quiet(Statuses())
      ensures ok ==> Turns(ii + 1, g, brokens) == old(Turns(ii, g, brokens))
      ensures !ok ==> old(Turns(ii, g, brokens)) == Outcome<Service>.Outcome(Statuses(), log, false)
    {
      var s := services[ii];
      assert services[ii..][0] == s && services[ii..][1..] == services[ii + 1..];
      assert brokens[ii..][0] == brokens[ii] && brokens[ii..][1..] == brokens[ii + 1..];
      ghost var r := StartUp.Initialize<Service>(g, brokens[ii], Statuses(), log, s);
      ok := Initialize(s, g, brokens[ii]);
      assert ok == r.ok && log == r.log && Statuses() == r.status;
      StaysQuiet<Service>(old(Statuses()), r.status);
    }
  }
}
