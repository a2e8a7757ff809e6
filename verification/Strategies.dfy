/** Resource lists and the strategies over them, as objects. */
module Strategies {
  import opened Balance

  class Resource {
    const name: string
    var available: bool

    constructor (name: string, available: bool)
      ensures this.name == name && this.available == available
    {
      this.name := name;
      this.available := available;
    }
  }

  datatype Outcome<+T> = Returned(value: T) | Thrown

  class ResourceList {
    var resources: seq<Resource>

    constructor ()
      ensures resources == [] && NamesDiffer()
    {
      resources := [];
    }

    ghost predicate NamesDiffer()
      reads this
    {
      forall i, j :: 0 <= i < j < |resources| ==> resources[i].name != resources[j].name
    }

    ghost function View(): (a: Availability)
      reads this, resources
      ensures |a| == |resources| && forall i :: 0 <= i < |a| ==> a[i] == resources[i].available
    {
      seq(|resources|, i requires 0 <= i < |resources| reads this, resources => resources[i].available)
    }

    /** A resource is added unless there is one with its name; null is refused. */
    method Add(resource: Resource?) returns (outcome: Outcome<bool>)
      modifies this
      ensures outcome.Thrown? <==> resource == null
      ensures outcome == Returned(true) <==>
              resource != null && forall i :: 0 <= i < |old(resources)| ==> old(resources)[i].name != resource.name
      ensures resources == if outcome == Returned(true) then old(resources) + [resource] else old(resources)
      ensures old(NamesDiffer()) ==> NamesDiffer()
    {
      if resource == null { return Thrown; }
      var i := 0;
      while i < |resources|
        invariant i <= |resources|
        invariant forall j :: 0 <= j < i ==> resources[j].name != resource.name
      {
        if resources[i].name == resource.name { return Returned(false); }
        i := i + 1;
      }
      resources := resources + [resource];
      outcome := Returned(true);
    }

    method CountAvailable() returns (count: nat)
      ensures count == |Available(View())|
    {
      count := 0;
      ghost var counted: set<nat> := {};
      for i := 0 to |resources|
        invariant counted == set j: nat | j < i && View()[j]
        invariant count == |counted|
      {
        if resources[i].available {
          count := count + 1;
          counted := counted + {i};
        }
      }
      assert counted == Available(View());
    }

    /** The do-while loop that both strategies run: from a position once round. */
    method FirstAvailable(start: nat) returns (found: Choice)
      requires start < |resources|
      ensures found == Search(View(), start, 0)
    {
      var ww := start;
      ghost var k := 0;
      assert Ahead(start, 0, |resources|) == start;
      while true
        invariant k < |resources| && ww == Ahead(start, k, |resources|)
        invariant Search(View(), start, 0) == Search(View(), start, k)
        decreases |resources| - k
      {
        if resources[ww].available { return Chosen(ww); }
        StepAhead(start, k, |resources|);
        ww := Next(ww, |resources|);
        k := k + 1;
        if ww == start { break; }
      }
      found := Nobody;
    }
  }

  lemma NobodyIsAvailable(a: Availability, start: nat)
    requires start < |a|
    ensures Search(a, start, 0).Nobody? <==> Available(a) == {}
  {
    SearchIsExact(a, start);
    forall i | 0 <= i < |a| ensures a[i] <==> i in Available(a) {}
  }

  class StrategyRoundRobin {
    const resources: ResourceList
    var valid: bool
    var position: nat

    constructor (resources: ResourceList)
      ensures this.resources == resources && !valid
    {
      this.resources := resources;
      valid, position := false, 0;
    }

    /** The next call starts at the first resource until a position is kept. */
    function Position(): nat
      reads this
    {
      if valid then position else 0
    }

    /** StrategyRoundRobin::apply, over a list that does not lose resources. */
    method Apply() returns (outcome: Outcome<Resource>)
      requires Position() < |resources.resources| || Position() == 0
      modifies this
      ensures outcome.Thrown? <==> Available(resources.View()) == {}
      ensures resources.resources != [] ==>
                Position() == After(resources.View(), old(Position()))
                && match Search(resources.View(), old(Position()), 0)
                   case Nobody => outcome.Thrown?
                   case Chosen(i) => outcome == Returned(resources.resources[i])
      ensures outcome.Thrown? ==> Position() == old(Position())
    {
      if !valid { valid, position := true, 0; }
      if position == |resources.resources| { return Thrown; }
      NobodyIsAvailable(resources.View(), position);
      var found := resources.FirstAvailable(position);
      if found.Nobody? { return Thrown; }
      position := Next(found.index, |resources.resources|);
      outcome := Returned(resources.resources[found.index]);
    }
  }

  class StrategyIndexed {
    const resources: ResourceList

    constructor (resources: ResourceList)
      ensures this.resources == resources
    {
      this.resources := resources;
    }

    /** StrategyIndexed::apply for a request with this identifier. */
    method Apply(identifier: int) returns (outcome: Outcome<Resource>)
      ensures outcome.Thrown? <==> Available(resources.View()) == {}
      ensures outcome.Returned? ==>
                var a := resources.View();
                var start := (identifier % 0x1_0000_0000_0000_0000) % |a|;
                exists i: nat :: i < |a| && a[i] && outcome.value == resources.resources[i]
                  && forall j :: 0 <= j < |a| && a[j] ==> Distance(start, i, |a|) <= Distance(start, j, |a|)
    {
      if |resources.resources| == 0 { return Thrown; }
      var start := StartOf(identifier, |resources.resources|);
      SearchIsExact(resources.View(), start);
      var found := resources.FirstAvailable(start);
      if found.Nobody? { return Thrown; }
      assert found.index in Available(resources.View());
      outcome := Returned(resources.resources[found.index]);
    }
  }

  class StrategyByRange {
    var ranges: seq<Range<object>>

    constructor ()
      ensures ranges == [] && Disjoint(ranges)
    {
      ranges := [];
    }

    /** StrategyByRange::addRange. */
    method AddRange(bottom: int, top: int, strategy: object?) returns (outcome: Outcome<()>)
      modifies this
      ensures outcome.Returned? <==> strategy != null && strategy != this && Acceptable(old(ranges), bottom, top)
      ensures ranges == if outcome.Returned? then old(ranges) + [Range(bottom, top, strategy)] else old(ranges)
      ensures Disjoint(old(ranges)) ==> Disjoint(ranges)
    {
      if strategy == null || strategy == this || bottom > top { return Thrown; }
      var i := 0;
      while i < |ranges|
        invariant i <= |ranges|
        invariant forall j :: 0 <= j < i ==> !Hides(bottom, top, ranges[j])
      {
        if Hides(bottom, top, ranges[i]) { return Thrown; }
        i := i + 1;
      }
      if Disjoint(ranges) { AcceptableKeepsDisjoint(ranges, Range(bottom, top, strategy)); }
      ranges := ranges + [Range(bottom, top, strategy)];
      outcome := Returned(());
    }

    /** StrategyByRange::findRange: the strategy in charge of an identifier. */
    method FindStrategy(identifier: int) returns (outcome: Outcome<object>)
      ensures var k := FindRange(ranges, identifier);
              outcome == if k < |ranges| then Returned(ranges[k].strategy) else Thrown
    {
      var i := 0;
      while i < |ranges|
        invariant i <= |ranges|
        invariant forall j :: 0 <= j < i ==> !Within(ranges[j], identifier)
      {
        if Within(ranges[i], identifier) { return Returned(ranges[i].strategy); }
        i := i + 1;
      }
      outcome := Thrown;
    }
  }
}
