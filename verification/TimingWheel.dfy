/** The timing wheel as a value: a circular table of quanta, a list for events that wait a
    full turn, and an index by event id. It refines the countdown table. */
module TimingWheel {
  import opened Options
  import opened Countdown

  /** An element of a std::list: `serial` is the identity of the node. */
  datatype Node = Node(serial: nat, event: TimeEvent)

  type Quantum = seq<Node>

  datatype QuantumName = Slot(index: nat) | Temporary

  /** The pair (list pointer, iterator) that the index records. */
  datatype Location = Location(quantum: QuantumName, serial: nat)

  datatype Wheel = Wheel(slots: seq<Quantum>, temporary: Quantum, events: map<Id, Location>,
                         current: nat, nextSerial: nat)

  // ----- the operations ------------------------------------------------------------------

  function Store(c: Config, w: Wheel, e: TimeEvent): (r: Wheel)
    requires c.resolution > 0 && w.current < |w.slots| && e.timeout >= 0
  {
    var home := (w.current + Turns(c, e)) % |w.slots|;
    var node := Node(w.nextSerial, e);
    if home == w.current then
      w.(temporary := [node] + w.temporary, nextSerial := w.nextSerial + 1,
         events := w.events[e.id := Location(Temporary, w.nextSerial)])
    else
      w.(slots := w.slots[home := [node] + w.slots[home]], nextSerial := w.nextSerial + 1,
         events := w.events[e.id := Location(Slot(home), w.nextSerial)])
  }

  /** std::list::erase through an iterator: the node goes, whichever list object is named. */
  function Unlinked(q: Quantum, serial: nat): (r: Quantum)
    ensures forall n :: n in r <==> n in q && n.serial != serial
  {
    if q == [] then []
    else if q[0].serial == serial then Unlinked(q[1..], serial)
    else [q[0]] + Unlinked(q[1..], serial)
  }

  function Erase(w: Wheel, id: Id): Wheel
    requires id in w.events
  {
    var serial := w.events[id].serial;
    w.(slots := seq(|w.slots|, i requires 0 <= i < |w.slots| => Unlinked(w.slots[i], serial)),
       temporary := Unlinked(w.temporary, serial), events := w.events - {id})
  }

  /** The state after the firing loop has handled one node of the quantum under the hand. */
  function FireOne(c: Config, w: Wheel, e: TimeEvent): Wheel
    requires c.resolution > 0 && w.current < |w.slots| && e.timeout >= 0
  {
    var forgotten := w.(events := w.events - {e.id});
    if e.periodical then Store(c, forgotten, e) else forgotten
  }

  predicate Sound(w: Wheel) {
    && w.current < |w.slots|
    && forall n :: n in w.slots[w.current] ==> n.event.timeout >= 0
  }

  function FireMany(c: Config, w: Wheel, k: nat): (r: Wheel)
    requires c.resolution > 0 && Sound(w) && k <= |w.slots[w.current]|
    ensures r.current == w.current && |r.slots| == |w.slots| && r.slots[r.current] == w.slots[w.current]
  {
    if k == 0 then w else FireOne(c, FireMany(c, w, k - 1), w.slots[w.current][k - 1].event)
  }

  /** The quantum is cleared and takes over the temporary one; the hand moves on. */
  function Advance(w: Wheel): Wheel
    requires w.current < |w.slots|
  {
    w.(slots := w.slots[w.current := w.temporary], temporary := [],
       current := if w.current + 1 == |w.slots| then 0 else w.current + 1)
  }

  function Turn(c: Config, w: Wheel): Wheel
    requires c.resolution > 0 && Sound(w)
  {
    Advance(FireMany(c, w, |w.slots[w.current]|))
  }

  function Fired(w: Wheel): seq<Id>
    requires w.current < |w.slots|
  {
    seq(|w.slots[w.current]|, i requires 0 <= i < |w.slots[w.current]| => w.slots[w.current][i].event.id)
  }

  // ----- the wheel and the countdown describe the same events ----------------------------

  /** Ticks until the quantum `i` is processed, when `current` is processed next. */
  function Distance(i: int, current: int, turn: int): int {
    if i >= current then i - current + 1 else i - current + turn + 1
  }

  /** Where a countdown of `remaining` ticks is stored. */
  function Home(remaining: int, current: int, turn: int): int {
    if current + remaining - 1 < turn then current + remaining - 1 else current + remaining - 1 - turn
  }

  ghost predicate DistinctIds(q: Quantum) {
    forall i, j :: 0 <= i < j < |q| ==> q[i].event.id != q[j].event.id
  }

  ghost predicate Holds(q: Quantum, id: Id) {
    exists n :: n in q && n.event.id == id
  }

  /** A node is the one the index names, and its countdown is `remaining`. */
  ghost predicate Indexed(n: Node, remaining: int, events: map<Id, Location>, table: Table) {
    && n.event.id in table && table[n.event.id] == Entry(n.event, remaining)
    && n.event.id in events && events[n.event.id].serial == n.serial
  }

  /** The recorded list pointer may be stale only in one way: it may still name the temporary
      quantum after the splice. */
  ghost predicate InPlace(n: Node, i: nat, turn: int, events: map<Id, Location>, current: nat, table: Table) {
    && Indexed(n, Distance(i, current, turn), events, table)
    && (events[n.event.id].quantum == Slot(i) || events[n.event.id].quantum == Temporary)
  }

  ghost predicate Waits(n: Node, turn: nat, events: map<Id, Location>, table: Table) {
    Indexed(n, turn + 1, events, table) && events[n.event.id].quantum == Temporary
  }

  ghost predicate SlotsAgree(w: Wheel, table: Table) {
    && (forall i {:trigger DistinctIds(w.slots[i])} :: 0 <= i < |w.slots| ==> DistinctIds(w.slots[i]))
    && (forall i, n {:trigger InPlace(n, i, |w.slots|, w.events, w.current, table)} ::
          0 <= i < |w.slots| && n in w.slots[i] ==> InPlace(n, i, |w.slots|, w.events, w.current, table))
  }

  ghost predicate TemporaryAgrees(w: Wheel, table: Table) {
    && DistinctIds(w.temporary)
    && (forall n {:trigger Waits(n, |w.slots|, w.events, table)} :: n in w.temporary ==>
          Waits(n, |w.slots|, w.events, table))
  }

  /** Every countdown is stored, in the quantum that its remaining ticks name. */
  ghost predicate Stored(w: Wheel, id: Id, remaining: int)
    requires w.current < |w.slots|
  {
    && 1 <= remaining <= |w.slots| + 1
    && Holds(if remaining == |w.slots| + 1 then w.temporary else w.slots[Home(remaining, w.current, |w.slots|)], id)
  }

  ghost predicate AllStored(w: Wheel, table: Table)
    requires w.current < |w.slots|
  {
    forall id {:trigger Stored(w, id, table[id].remaining)} :: id in table ==> Stored(w, id, table[id].remaining)
  }

  ghost predicate Apart(events: map<Id, Location>, id: Id, id': Id) {
    id in events && id' in events && id != id' ==> events[id].serial != events[id'].serial
  }

  ghost predicate SerialsAgree(events: map<Id, Location>, nextSerial: nat) {
    && (forall id :: id in events ==> events[id].serial < nextSerial)
    && (forall id, id' {:trigger Apart(events, id, id')} :: Apart(events, id, id'))
  }

  ghost predicate Agree(w: Wheel, table: Table) {
    && w.current < |w.slots|
    && w.events.Keys == table.Keys
    && SlotsAgree(w, table)
    && TemporaryAgrees(w, table)
    && AllStored(w, table)
    && SerialsAgree(w.events, w.nextSerial)
  }

  /** The wheel without the first `k` nodes of the quantum under the hand. */
  ghost function Without(w: Wheel, k: nat): Wheel
    requires w.current < |w.slots| && k <= |w.slots[w.current]|
  {
    w.(slots := w.slots[w.current := w.slots[w.current][k..]])
  }

  /** The invariant of a running service. */
  ghost predicate Refines(c: Config, w: Wheel, table: Table) {
    && WellFormed(c, table)
    && c.maxTime > c.resolution && 2 <= |w.slots| && |w.slots| * c.resolution >= c.maxTime
    && Agree(w, table)
  }

  /** What the agreement says about the index: it names exactly the ids that are held, each is
      held in one place only, and it knows the node. The recorded list is the right one, or the
      temporary quantum that the node was spliced from. */
  lemma IndexAgrees(w: Wheel, table: Table, id: Id)
    requires Agree(w, table)
    ensures id in w.events <==> Holds(w.temporary, id) || exists i :: 0 <= i < |w.slots| && Holds(w.slots[i], id)
    ensures forall i, j :: 0 <= i < j < |w.slots| && Holds(w.slots[i], id) ==> !Holds(w.slots[j], id)
    ensures forall i :: 0 <= i < |w.slots| && Holds(w.slots[i], id) ==> !Holds(w.temporary, id)
    ensures forall i, n :: 0 <= i < |w.slots| && n in w.slots[i] && n.event.id == id ==>
              id in w.events && w.events[id] in {Location(Slot(i), n.serial), Location(Temporary, n.serial)}
    ensures forall n :: n in w.temporary && n.event.id == id ==>
              id in w.events && w.events[id] == Location(Temporary, n.serial)
  {
    forall i, n | 0 <= i < |w.slots| && n in w.slots[i] && n.event.id == id
      ensures InPlace(n, i, |w.slots|, w.events, w.current, table)
    {
    }
    forall n | n in w.temporary ensures Waits(n, |w.slots|, w.events, table) {
    }
    if id in table { assert Stored(w, id, table[id].remaining); }
  }

  // ----- activate ------------------------------------------------------------------------

  lemma DistinctWithFirst(n: Node, q: Quantum)
    requires DistinctIds(q) && forall m :: m in q ==> m.event.id != n.event.id
    ensures DistinctIds([n] + q)
  {
    var r := [n] + q;
    forall i, j | 0 <= i < j < |r| ensures r[i].event.id != r[j].event.id {
      assert r[j] == q[j - 1] && q[j - 1] in q;
    }
  }

  lemma HoldsMore(q: Quantum, q': Quantum, id: Id)
    requires Holds(q, id) && forall n :: n in q && n.event.id == id ==> n in q'
    ensures Holds(q', id)
  {
    var n :| n in q && n.event.id == id;
    assert n in q';
  }

  /** The wheel with a new node at the front of the slot `home`. */
  ghost function WithNode(w: Wheel, e: TimeEvent, home: nat): Wheel
    requires home < |w.slots|
  {
    w.(slots := w.slots[home := [Node(w.nextSerial, e)] + w.slots[home]], nextSerial := w.nextSerial + 1,
       events := w.events[e.id := Location(Slot(home), w.nextSerial)])
  }

  lemma NewNodeInSlots(w: Wheel, table: Table, e: TimeEvent, home: nat)
    requires SlotsAgree(w, table) && e.id !in table && home < |w.slots|
    ensures SlotsAgree(WithNode(w, e, home), table[e.id := Entry(e, Distance(home, w.current, |w.slots|))])
  {
    var w' := WithNode(w, e, home);
    var node := Node(w.nextSerial, e);
    forall n | n in w.slots[home] ensures n.event.id != e.id {
      assert InPlace(n, home, |w.slots|, w.events, w.current, table);
    }
    DistinctWithFirst(node, w.slots[home]);
    forall i, n | 0 <= i < |w.slots| && n in w'.slots[i]
      ensures InPlace(n, i, |w.slots|, w'.events, w.current,
                      table[e.id := Entry(e, Distance(home, w.current, |w.slots|))])
    {
      if n in w.slots[i] { assert InPlace(n, i, |w.slots|, w.events, w.current, table); }
    }
    forall i | 0 <= i < |w.slots| ensures DistinctIds(w'.slots[i]) {
      assert DistinctIds(w.slots[i]);
    }
  }

  lemma NewNodeIsStored(w: Wheel, table: Table, e: TimeEvent, home: nat)
    requires home < |w.slots| && w.current < |w.slots| && AllStored(w, table)
    ensures AllStored(WithNode(w, e, home), table[e.id := Entry(e, Distance(home, w.current, |w.slots|))])
  {
    var w' := WithNode(w, e, home);
    var table' := table[e.id := Entry(e, Distance(home, w.current, |w.slots|))];
    forall id | id in table' ensures Stored(w', id, table'[id].remaining) {
      if id == e.id {
        assert Node(w.nextSerial, e) in w'.slots[home];
      } else {
        assert Stored(w, id, table[id].remaining);
        if table[id].remaining <= |w.slots| {
          var h := Home(table[id].remaining, w.current, |w.slots|);
          HoldsMore(w.slots[h], w'.slots[h], id);
        }
      }
    }
  }

  lemma SerialsGrow(events: map<Id, Location>, nextSerial: nat, id: Id, quantum: QuantumName)
    requires SerialsAgree(events, nextSerial)
    ensures SerialsAgree(events[id := Location(quantum, nextSerial)], nextSerial + 1)
  {
    var events' := events[id := Location(quantum, nextSerial)];
    forall a, b ensures Apart(events', a, b) { assert Apart(events, a, b); }
  }

  lemma SerialsShrink(events: map<Id, Location>, nextSerial: nat, id: Id)
    requires SerialsAgree(events, nextSerial)
    ensures SerialsAgree(events - {id}, nextSerial)
  {
    forall a, b ensures Apart(events - {id}, a, b) { assert Apart(events, a, b); }
  }

  lemma TemporaryUntouched(w: Wheel, table: Table, w': Wheel, table': Table)
    requires TemporaryAgrees(w, table) && w'.temporary == w.temporary && |w'.slots| == |w.slots|
    requires forall id :: id in table ==> id in table' && table'[id] == table[id]
    requires forall id :: id in w.events ==> id in w'.events && w'.events[id] == w.events[id]
    ensures TemporaryAgrees(w', table')
  {
    forall n | n in w.temporary ensures Waits(n, |w.slots|, w'.events, table') {
      assert Waits(n, |w.slots|, w.events, table);
    }
  }

  lemma StoreInSlot(w: Wheel, table: Table, e: TimeEvent, home: nat)
    requires Agree(w, table) && e.id !in table && home < |w.slots|
    ensures Agree(WithNode(w, e, home), table[e.id := Entry(e, Distance(home, w.current, |w.slots|))])
  {
    NewNodeInSlots(w, table, e, home);
    NewNodeIsStored(w, table, e, home);
    SerialsGrow(w.events, w.nextSerial, e.id, Slot(home));
    TemporaryUntouched(w, table, WithNode(w, e, home),
                       table[e.id := Entry(e, Distance(home, w.current, |w.slots|))]);
  }

  /** The wheel with a new node at the front of the temporary quantum. */
  ghost function WithTemporary(w: Wheel, e: TimeEvent): Wheel {
    w.(temporary := [Node(w.nextSerial, e)] + w.temporary, nextSerial := w.nextSerial + 1,
       events := w.events[e.id := Location(Temporary, w.nextSerial)])
  }

  lemma SlotsUntouched(w: Wheel, table: Table, e: TimeEvent, remaining: int)
    requires SlotsAgree(w, table) && e.id !in table
    ensures SlotsAgree(WithTemporary(w, e), table[e.id := Entry(e, remaining)])
  {
    forall i, n | 0 <= i < |w.slots| && n in w.slots[i]
      ensures InPlace(n, i, |w.slots|, WithTemporary(w, e).events, w.current, table[e.id := Entry(e, remaining)])
    {
      assert InPlace(n, i, |w.slots|, w.events, w.current, table);
    }
    forall i | 0 <= i < |w.slots| ensures DistinctIds(WithTemporary(w, e).slots[i]) {
      assert DistinctIds(w.slots[i]);
    }
  }

  lemma WaitingIsStored(w: Wheel, table: Table, e: TimeEvent)
    requires w.current < |w.slots| && AllStored(w, table)
    ensures AllStored(WithTemporary(w, e), table[e.id := Entry(e, |w.slots| + 1)])
  {
    var w', table' := WithTemporary(w, e), table[e.id := Entry(e, |w.slots| + 1)];
    forall id | id in table' ensures Stored(w', id, table'[id].remaining) {
      if id == e.id {
        assert Node(w.nextSerial, e) in w'.temporary;
      } else {
        assert Stored(w, id, table[id].remaining);
        if table[id].remaining == |w.slots| + 1 { HoldsMore(w.temporary, w'.temporary, id); }
      }
    }
  }

  lemma StoreInTemporary(w: Wheel, table: Table, e: TimeEvent)
    requires Agree(w, table) && e.id !in table
    ensures Agree(WithTemporary(w, e), table[e.id := Entry(e, |w.slots| + 1)])
  {
    SlotsUntouched(w, table, e, |w.slots| + 1);
    WaitingIsStored(w, table, e);
    SerialsGrow(w.events, w.nextSerial, e.id, Temporary);
    NewNodeWaits(w, table, e);
  }

  lemma NewNodeWaits(w: Wheel, table: Table, e: TimeEvent)
    requires TemporaryAgrees(w, table) && e.id !in table
    ensures TemporaryAgrees(WithTemporary(w, e), table[e.id := Entry(e, |w.slots| + 1)])
  {
    var w', table', node := WithTemporary(w, e), table[e.id := Entry(e, |w.slots| + 1)], Node(w.nextSerial, e);
    forall n | n in w.temporary ensures n.event.id != e.id && Waits(n, |w.slots|, w'.events, table') {
      assert Waits(n, |w.slots|, w.events, table);
    }
    DistinctWithFirst(node, w.temporary);
    assert Waits(node, |w.slots|, w'.events, table');
    assert forall n :: n in w'.temporary ==> n == node || n in w.temporary;
  }

  /** A turn of the wheel is long enough for every timeout the service accepts. */
  lemma TurnsFit(c: Config, turn: int, e: TimeEvent)
    requires 0 < c.resolution <= e.timeout <= c.maxTime <= turn * c.resolution
    ensures 1 <= Turns(c, e) <= turn
  {
    var k := Turns(c, e);
    assert e.timeout == k * c.resolution + e.timeout % c.resolution;
    if k > turn { MultipleIsLarge(k - turn, c.resolution); }
  }

  lemma Wrap(x: int, m: int)
    requires 0 <= x < 2 * m
    ensures x % m == if x < m then x else x - m
  {
    QuotientIsUnique(x, m, if x < m then 0 else 1, if x < m then x else x - m);
  }

  /** The slot of an event is a countdown away; only a full turn leads back to the hand. */
  lemma HomeIsACountdownAway(c: Config, current: nat, turn: int, e: TimeEvent)
    requires 0 < c.resolution <= e.timeout <= c.maxTime <= turn * c.resolution && current < turn
    ensures var home := (current + Turns(c, e)) % turn;
            && 0 <= home < turn
            && (home != current ==> Distance(home, current, turn) == Turns(c, e) + 1)
            && (home == current ==> Turns(c, e) == turn)
  {
    TurnsFit(c, turn, e);
    Wrap(current + Turns(c, e), turn);
  }

  /** Storing an event starts its countdown, whether it lands in a slot or, for a full turn,
      in the temporary quantum. */
  lemma StoreCounts(c: Config, w: Wheel, table: Table, e: TimeEvent)
    requires Agree(w, table) && e.id !in table
    requires 0 < c.resolution <= e.timeout <= c.maxTime <= |w.slots| * c.resolution
    ensures Agree(Store(c, w, e), table[e.id := Entry(e, Turns(c, e) + 1)])
    ensures Store(c, w, e).slots[w.current] == w.slots[w.current]
  {
    HomeIsACountdownAway(c, w.current, |w.slots|, e);
    var home := (w.current + Turns(c, e)) % |w.slots|;
    if home == w.current {
      StoreInTemporary(w, table, e);
    } else {
      StoreInSlot(w, table, e, home);
    }
  }

  lemma ActivateRefines(c: Config, w: Wheel, table: Table, e: TimeEvent)
    requires Refines(c, w, table) && Judge(c, table.Keys, Some(e)).Accepted?
    ensures Refines(c, Store(c, w, e), Step(c, table, Activate(Some(e))))
  {
    StoreCounts(c, w, table, e);
    StepKeepsWellFormed(c, table, Activate(Some(e)));
  }

  // ----- cancel --------------------------------------------------------------------------

  lemma UnlinkedStaysDistinct(q: Quantum, serial: nat)
    requires DistinctIds(q)
    ensures DistinctIds(Unlinked(q, serial))
  {
    if q != [] {
      UnlinkedStaysDistinct(q[1..], serial);
      if q[0].serial != serial {
        forall m | m in Unlinked(q[1..], serial) ensures m.event.id != q[0].event.id {
          var j :| 0 <= j < |q[1..]| && q[1..][j] == m;
          assert q[j + 1] == m;
        }
        DistinctWithFirst(q[0], Unlinked(q[1..], serial));
      }
    }
  }

  lemma EraseInSlots(w: Wheel, table: Table, id: Id)
    requires SlotsAgree(w, table) && id in w.events
    ensures SlotsAgree(Erase(w, id), table - {id})
  {
    var serial := w.events[id].serial;
    var w' := Erase(w, id);
    forall i | 0 <= i < |w.slots| ensures DistinctIds(w'.slots[i]) {
      UnlinkedStaysDistinct(w.slots[i], serial);
    }
    forall i, n | 0 <= i < |w.slots| && n in w'.slots[i]
      ensures InPlace(n, i, |w.slots|, w'.events, w.current, table - {id})
    {
      assert n in w.slots[i] && n.serial != serial;
      assert InPlace(n, i, |w.slots|, w.events, w.current, table);
    }
  }

  lemma EraseInTemporary(w: Wheel, table: Table, id: Id)
    requires TemporaryAgrees(w, table) && id in w.events
    ensures TemporaryAgrees(Erase(w, id), table - {id})
  {
    UnlinkedStaysDistinct(w.temporary, w.events[id].serial);
    forall n | n in Erase(w, id).temporary ensures Waits(n, |w.slots|, w.events - {id}, table - {id}) {
      assert Waits(n, |w.slots|, w.events, table);
    }
  }

  lemma OthersStayStored(w: Wheel, table: Table, id: Id, other: Id)
    requires Agree(w, table) && id in w.events && other in table && other != id
    ensures Stored(Erase(w, id), other, table[other].remaining)
  {
    var remaining := table[other].remaining;
    var serial := w.events[id].serial;
    assert Stored(w, other, remaining);
    assert Apart(w.events, other, id);
    if remaining == |w.slots| + 1 {
      forall n | n in w.temporary ensures n.event.id == other ==> n.serial != serial {
        assert Waits(n, |w.slots|, w.events, table);
      }
      HoldsMore(w.temporary, Unlinked(w.temporary, serial), other);
    } else {
      var h := Home(remaining, w.current, |w.slots|);
      forall n | n in w.slots[h] ensures n.event.id == other ==> n.serial != serial {
        assert InPlace(n, h, |w.slots|, w.events, w.current, table);
      }
      HoldsMore(w.slots[h], Unlinked(w.slots[h], serial), other);
    }
  }

  /** Unlinking by node identity removes the event, stale list pointer or not. */
  lemma CancelRefines(c: Config, w: Wheel, table: Table, e: TimeEvent)
    requires Refines(c, w, table) && e.id in table
    ensures Refines(c, Erase(w, e.id), Step(c, table, Cancel(Some(e))))
  {
    EraseInSlots(w, table, e.id);
    EraseInTemporary(w, table, e.id);
    forall other | other in table - {e.id} ensures Stored(Erase(w, e.id), other, table[other].remaining) {
      OthersStayStored(w, table, e.id, other);
    }
    SerialsShrink(w.events, w.nextSerial, e.id);
    StepKeepsWellFormed(c, table, Cancel(Some(e)));
  }

  // ----- the tick ------------------------------------------------------------------------

  /** What is due is exactly what the quantum under the hand holds. */
  lemma DueIsUnderTheHand(w: Wheel, table: Table)
    requires Agree(w, table)
    ensures forall id :: id in Due(table) <==> Holds(w.slots[w.current], id)
    ensures forall n :: n in w.slots[w.current] ==> Indexed(n, 1, w.events, table)
  {
    forall n | n in w.slots[w.current] ensures Indexed(n, 1, w.events, table) {
      assert InPlace(n, w.current, |w.slots|, w.events, w.current, table);
    }
    forall id | id in Due(table) ensures Holds(w.slots[w.current], id) {
      assert Stored(w, id, table[id].remaining);
    }
    forall id | Holds(w.slots[w.current], id) ensures id in Due(table) {
      var n :| n in w.slots[w.current] && n.event.id == id;
      assert Indexed(n, 1, w.events, table);
    }
  }

  /** The wheel without the first node of the quantum under the hand, which the index forgets. */
  ghost function WithoutFirst(w: Wheel): Wheel
    requires w.current < |w.slots| && w.slots[w.current] != []
  {
    w.(slots := w.slots[w.current := w.slots[w.current][1..]], events := w.events - {w.slots[w.current][0].event.id})
  }

  lemma RestIsDistinct(q: Quantum)
    requires DistinctIds(q) && q != []
    ensures DistinctIds(q[1..]) && forall n :: n in q[1..] ==> n in q && n.event.id != q[0].event.id
  {
  }

  lemma FirstLeavesTheSlots(w: Wheel, table: Table)
    requires w.current < |w.slots| && w.slots[w.current] != [] && SlotsAgree(w, table)
    ensures SlotsAgree(WithoutFirst(w), table - {w.slots[w.current][0].event.id})
  {
    var first, w' := w.slots[w.current][0], WithoutFirst(w);
    var id := first.event.id;
    assert DistinctIds(w.slots[w.current]);
    RestIsDistinct(w.slots[w.current]);
    assert first in w.slots[w.current] && InPlace(first, w.current, |w.slots|, w.events, w.current, table);
    forall i | 0 <= i < |w.slots| ensures DistinctIds(w'.slots[i]) {
      assert DistinctIds(w.slots[i]);
    }
    forall i, n | 0 <= i < |w.slots| && n in w'.slots[i]
      ensures InPlace(n, i, |w.slots|, w'.events, w.current, table - {id})
    {
      assert n in w.slots[i] && InPlace(n, i, |w.slots|, w.events, w.current, table);
    }
  }

  lemma FirstLeavesTheTemporary(w: Wheel, table: Table)
    requires Agree(w, table) && w.slots[w.current] != []
    ensures TemporaryAgrees(WithoutFirst(w), table - {w.slots[w.current][0].event.id})
  {
    var first, w' := w.slots[w.current][0], WithoutFirst(w);
    assert first in w.slots[w.current] && InPlace(first, w.current, |w.slots|, w.events, w.current, table);
    forall n | n in w.temporary ensures Waits(n, |w.slots|, w'.events, table - {first.event.id}) {
      assert Waits(n, |w.slots|, w.events, table);
    }
  }

  lemma OthersOutliveTheFirst(w: Wheel, table: Table)
    requires Agree(w, table) && w.slots[w.current] != []
    ensures AllStored(WithoutFirst(w), table - {w.slots[w.current][0].event.id})
  {
    var id, w' := w.slots[w.current][0].event.id, WithoutFirst(w);
    forall other | other in table - {id} ensures Stored(w', other, table[other].remaining) {
      assert Stored(w, other, table[other].remaining);
      if table[other].remaining <= |w.slots| {
        var h := Home(table[other].remaining, w.current, |w.slots|);
        HoldsMore(w.slots[h], w'.slots[h], other);
      }
    }
  }

  /** Taking the first node out of the quantum under the hand. */
  lemma ForgetFirst(w: Wheel, table: Table)
    requires Agree(w, table) && w.slots[w.current] != []
    ensures Agree(WithoutFirst(w), table - {w.slots[w.current][0].event.id})
  {
    FirstLeavesTheSlots(w, table);
    FirstLeavesTheTemporary(w, table);
    OthersOutliveTheFirst(w, table);
    SerialsShrink(w.events, w.nextSerial, w.slots[w.current][0].event.id);
  }

  /** A due event is forgotten, and starts again if it is a Clock. */
  ghost function TableAfter(c: Config, table: Table, e: TimeEvent): Table
    requires c.resolution > 0
  {
    if e.periodical then (table - {e.id})[e.id := Entry(e, Turns(c, e) + 1)] else table - {e.id}
  }

  /** The countdown table after the first `k` due events have been handled. */
  ghost function MidTable(c: Config, start: Table, due: Quantum, k: nat): Table
    requires c.resolution > 0 && k <= |due|
  {
    if k == 0 then start
    else TableAfter(c, MidTable(c, start, due, k - 1), due[k - 1].event)
  }

  /** Half way through the firing loop: the nodes already fired apart, wheel and table agree. */
  lemma {:induction false} FiringAgrees(c: Config, w: Wheel, table: Table, k: nat)
    requires Refines(c, w, table) && Sound(w) && k <= |w.slots[w.current]|
    ensures Agree(Without(FireMany(c, w, k), k), MidTable(c, table, w.slots[w.current], k))
  {
    if k == 0 {
      assert Without(w, 0) == w;
    } else {
      FiringAgrees(c, w, table, k - 1);
      var node := w.slots[w.current][k - 1];
      assert node in w.slots[w.current];
      DueTimeoutFits(c, w, table, node);
      FireOneAgrees(c, FireMany(c, w, k - 1), MidTable(c, table, w.slots[w.current], k - 1), k - 1);
    }
  }

  lemma DueTimeoutFits(c: Config, w: Wheel, table: Table, n: Node)
    requires Refines(c, w, table) && n in w.slots[w.current]
    ensures c.resolution <= n.event.timeout <= c.maxTime
  {
    DueIsUnderTheHand(w, table);
  }

  lemma NextIsWithoutFirst(w: Wheel, k: nat)
    requires w.current < |w.slots| && k < |w.slots[w.current]|
    ensures Without(w, k).slots[w.current][0] == w.slots[w.current][k]
    ensures WithoutFirst(Without(w, k)) == Without(w.(events := w.events - {w.slots[w.current][k].event.id}), k + 1)
  {
    var q := w.slots[w.current];
    assert q[k..][1..] == q[k + 1..];
    assert w.slots[w.current := q[k..]][w.current := q[k + 1..]] == w.slots[w.current := q[k + 1..]];
  }

  lemma FireOneAgrees(c: Config, w: Wheel, table: Table, k: nat)
    requires w.current < |w.slots| && k < |w.slots[w.current]| && Agree(Without(w, k), table)
    requires 0 < c.resolution <= w.slots[w.current][k].event.timeout <= c.maxTime <= |w.slots| * c.resolution
    ensures var e := w.slots[w.current][k].event;
            Agree(Without(FireOne(c, w, e), k + 1), TableAfter(c, table, e))
  {
    var e := w.slots[w.current][k].event;
    var forgotten := w.(events := w.events - {e.id});
    ForgetFirst(Without(w, k), table);
    NextIsWithoutFirst(w, k);
    if e.periodical {
      StoreCounts(c, Without(forgotten, k + 1), table - {e.id}, e);
      StoreLeavesTheHand(c, forgotten, e, k + 1);
    }
  }

  /** The firing loop never inserts into the quantum it iterates. */
  lemma StoreLeavesTheHand(c: Config, w: Wheel, e: TimeEvent, k: nat)
    requires c.resolution > 0 && w.current < |w.slots| && e.timeout >= 0 && k <= |w.slots[w.current]|
    ensures Store(c, w, e).slots[w.current] == w.slots[w.current]
    ensures Without(Store(c, w, e), k) == Store(c, Without(w, k), e)
  {
    var home := (w.current + Turns(c, e)) % |w.slots|;
    if home != w.current {
      assert Without(Store(c, w, e), k).slots == Store(c, Without(w, k), e).slots;
    }
  }

  lemma HoldsOneMore(due: Quantum, k: nat, id: Id)
    requires 0 < k <= |due|
    ensures Holds(due[..k], id) <==> Holds(due[..k - 1], id) || id == due[k - 1].event.id
  {
    assert due[..k] == due[..k - 1] + [due[k - 1]] && due[k - 1] in due[..k];
    if Holds(due[..k], id) && id != due[k - 1].event.id {
      HoldsMore(due[..k], due[..k - 1], id);
    } else if Holds(due[..k - 1], id) {
      HoldsMore(due[..k - 1], due[..k], id);
    }
  }

  lemma {:induction false} MidTableAt(c: Config, start: Table, due: Quantum, k: nat)
    requires c.resolution > 0 && k <= |due| && DistinctIds(due)
    requires forall n :: n in due ==> n.event.id in start && start[n.event.id].event == n.event
    ensures var t := MidTable(c, start, due, k);
            && (forall id :: id in t <==> id in start && (Holds(due[..k], id) ==> start[id].event.periodical))
            && (forall id :: id in t ==>
                  t[id] == if Holds(due[..k], id) then Entry(start[id].event, Turns(c, start[id].event) + 1) else start[id])
  {
    if k > 0 {
      MidTableAt(c, start, due, k - 1);
      var node := due[k - 1];
      assert node in due;
      forall id ensures Holds(due[..k], id) <==> Holds(due[..k - 1], id) || id == node.event.id {
        HoldsOneMore(due, k, id);
      }
    }
  }

  /** Every countdown is one less. */
  ghost predicate OneLess(table: Table, table': Table) {
    && table'.Keys == table.Keys
    && forall id :: id in table ==> table'[id] == table[id].(remaining := table[id].remaining - 1)
  }

  lemma AdvanceMovesTheSlots(w: Wheel, table: Table, table': Table)
    requires Agree(w, table) && w.slots[w.current] == [] && 2 <= |w.slots| && OneLess(table, table')
    ensures SlotsAgree(Advance(w), table')
  {
    var w' := Advance(w);
    forall i, n | 0 <= i < |w.slots| && n in w'.slots[i]
      ensures InPlace(n, i, |w.slots|, w.events, w'.current, table')
    {
      if i == w.current {
        assert Waits(n, |w.slots|, w.events, table);
      } else {
        assert n in w.slots[i] && InPlace(n, i, |w.slots|, w.events, w.current, table);
      }
    }
    forall i | 0 <= i < |w.slots| ensures DistinctIds(w'.slots[i]) {
      if i != w.current { assert DistinctIds(w.slots[i]); }
    }
  }

  lemma AdvanceKeepsStored(w: Wheel, table: Table, table': Table)
    requires Agree(w, table) && w.slots[w.current] == [] && 2 <= |w.slots| && OneLess(table, table')
    ensures AllStored(Advance(w), table')
  {
    forall id | id in table' ensures Stored(Advance(w), id, table'[id].remaining) {
      assert Stored(w, id, table[id].remaining);
    }
  }

  /** Closing a tick takes one off every countdown. */
  lemma AdvanceCounts(w: Wheel, table: Table, table': Table)
    requires Agree(w, table) && w.slots[w.current] == [] && 2 <= |w.slots| && OneLess(table, table')
    ensures Agree(Advance(w), table')
  {
    AdvanceMovesTheSlots(w, table, table');
    AdvanceKeepsStored(w, table, table');
  }

  lemma HandIsSound(c: Config, w: Wheel, table: Table)
    requires Refines(c, w, table)
    ensures Sound(w)
  {
    DueIsUnderTheHand(w, table);
  }

  lemma FiredOnce(w: Wheel, table: Table)
    requires Agree(w, table)
    ensures forall i, j :: 0 <= i < j < |Fired(w)| ==> Fired(w)[i] != Fired(w)[j]
  {
    assert DistinctIds(w.slots[w.current]);
  }

  lemma TurnAgrees(c: Config, w: Wheel, table: Table)
    requires Refines(c, w, table) && Sound(w)
    ensures Agree(Turn(c, w), AfterTick(c, table))
  {
    var due := w.slots[w.current];
    var end := FireMany(c, w, |due|);
    FiringAgrees(c, w, table, |due|);
    MidTableEnds(c, w, table);
    AdvanceCounts(Without(end, |due|), MidTable(c, table, due, |due|), AfterTick(c, table));
    assert Advance(Without(end, |due|)) == Advance(end);
  }

  /** A turn of the wheel is a tick of the countdown, and it fires exactly what is due. */
  lemma TickRefines(c: Config, w: Wheel, table: Table)
    requires Refines(c, w, table)
    ensures Sound(w)
    ensures Refines(c, Turn(c, w), AfterTick(c, table))
    ensures forall id :: id in Fired(w) <==> id in Due(table)
    ensures forall i, j :: 0 <= i < j < |Fired(w)| ==> Fired(w)[i] != Fired(w)[j]
  {
    HandIsSound(c, w, table);
    DueIsUnderTheHand(w, table);
    FiredAreHeld(w);
    FiredOnce(w, table);
    TurnAgrees(c, w, table);
    StepKeepsWellFormed(c, table, Tick);
  }

  /** One tick off the table that the firing loop leaves is the tick of the countdown. */
  lemma MidTableEnds(c: Config, w: Wheel, table: Table)
    requires Refines(c, w, table)
    ensures var due := w.slots[w.current];
            OneLess(MidTable(c, table, due, |due|), AfterTick(c, table))
  {
    var due := w.slots[w.current];
    DueIsUnderTheHand(w, table);
    MidTableAt(c, table, due, |due|);
    assert due[..|due|] == due;
    var mid := MidTable(c, table, due, |due|);
    forall id | id in table ensures Holds(due, id) <==> table[id].remaining == 1 {
      assert Holds(due, id) <==> id in Due(table);
    }
    assert forall id :: id in mid <==> id in AfterTick(c, table);
  }

  lemma FiredAreHeld(w: Wheel)
    requires w.current < |w.slots|
    ensures forall id :: id in Fired(w) <==> Holds(w.slots[w.current], id)
  {
    var due := w.slots[w.current];
    forall id | Holds(due, id) ensures id in Fired(w) {
      var n :| n in due && n.event.id == id;
      var i :| 0 <= i < |due| && due[i] == n;
      assert Fired(w)[i] == id;
    }
    forall id | id in Fired(w) ensures Holds(due, id) {
      var i :| 0 <= i < |due| && Fired(w)[i] == id;
      assert due[i] in due;
    }
  }

  // ----- whole runs ----------------------------------------------------------------------

  function Serve(c: Config, w: Wheel, r: Request): Wheel
    requires c.resolution > 0 && Sound(w)
  {
    match r
    case Activate(event) => if Judge(c, w.events.Keys, event).Accepted? then Store(c, w, event.value) else w
    case Cancel(event) => if event.Some? && event.value.id in w.events then Erase(w, event.value.id) else w
    case Tick => Turn(c, w)
  }

  lemma ServeRefines(c: Config, w: Wheel, table: Table, r: Request)
    requires Refines(c, w, table)
    ensures Sound(w) && Refines(c, Serve(c, w, r), Step(c, table, r))
  {
    TickRefines(c, w, table);
    match r
    case Activate(event) =>
      if Judge(c, w.events.Keys, event).Accepted? { ActivateRefines(c, w, table, event.value); }
    case Cancel(event) =>
      if event.Some? {
        if event.value.id in w.events {
          CancelRefines(c, w, table, event.value);
        } else {
          assert table - {event.value.id} == table;
        }
      }
    case Tick =>
  }

  /** What the observers are told in a run of the wheel, tick by tick. */
  ghost function Notified(c: Config, w: Wheel, table: Table, rs: seq<Request>): seq<seq<Id>>
    requires Refines(c, w, table)
    decreases |rs|
  {
    if rs == [] then []
    else
      ServeRefines(c, w, table, rs[0]);
      (if rs[0].Tick? then [Fired(w)] else []) + Notified(c, Serve(c, w, rs[0]), Step(c, table, rs[0]), rs[1..])
  }

  /** These are the events of the set, each once. */
  ghost predicate Tells(told: seq<Id>, fires: set<Id>) {
    && (forall id :: id in told <==> id in fires)
    && (forall a, b :: 0 <= a < b < |told| ==> told[a] != told[b])
  }

  ghost predicate TellsAll(told: seq<seq<Id>>, fires: seq<set<Id>>) {
    |told| == |fires| && forall j {:trigger Tells(told[j], fires[j])} :: 0 <= j < |told| ==> Tells(told[j], fires[j])
  }

  lemma TellsOneMore(first: seq<Id>, told: seq<seq<Id>>, due: set<Id>, fires: seq<set<Id>>)
    requires Tells(first, due) && TellsAll(told, fires)
    ensures TellsAll([first] + told, [due] + fires)
  {
  }

  lemma {:induction false} RunTellsAll(c: Config, w: Wheel, table: Table, rs: seq<Request>)
    requires Refines(c, w, table)
    ensures TellsAll(Notified(c, w, table, rs), FireLog(c, table, rs))
    decreases |rs|
  {
    if rs != [] {
      ServeRefines(c, w, table, rs[0]);
      var next, after := Serve(c, w, rs[0]), Step(c, table, rs[0]);
      RunTellsAll(c, next, after, rs[1..]);
      if rs[0].Tick? {
        TickRefines(c, w, table);
        TellsOneMore(Fired(w), Notified(c, next, after, rs[1..]), Due(table), FireLog(c, after, rs[1..]));
      }
    }
  }

  /** In any interleaving of activate, cancel and ticks, the wheel tells its observers, tick by
      tick, of exactly the events whose countdown has run out, each once. */
  lemma RunRefines(c: Config, w: Wheel, table: Table, rs: seq<Request>)
    requires Refines(c, w, table)
    ensures var told, fires := Notified(c, w, table, rs), FireLog(c, table, rs);
            && |told| == |fires|
            && (forall j, id :: 0 <= j < |told| ==> (id in told[j] <==> id in fires[j]))
            && (forall j, a, b :: 0 <= j < |told| && 0 <= a < b < |told[j]| ==> told[j][a] != told[j][b])
  {
    RunTellsAll(c, w, table, rs);
    var told, fires := Notified(c, w, table, rs), FireLog(c, table, rs);
    forall j | 0 <= j < |told| ensures Tells(told[j], fires[j]) {}
  }

  // ----- what the wheel promises to a caller ---------------------------------------------

  /** An event in range that is not cancelled is told first on exactly the (k + 1)-th tick after its
      activation, with k = timeout / resolution. */
  lemma ActivatedIsToldInTime(c: Config, w: Wheel, table: Table, e: TimeEvent, rs: seq<Request>)
    requires Refines(c, w, table) && c.resolution <= e.timeout <= c.maxTime && e.id !in table && NeverCancelled(rs, e.id)
    ensures var told, k := Notified(c, w, table, [Activate(Some(e))] + rs), e.timeout / c.resolution;
            forall j :: 0 <= j < |told| && j <= k ==> (e.id in told[j] <==> j == k)
  {
    RunRefines(c, w, table, [Activate(Some(e))] + rs);
    ActivationToFiring(c, table, e, rs);
  }

  /** An event of a full turn waits apart, and is told first when the hand has gone round once and
      comes back. */
  lemma FullTurnIsToldInTime(c: Config, w: Wheel, table: Table, e: TimeEvent, rs: seq<Request>)
    requires Refines(c, w, table) && c.resolution <= e.timeout <= c.maxTime && e.id !in table && NeverCancelled(rs, e.id)
    requires e.timeout / c.resolution == |w.slots|
    ensures Sound(w)
            && var next := Serve(c, w, Activate(Some(e)));
               next.slots == w.slots && next.temporary == [Node(w.nextSerial, e)] + w.temporary
    ensures var told := Notified(c, w, table, [Activate(Some(e))] + rs);
            forall j :: 0 <= j < |told| && j <= |w.slots| ==> (e.id in told[j] <==> j == |w.slots|)
  {
    ServeRefines(c, w, table, Activate(Some(e)));
    ActivatedIsToldInTime(c, w, table, e, rs);
    AcceptedIff(c, w.events.Keys, e);
    Wrap(w.current + |w.slots|, |w.slots|);
  }

  /** With the least number of slots, only the maximum time can be a full turn, and it is one exactly
      when it is a multiple of the resolution. */
  lemma FullTurnIsTheMaximum(c: Config, timeout: int, slots: nat)
    requires c.resolution > 0 && timeout <= c.maxTime && (slots - 1) * c.resolution < c.maxTime <= slots * c.resolution
    ensures timeout / c.resolution == slots <==> timeout == c.maxTime == slots * c.resolution
  {
    assert timeout == (timeout / c.resolution) * c.resolution + timeout % c.resolution;
    if timeout == slots * c.resolution {
      MultipleHasQuotient(slots, c.resolution);
    }
  }

  lemma MultipleHasQuotient(n: nat, k: int)
    requires k > 0
    ensures (n * k) / k == n
  {
    var q := (n * k) / k;
    QuotientIsUnique(n * k, k, n, 0);
    assert n * k == q * k;
    if q > n { MultipleIsLarge(q - n, k); }
    if q < n { MultipleIsLarge(n - q, k); }
  }

  /** A Timer is told on that tick only. */
  lemma TimerIsToldOnce(c: Config, w: Wheel, table: Table, e: TimeEvent, rs: seq<Request>)
    requires Refines(c, w, table) && c.resolution <= e.timeout <= c.maxTime && e.id !in table && !e.periodical
    requires NeverCancelled(rs, e.id) && NeverActivated(rs, e.id)
    ensures var told, k := Notified(c, w, table, [Activate(Some(e))] + rs), e.timeout / c.resolution;
            forall j :: 0 <= j < |told| ==> (e.id in told[j] <==> j == k)
  {
    RunRefines(c, w, table, [Activate(Some(e))] + rs);
    ActivatedTimerFires(c, table, e, rs);
  }

  /** A Clock is told on that tick and then on every k-th tick. */
  lemma ClockIsToldPeriodically(c: Config, w: Wheel, table: Table, e: TimeEvent, rs: seq<Request>)
    requires Refines(c, w, table) && c.resolution <= e.timeout <= c.maxTime && e.id !in table && e.periodical
    requires NeverCancelled(rs, e.id)
    ensures e.timeout / c.resolution >= 1
    ensures var told, k := Notified(c, w, table, [Activate(Some(e))] + rs), e.timeout / c.resolution;
            forall j :: 0 <= j < |told| ==> (e.id in told[j] <==> j >= k && (j - k) % k == 0)
  {
    RunRefines(c, w, table, [Activate(Some(e))] + rs);
    ActivatedClockFires(c, table, e, rs);
  }

  /** An activation that is refused makes no difference to what the observers are told. */
  lemma RefusedIsNotTold(c: Config, w: Wheel, table: Table, e: TimeEvent, rs: seq<Request>)
    requires Refines(c, w, table) && (e.timeout < c.resolution || e.timeout > c.maxTime || e.id in table)
    ensures Notified(c, w, table, [Activate(Some(e))] + rs) == Notified(c, w, table, rs)
  {
    AcceptedIff(c, w.events.Keys, e);
    StepAccepts(c, table, e);
    assert ([Activate(Some(e))] + rs)[1..] == rs;
  }

  /** A cancelled event is not told any more, unless it is activated again. */
  lemma CancelledIsNotTold(c: Config, w: Wheel, table: Table, e: TimeEvent, rs: seq<Request>)
    requires Refines(c, w, table) && NeverActivated(rs, e.id)
    ensures var told := Notified(c, w, table, [Cancel(Some(e))] + rs);
            forall j :: 0 <= j < |told| ==> e.id !in told[j]
  {
    RunRefines(c, w, table, [Cancel(Some(e))] + rs);
    CancelSilences(c, table, e, rs);
  }

  // ----- the order within a tick ---------------------------------------------------------

  /** Lists grow at the front, and serials grow with every store. */
  ghost predicate NewestFirst(q: Quantum, nextSerial: nat) {
    && (forall i :: 0 <= i < |q| ==> q[i].serial < nextSerial)
    && (forall i, j :: 0 <= i < j < |q| ==> q[i].serial > q[j].serial)
  }

  ghost predicate InOrder(w: Wheel) {
    && NewestFirst(w.temporary, w.nextSerial)
    && (forall i {:trigger NewestFirst(w.slots[i], w.nextSerial)} :: 0 <= i < |w.slots| ==>
          NewestFirst(w.slots[i], w.nextSerial))
  }

  lemma StoreKeepsOrder(c: Config, w: Wheel, e: TimeEvent)
    requires c.resolution > 0 && w.current < |w.slots| && e.timeout >= 0 && InOrder(w)
    ensures InOrder(Store(c, w, e))
  {
    var r := Store(c, w, e);
    forall i | 0 <= i < |w.slots| ensures NewestFirst(r.slots[i], r.nextSerial) {
      assert NewestFirst(w.slots[i], w.nextSerial);
    }
  }

  lemma NewestInFront(n: Node, q: Quantum, nextSerial: nat)
    requires NewestFirst(q, nextSerial) && n.serial < nextSerial && forall m :: m in q ==> m.serial < n.serial
    ensures NewestFirst([n] + q, nextSerial)
  {
    forall i | 0 <= i < |q| ensures q[i].serial < n.serial { assert q[i] in q; }
  }

  lemma NewestAndRest(q: Quantum, nextSerial: nat)
    requires NewestFirst(q, nextSerial) && q != []
    ensures NewestFirst(q[1..], nextSerial) && forall m :: m in q[1..] ==> m.serial < q[0].serial
  {
  }

  lemma {:induction false} UnlinkedKeepsOrder(q: Quantum, nextSerial: nat, serial: nat)
    requires NewestFirst(q, nextSerial)
    ensures NewestFirst(Unlinked(q, serial), nextSerial)
  {
    if q != [] {
      NewestAndRest(q, nextSerial);
      UnlinkedKeepsOrder(q[1..], nextSerial, serial);
      if q[0].serial != serial { NewestInFront(q[0], Unlinked(q[1..], serial), nextSerial); }
    }
  }

  lemma EraseKeepsOrder(w: Wheel, id: Id)
    requires id in w.events && InOrder(w)
    ensures InOrder(Erase(w, id))
  {
    var r, serial := Erase(w, id), w.events[id].serial;
    UnlinkedKeepsOrder(w.temporary, w.nextSerial, serial);
    forall i | 0 <= i < |w.slots| ensures NewestFirst(r.slots[i], r.nextSerial) {
      UnlinkedKeepsOrder(w.slots[i], w.nextSerial, serial);
    }
  }

  lemma {:induction false} FiringKeepsOrder(c: Config, w: Wheel, k: nat)
    requires c.resolution > 0 && Sound(w) && k <= |w.slots[w.current]| && InOrder(w)
    ensures InOrder(FireMany(c, w, k))
  {
    if k > 0 {
      var before, e := FireMany(c, w, k - 1), w.slots[w.current][k - 1].event;
      FiringKeepsOrder(c, w, k - 1);
      assert w.slots[w.current][k - 1] in w.slots[w.current];
      var forgotten := before.(events := before.events - {e.id});
      forall i | 0 <= i < |before.slots| ensures NewestFirst(forgotten.slots[i], forgotten.nextSerial) {
        assert NewestFirst(before.slots[i], before.nextSerial);
      }
      if e.periodical { StoreKeepsOrder(c, forgotten, e); }
    }
  }

  lemma ServeKeepsOrder(c: Config, w: Wheel, r: Request)
    requires c.resolution > 0 && Sound(w) && InOrder(w)
    requires r.Activate? && r.event.Some? && Judge(c, w.events.Keys, r.event).Accepted? ==> r.event.value.timeout >= 0
    ensures InOrder(Serve(c, w, r))
  {
    match r
    case Activate(event) => if Judge(c, w.events.Keys, event).Accepted? { StoreKeepsOrder(c, w, event.value); }
    case Cancel(event) => if event.Some? && event.value.id in w.events { EraseKeepsOrder(w, event.value.id); }
    case Tick =>
      var last := FireMany(c, w, |w.slots[w.current]|);
      FiringKeepsOrder(c, w, |w.slots[w.current]|);
      forall i | 0 <= i < |w.slots| ensures NewestFirst(Advance(last).slots[i], last.nextSerial) {
        assert NewestFirst(last.slots[i], last.nextSerial);
      }
  }

  /** The wheel after some requests. */
  ghost function WheelAfter(c: Config, w: Wheel, table: Table, rs: seq<Request>): (r: Wheel)
    requires Refines(c, w, table)
    ensures Sound(r)
    decreases |rs|
  {
    ServeRefines(c, w, table, Tick);
    if rs == [] then w
    else
      ServeRefines(c, w, table, rs[0]);
      WheelAfter(c, Serve(c, w, rs[0]), Step(c, table, rs[0]), rs[1..])
  }

  /** The next tick tells of the events in the order of their storing, the latest first. */
  ghost predicate TellsLatestFirst(w: Wheel)
    requires w.current < |w.slots|
  {
    var due := w.slots[w.current];
    forall i, j :: 0 <= i < j < |due| ==> due[i].serial > due[j].serial && Fired(w)[i] == due[i].event.id
  }

  /** Over any run, the events of one tick are told in the order of their last storing, the latest
      first. */
  lemma {:induction false} LatestIsToldFirst(c: Config, w: Wheel, table: Table, rs: seq<Request>)
    requires Refines(c, w, table) && InOrder(w)
    ensures TellsLatestFirst(WheelAfter(c, w, table, rs))
    decreases |rs|
  {
    if rs == [] {
      assert NewestFirst(w.slots[w.current], w.nextSerial);
    } else {
      ServeRefines(c, w, table, rs[0]);
      AcceptedIsPositive(c, w, rs[0]);
      ServeKeepsOrder(c, w, rs[0]);
      LatestIsToldFirst(c, Serve(c, w, rs[0]), Step(c, table, rs[0]), rs[1..]);
    }
  }

  lemma AcceptedIsPositive(c: Config, w: Wheel, r: Request)
    requires c.resolution > 0
    ensures r.Activate? && r.event.Some? && Judge(c, w.events.Keys, r.event).Accepted? ==> r.event.value.timeout >= 0
  {
    if r.Activate? && r.event.Some? { AcceptedIff(c, w.events.Keys, r.event.value); }
  }
}
