/** The time service, updated in place. Every public operation runs under the mutex of the
    service, so a run is a sequence of complete operations; the model starts where
    do_initialize does. */
module TimeService {
  import opened Options
  import opened Countdown
  import opened TimingWheel

  /** The least number of quanta whose total time covers maxTime. */
  method CalculeMaxQuantum(maxTime: int, resolution: int) returns (result: int)
    requires maxTime >= 0 && resolution > 0
    ensures result * resolution >= maxTime
    ensures forall fewer :: 0 <= fewer < result ==> fewer * resolution < maxTime
  {
    result := maxTime / resolution;
    WholeTurnsFallShort(maxTime, resolution, result);
    while result * resolution < maxTime
      invariant result >= 0
      invariant forall fewer :: 0 <= fewer < result ==> fewer * resolution < maxTime
      decreases maxTime - result * resolution
    {
      result := result + 1;
    }
  }

  lemma WholeTurnsFallShort(maxTime: int, resolution: int, quotient: int)
    requires maxTime >= 0 && resolution > 0 && quotient == maxTime / resolution
    ensures forall fewer :: 0 <= fewer < quotient ==> fewer * resolution < maxTime
  {
    forall fewer | 0 <= fewer < quotient ensures fewer * resolution < maxTime {
      assert maxTime == quotient * resolution + maxTime % resolution;
      MultipleIsLarge(quotient - fewer, resolution);
    }
  }

  lemma TwoQuantaAtLeast(quanta: int, resolution: int, maxTime: int)
    requires resolution > 0 && quanta * resolution >= maxTime > resolution
    ensures quanta >= 2
  {
    if quanta <= 0 {
      MultipleIsLarge(1 - quanta, resolution);
      assert false;
    }
  }

  class TimeService {
    const maxTime: int
    const resolution: int
    const maxQuantum: int
    const timeTable: array<Quantum>
    var running: bool
    var currentQuantum: nat
    var events: map<Id, Location>
    var temporaryQuantum: Quantum
    var nextSerial: nat
    ghost var table: Table

    ghost function Settings(): Config {
      Config(maxTime, resolution)
    }

    ghost function View(): Wheel
      reads this, timeTable
    {
      Wheel(timeTable[..], temporaryQuantum, events, currentQuantum, nextSerial)
    }

    /** Before do_initialize nothing is stored; from then on the wheel refines the countdown. */
    ghost predicate Valid()
      reads this, timeTable
    {
      && resolution > 0 && maxTime >= 0
      && maxQuantum == timeTable.Length && maxQuantum * resolution >= maxTime
      && if running then Refines(Settings(), View(), table)
         else table == map[] && events == map[] && temporaryQuantum == [] && currentQuantum == 0
              && forall i :: 0 <= i < timeTable.Length ==> timeTable[i] == []
    }

    constructor (maxTime: int, resolution: int)
      requires maxTime >= 0 && resolution > 0
      ensures Valid() && fresh(timeTable) && this.maxTime == maxTime && this.resolution == resolution
      ensures table == map[] && !running
    {
      var quanta := CalculeMaxQuantum(maxTime, resolution);
      this.maxTime, this.resolution, maxQuantum := maxTime, resolution, quanta;
      timeTable := new Quantum[quanta](_ => []);
      running, currentQuantum, events, temporaryQuantum, nextSerial := false, 0, map[], [], 0;
      table := map[];
    }

    /** do_initialize: refuses a resolution that is not below the maximum time. */
    method Initialize() returns (ok: bool)
      requires Valid() && !running
      modifies this
      ensures Valid() && table == map[]
      ensures ok == running == (maxTime > resolution)
    {
      if maxTime <= resolution { return false; }
      TwoQuantaAtLeast(maxQuantum, resolution, maxTime);
      running := true;
      ok := true;
    }

    method Activate(event: Option<TimeEvent>) returns (verdict: Verdict)
      requires Valid()
      modifies this, timeTable
      ensures Valid() && running == old(running)
      ensures verdict.ServiceStopped? <==> !running
      ensures verdict.NullEvent? <==> running && event.None?
      ensures verdict.ZeroTimeout? <==> running && event.Some? && event.value.timeout == 0
      ensures verdict.OutOfRange? <==> running && event.Some? && event.value.timeout != 0
                                       && (event.value.timeout < resolution || event.value.timeout > maxTime)
      ensures verdict.AlreadyActivated? <==> running && event.Some? && resolution <= event.value.timeout <= maxTime
                                             && event.value.id in old(table)
      ensures verdict.Accepted? <==> running && event.Some? && resolution <= event.value.timeout <= maxTime
                                     && event.value.id !in old(table)
      ensures table == if verdict.Accepted?
                       then old(table)[event.value.id := Entry(event.value, event.value.timeout / resolution + 1)]
                       else old(table)
    {
      if !running { return ServiceStopped; }
      if event.None? { return NullEvent; }
      var timeEvent := event.value;
      var timeout := timeEvent.timeout;
      if timeout == 0 { return ZeroTimeout; }
      if timeout > maxTime || timeout < resolution { return OutOfRange; }
      if timeEvent.id in events { return AlreadyActivated; }
      ActivateRefines(Settings(), View(), table, timeEvent);
      Store(timeEvent);
      table := Step(Settings(), table, Request.Activate(event));
      verdict := Accepted;
    }

    method Store(timeEvent: TimeEvent)
      requires resolution > 0 && timeEvent.timeout >= 0
      requires currentQuantum < maxQuantum == timeTable.Length
      modifies timeTable, `temporaryQuantum, `events, `nextSerial
      ensures View() == TimingWheel.Store(Settings(), old(View()), timeEvent)
    {
      var indexQuantum := (currentQuantum + timeEvent.timeout / resolution) % maxQuantum;
      var node := Node(nextSerial, timeEvent);
      if indexQuantum == currentQuantum {
        temporaryQuantum := [node] + temporaryQuantum;
        events := events[timeEvent.id := Location(Temporary, nextSerial)];
      } else {
        timeTable[indexQuantum] := [node] + timeTable[indexQuantum];
        events := events[timeEvent.id := Location(Slot(indexQuantum), nextSerial)];
      }
      nextSerial := nextSerial + 1;
    }

    method Cancel(event: Option<TimeEvent>) returns (cancelled: bool)
      requires Valid()
      modifies this, timeTable
      ensures Valid() && running == old(running)
      ensures cancelled <==> event.Some? && event.value.id in old(table)
      ensures table == if cancelled then old(table) - {event.value.id} else old(table)
    {
      if event.None? { return false; }
      var id := event.value.id;
      if id !in events {
        assert table - {id} == table;
        return false;
      }
      CancelRefines(Settings(), View(), table, event.value);
      EraseNode(id);
      table := table - {id};
      cancelled := true;
    }

    method EraseNode(id: Id)
      requires id in events
      modifies timeTable, `temporaryQuantum, `events
      ensures View() == Erase(old(View()), id)
    {
      var serial := events[id].serial;
      forall i | 0 <= i < timeTable.Length {
        timeTable[i] := Unlinked(timeTable[i], serial);
      }
      temporaryQuantum := Unlinked(temporaryQuantum, serial);
      events := events - {id};
      assert timeTable[..] == Erase(old(View()), id).slots;
    }

    /** One turn of the consumer loop. `notified` is what the observers were told, in order. */
    method ConsumeTick() returns (notified: seq<Id>)
      requires Valid() && running
      modifies this, timeTable
      ensures Valid() && running
      ensures forall id :: id in notified <==> id in old(table) && old(table)[id].remaining == 1
      ensures forall i, j :: 0 <= i < j < |notified| ==> notified[i] != notified[j]
      ensures forall id :: id in table <==> id in old(table) && (old(table)[id].remaining > 1 || old(table)[id].event.periodical)
      ensures forall id :: id in table ==>
                table[id].event == old(table)[id].event
                && table[id].remaining == if old(table)[id].remaining > 1 then old(table)[id].remaining - 1
                                          else old(table)[id].event.timeout / resolution
    {
      TickRefines(Settings(), View(), table);
      notified := TurnWheel();
      table := AfterTick(Settings(), table);
    }

    method TurnWheel() returns (notified: seq<Id>)
      requires resolution > 0 && maxQuantum == timeTable.Length && Sound(View())
      modifies timeTable, `temporaryQuantum, `events, `nextSerial, `currentQuantum
      ensures View() == Turn(Settings(), old(View()))
      ensures notified == Fired(old(View()))
    {
      var timedout := timeTable[currentQuantum];
      ghost var start := View();
      var ii := 0;
      notified := [];
      while ii < |timedout|
        invariant 0 <= ii <= |timedout|
        invariant View() == FireMany(Settings(), start, ii)
        invariant |notified| == ii && forall j :: 0 <= j < ii ==> notified[j] == timedout[j].event.id
      {
        assert timedout[ii] in timedout;
        FireNode(timedout[ii].event);
        notified := notified + [timedout[ii].event.id];
        ii := ii + 1;
      }
      CloseQuantum();
    }

    /** The loop body: forget the event, tell the observers, and re-arm a Clock. */
    method FireNode(timeEvent: TimeEvent)
      requires resolution > 0 && timeEvent.timeout >= 0
      requires currentQuantum < maxQuantum == timeTable.Length
      modifies timeTable, `temporaryQuantum, `events, `nextSerial
      ensures View() == FireOne(Settings(), old(View()), timeEvent)
    {
      events := events - {timeEvent.id};
      if timeEvent.periodical {
        Store(timeEvent);
      }
    }

    method CloseQuantum()
      requires currentQuantum < maxQuantum == timeTable.Length
      modifies timeTable, `temporaryQuantum, `currentQuantum
      ensures View() == Advance(old(View()))
    {
      timeTable[currentQuantum] := [];
      if temporaryQuantum != [] {
        timeTable[currentQuantum] := timeTable[currentQuantum] + temporaryQuantum;
        temporaryQuantum := [];
      }
      assert timeTable[currentQuantum] == old(temporaryQuantum);
      assert timeTable[..] == old(timeTable[..])[currentQuantum := old(temporaryQuantum)];
      currentQuantum := currentQuantum + 1;
      if currentQuantum == maxQuantum {
        currentQuantum := 0;
      }
    }
  }
}
