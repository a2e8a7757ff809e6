/** What the time service promises, without any wheel: a table that counts, for every
    active event, the ticks that are left until it fires. */
module Countdown {
  import opened Options

  type Id = int

  /** An event as the service sees it: a Timer fires once, a Clock (`periodical`) is re-armed. */
  datatype TimeEvent = TimeEvent(id: Id, timeout: int, periodical: bool)

  datatype Config = Config(maxTime: int, resolution: int)

  datatype Entry = Entry(event: TimeEvent, remaining: int)

  type Table = map<Id, Entry>

  datatype Verdict = Accepted | ServiceStopped | NullEvent | ZeroTimeout | OutOfRange | AlreadyActivated

  datatype Request = Activate(event: Option<TimeEvent>) | Cancel(event: Option<TimeEvent>) | Tick

  /** The number of whole resolutions in the timeout of an event. */
  function Turns(c: Config, e: TimeEvent): int
    requires c.resolution > 0
  {
    e.timeout / c.resolution
  }

  function Judge(c: Config, active: set<Id>, event: Option<TimeEvent>): Verdict {
    if event.None? then NullEvent
    else if event.value.timeout == 0 then ZeroTimeout
    else if event.value.timeout > c.maxTime || event.value.timeout < c.resolution then OutOfRange
    else if event.value.id in active then AlreadyActivated
    else Accepted
  }

  ghost predicate WellFormed(c: Config, t: Table) {
    && c.resolution > 0
    && forall id :: id in t ==>
         && t[id].event.id == id
         && t[id].remaining >= 1
         && c.resolution <= t[id].event.timeout <= c.maxTime
  }

  /** The events that the next tick fires. */
  ghost function Due(t: Table): set<Id> {
    set id | id in t && t[id].remaining == 1
  }

  ghost function AfterTick(c: Config, t: Table): Table
    requires c.resolution > 0
  {
    map id | id in t && (t[id].remaining > 1 || t[id].event.periodical) ::
      if t[id].remaining > 1 then t[id].(remaining := t[id].remaining - 1)
      else t[id].(remaining := Turns(c, t[id].event))
  }

  ghost function Step(c: Config, t: Table, r: Request): Table
    requires c.resolution > 0
  {
    match r
    case Activate(event) =>
      if Judge(c, t.Keys, event).Accepted? then t[event.value.id := Entry(event.value, Turns(c, event.value) + 1)] else t
    case Cancel(event) => if event.Some? then t - {event.value.id} else t
    case Tick => AfterTick(c, t)
  }

  ghost function Run(c: Config, t: Table, rs: seq<Request>): Table
    requires c.resolution > 0
    decreases |rs|
  {
    if rs == [] then t else Run(c, Step(c, t, rs[0]), rs[1..])
  }

  /** What each tick of a run fires, in order: element j belongs to tick j + 1. */
  ghost function FireLog(c: Config, t: Table, rs: seq<Request>): seq<set<Id>>
    requires c.resolution > 0
    decreases |rs|
  {
    if rs == [] then []
    else (if rs[0].Tick? then [Due(t)] else []) + FireLog(c, Step(c, t, rs[0]), rs[1..])
  }

  lemma TurnsArePositive(c: Config, e: TimeEvent)
    requires 0 < c.resolution <= e.timeout
    ensures Turns(c, e) >= 1
  {
  }

  lemma StepKeepsWellFormed(c: Config, t: Table, r: Request)
    requires WellFormed(c, t)
    ensures WellFormed(c, Step(c, t, r))
  {
    forall e: TimeEvent | c.resolution <= e.timeout ensures Turns(c, e) >= 1 { TurnsArePositive(c, e); }
  }

  ghost predicate NeverCancelled(rs: seq<Request>, id: Id) {
    forall i :: 0 <= i < |rs| && rs[i].Cancel? && rs[i].event.Some? ==> rs[i].event.value.id != id
  }

  ghost predicate NeverActivated(rs: seq<Request>, id: Id) {
    forall i :: 0 <= i < |rs| && rs[i].Activate? && rs[i].event.Some? ==> rs[i].event.value.id != id
  }

  /** Whatever else happens, an active event that nobody cancels fires first on exactly the
      tick its countdown names. */
  lemma {:induction false} FirstFiring(c: Config, t: Table, rs: seq<Request>, id: Id)
    requires WellFormed(c, t) && id in t && NeverCancelled(rs, id)
    ensures forall j :: 0 <= j < |FireLog(c, t, rs)| && j < t[id].remaining ==>
                          (id in FireLog(c, t, rs)[j] <==> j == t[id].remaining - 1)
    decreases |rs|
  {
    if rs != [] {
      StepKeepsWellFormed(c, t, rs[0]);
      var next := Step(c, t, rs[0]);
      if rs[0].Tick? && t[id].remaining == 1 {
      } else {
        FirstFiring(c, next, rs[1..], id);
      }
    }
  }

  /** An id that is not active, and that nobody activates, never fires. */
  lemma {:induction false} InactiveNeverFires(c: Config, t: Table, rs: seq<Request>, id: Id)
    requires WellFormed(c, t) && id !in t && NeverActivated(rs, id)
    ensures forall j :: 0 <= j < |FireLog(c, t, rs)| ==> id !in FireLog(c, t, rs)[j]
    ensures id !in Run(c, t, rs)
    decreases |rs|
  {
    if rs != [] {
      StepKeepsWellFormed(c, t, rs[0]);
      InactiveNeverFires(c, Step(c, t, rs[0]), rs[1..], id);
    }
  }

  /** A Timer that is neither cancelled nor activated again fires exactly once. */
  lemma {:induction false} TimerFiresOnce(c: Config, t: Table, rs: seq<Request>, id: Id)
    requires WellFormed(c, t) && id in t && !t[id].event.periodical
    requires NeverCancelled(rs, id) && NeverActivated(rs, id)
    ensures forall j :: 0 <= j < |FireLog(c, t, rs)| ==> (id in FireLog(c, t, rs)[j] <==> j == t[id].remaining - 1)
    ensures id in Run(c, t, rs) <==> |FireLog(c, t, rs)| < t[id].remaining
    decreases |rs|
  {
    if rs != [] {
      StepKeepsWellFormed(c, t, rs[0]);
      var next := Step(c, t, rs[0]);
      if rs[0].Tick? && t[id].remaining == 1 {
        InactiveNeverFires(c, next, rs[1..], id);
      } else {
        TimerFiresOnce(c, next, rs[1..], id);
      }
    }
  }

  /** Tick j + 1 is one on which an event with this countdown and this period fires. */
  predicate OnBeat(remaining: int, period: int, j: int)
    requires period >= 1
  {
    j >= remaining - 1 && (j - (remaining - 1)) % period == 0
  }

  /** A Clock that is not cancelled fires on its first due tick and then on every k-th tick. */
  lemma {:induction false} ClockFiresPeriodically(c: Config, t: Table, rs: seq<Request>, id: Id)
    requires WellFormed(c, t) && id in t && t[id].event.periodical && NeverCancelled(rs, id)
    ensures t[id].event.timeout / c.resolution >= 1
    ensures forall j :: 0 <= j < |FireLog(c, t, rs)| ==>
                          (id in FireLog(c, t, rs)[j] <==> OnBeat(t[id].remaining, t[id].event.timeout / c.resolution, j))
    ensures id in Run(c, t, rs) && Run(c, t, rs)[id].event == t[id].event
    decreases |rs|
  {
    TurnsArePositive(c, t[id].event);
    if rs != [] {
      StepKeepsWellFormed(c, t, rs[0]);
      var next := Step(c, t, rs[0]);
      ClockFiresPeriodically(c, next, rs[1..], id);
      var log, rest := FireLog(c, t, rs), FireLog(c, next, rs[1..]);
      if rs[0].Tick? {
        assert log == [Due(t)] + rest;
        forall j | 0 <= j < |log| ensures id in log[j] <==> OnBeat(t[id].remaining, Turns(c, t[id].event), j) {
          BeatMovesWithTheTick(t[id].remaining, Turns(c, t[id].event), j);
          if j > 0 { assert log[j] == rest[j - 1]; }
        }
      }
    }
  }

  lemma BeatMovesWithTheTick(remaining: int, period: int, j: int)
    requires remaining >= 1 && period >= 1 && j >= 0
    ensures j == 0 ==> (OnBeat(remaining, period, j) <==> remaining == 1)
    ensures j > 0 ==>
              (OnBeat(remaining, period, j) <==> OnBeat(if remaining > 1 then remaining - 1 else period, period, j - 1))
  {
    var q, r := j / period, j % period;
    if remaining == 1 {
      assert j - period == (q - 1) * period + r;
      QuotientIsUnique(j - period, period, q - 1, r);
      if j < period { QuotientIsUnique(j, period, 0, j); }
    }
  }

  lemma QuotientIsUnique(x: int, k: int, q: int, r: int)
    requires k >= 1 && x == q * k + r && 0 <= r < k
    ensures x % k == r
  {
    var d := q - x / k;
    assert d * k == x % k - r by {
      assert x == (x / k) * k + x % k;
      assert d * k == q * k - (x / k) * k;
    }
    if d >= 1 { MultipleIsLarge(d, k); }
    if d <= -1 { MultipleIsLarge(-d, k); }
  }

  lemma MultipleIsLarge(d: int, k: int)
    requires d >= 1 && k >= 1
    ensures d * k >= k
  {
  }

  /** An event is accepted exactly when its timeout is between the resolution and the maximum time,
      both included, and its id is not active. */
  lemma AcceptedIff(c: Config, active: set<Id>, e: TimeEvent)
    requires c.resolution > 0
    ensures Judge(c, active, Some(e)).Accepted? <==> c.resolution <= e.timeout <= c.maxTime && e.id !in active
  {
  }

  lemma StepAccepts(c: Config, t: Table, e: TimeEvent)
    requires c.resolution > 0
    ensures Step(c, t, Activate(Some(e))) ==
            if c.resolution <= e.timeout <= c.maxTime && e.id !in t
            then t[e.id := Entry(e, e.timeout / c.resolution + 1)] else t
  {
  }

  /** The promise to a caller of activate: with k = timeout / resolution, an event that is in range
      and not cancelled fires first on exactly the (k + 1)-th tick that follows. */
  lemma ActivationToFiring(c: Config, t: Table, e: TimeEvent, rs: seq<Request>)
    requires WellFormed(c, t) && c.resolution <= e.timeout <= c.maxTime && e.id !in t
    requires NeverCancelled(rs, e.id)
    ensures var log, k := FireLog(c, t, [Activate(Some(e))] + rs), e.timeout / c.resolution;
            forall j :: 0 <= j < |log| && j <= k ==> (e.id in log[j] <==> j == k)
  {
    var r := Activate(Some(e));
    StepKeepsWellFormed(c, t, r);
    StepAccepts(c, t, e);
    FirstFiring(c, Step(c, t, r), rs, e.id);
    assert ([r] + rs)[1..] == rs;
  }

  /** From its activation on a Timer fires on the (k + 1)-th tick only. */
  lemma ActivatedTimerFires(c: Config, t: Table, e: TimeEvent, rs: seq<Request>)
    requires WellFormed(c, t) && c.resolution <= e.timeout <= c.maxTime && e.id !in t && !e.periodical
    requires NeverCancelled(rs, e.id) && NeverActivated(rs, e.id)
    ensures var log, k := FireLog(c, t, [Activate(Some(e))] + rs), e.timeout / c.resolution;
            forall j :: 0 <= j < |log| ==> (e.id in log[j] <==> j == k)
  {
    var r := Activate(Some(e));
    StepKeepsWellFormed(c, t, r);
    StepAccepts(c, t, e);
    TimerFiresOnce(c, Step(c, t, r), rs, e.id);
    assert ([r] + rs)[1..] == rs;
  }

  /** From its activation on a Clock fires on the (k + 1)-th tick and then on every k-th tick. */
  lemma ActivatedClockFires(c: Config, t: Table, e: TimeEvent, rs: seq<Request>)
    requires WellFormed(c, t) && c.resolution <= e.timeout <= c.maxTime && e.id !in t && e.periodical
    requires NeverCancelled(rs, e.id)
    ensures e.timeout / c.resolution >= 1
    ensures var log, k := FireLog(c, t, [Activate(Some(e))] + rs), e.timeout / c.resolution;
            forall j :: 0 <= j < |log| ==> (e.id in log[j] <==> j >= k && (j - k) % k == 0)
  {
    var r := Activate(Some(e));
    TurnsArePositive(c, e);
    StepKeepsWellFormed(c, t, r);
    StepAccepts(c, t, e);
    ClockFiresPeriodically(c, Step(c, t, r), rs, e.id);
    assert ([r] + rs)[1..] == rs;
  }

  /** An event out of range, or active already, changes nothing. */
  lemma RefusedIsIgnored(c: Config, t: Table, e: TimeEvent, rs: seq<Request>)
    requires c.resolution > 0 && (e.timeout < c.resolution || e.timeout > c.maxTime || e.id in t)
    ensures FireLog(c, t, [Activate(Some(e))] + rs) == FireLog(c, t, rs)
  {
    StepAccepts(c, t, e);
    assert ([Activate(Some(e))] + rs)[1..] == rs;
  }

  /** After a cancel the event never fires, until the id is activated again. */
  lemma CancelSilences(c: Config, t: Table, e: TimeEvent, rs: seq<Request>)
    requires WellFormed(c, t) && NeverActivated(rs, e.id)
    ensures var log := FireLog(c, t, [Cancel(Some(e))] + rs);
            forall j :: 0 <= j < |log| ==> e.id !in log[j]
  {
    var r := Cancel(Some(e));
    StepKeepsWellFormed(c, t, r);
    InactiveNeverFires(c, Step(c, t, r), rs, e.id);
    assert ([r] + rs)[1..] == rs;
  }
}
