/** The backtrace buffer: the last lines are kept, and written only in front of an error. */
module Backtrace {

  /** Levels in the order of logger::Level; the lower the worse. */
  const ERROR := 3
  const DEBUG := 7

  const MAX_BACKTRACKING_LENGTH := 4096

  datatype Line = Line(level: int, text: string)

  datatype Event = Log(line: Line) | SetLowest(level: int)

  function Length(backtrackingLength: int): int {
    if backtrackingLength < MAX_BACKTRACKING_LENGTH then backtrackingLength else MAX_BACKTRACKING_LENGTH
  }

  // ----- the whole history ---------------------------------------------------------------

  function Last<T>(s: seq<T>, n: nat): (r: seq<T>)
    ensures |r| == if |s| < n then |s| else n
  {
    if |s| <= n then s else s[|s| - n..]
  }

  /** The lowest level that is recorded after some events. */
  function LowestAfter(events: seq<Event>): int {
    if events == [] then DEBUG
    else
      var last, before := events[|events| - 1], events[..|events| - 1];
      if last.SetLowest? && last.level > ERROR then last.level else LowestAfter(before)
  }

  /** All lines recorded since the last error, however many. */
  function Pending(events: seq<Event>): seq<Line> {
    if events == [] then []
    else
      var last, before := events[|events| - 1], events[..|events| - 1];
      if last.SetLowest? then Pending(before)
      else if last.line.level <= ERROR then []
      else if last.line.level <= LowestAfter(before) then Pending(before) + [last.line]
      else Pending(before)
  }

  /** Each error, after the last `n` lines recorded since the one before; and nothing else. */
  function Written(events: seq<Event>, n: nat): seq<Line> {
    if events == [] then []
    else
      var last, before := events[|events| - 1], events[..|events| - 1];
      if last.Log? && last.line.level <= ERROR
      then Written(before, n) + (Last(Pending(before), n) + [last.line])
      else Written(before, n)
  }

  // ----- the writer ----------------------------------------------------------------------

  class BacktraceWriter {
    const backtrackingLength: int
    var lines: seq<Line>
    var lineCounter: int
    var lowestLevel: int
    /** What the stream has received. */
    var output: seq<Line>

    constructor (length: int)
      requires length >= 1
      ensures backtrackingLength == (if length <= 4096 then length else 4096) && Remembers([])
    {
      backtrackingLength := Length(length);
      lines, lineCounter, lowestLevel, output := [], 0, DEBUG, [];
    }

    /** The writer is in the state that these events lead to. */
    ghost predicate Remembers(events: seq<Event>)
      reads this
    {
      && backtrackingLength >= 1
      && lines == Last(Pending(events), backtrackingLength) && lineCounter == |lines|
      && lowestLevel == LowestAfter(events)
      && output == Written(events, backtrackingLength)
    }

    method SetLowestLevel(level: int, ghost events: seq<Event>)
      requires Remembers(events)
      modifies this`lowestLevel
      ensures Remembers(events + [SetLowest(level)])
    {
      Unfold(events, SetLowest(level));
      if level > ERROR { lowestLevel := level; }
    }

    /** BacktraceWriter::apply. */
    method Apply(line: Line, ghost events: seq<Event>)
      requires Remembers(events)
      modifies this
      ensures Remembers(events + [Log(line)])
    {
      Unfold(events, Log(line));
      if line.level <= ERROR {
        Flush();
        output := output + [line];
        assert output == old(output) + (old(lines) + [line]);
      } else if line.level <= lowestLevel {
        LastGrows(Pending(events), line, backtrackingLength);
        if lineCounter == backtrackingLength {
          lines := lines[1..];
          lines := lines + [line];
        } else {
          lines := lines + [line];
          lineCounter := lineCounter + 1;
        }
      }
    }

    /** BacktraceWriter::backtrace. */
    method Flush()
      modifies this`lines, this`lineCounter, this`output
      ensures output == old(output) + old(lines) && lines == [] && lineCounter == 0
    {
      for i := 0 to |lines|
        invariant lines == old(lines) && i <= |lines| && output == old(output) + lines[..i]
      {
        assert lines[..i + 1] == lines[..i] + [lines[i]];
        output := output + [lines[i]];
      }
      assert lines[..|lines|] == lines;
      lines := [];
      lineCounter := 0;
    }
  }

  lemma Unfold(events: seq<Event>, last: Event)
    ensures var all := events + [last]; all[|all| - 1] == last && all[..|all| - 1] == events
  {
  }

  /** Dropping the oldest line makes room exactly when the buffer is full. */
  lemma LastGrows<T>(s: seq<T>, x: T, n: nat)
    requires n >= 1
    ensures Last(s + [x], n) == (if |Last(s, n)| == n then Last(s, n)[1..] else Last(s, n)) + [x]
  {
  }

  // ----- what the output looks like ------------------------------------------------------

  lemma {:induction false} EndsWithError(events: seq<Event>, n: nat)
    requires Written(events, n) != []
    ensures Written(events, n)[|Written(events, n)| - 1].level <= ERROR
  {
    var last, before := events[|events| - 1], events[..|events| - 1];
    if !(last.Log? && last.line.level <= ERROR) { EndsWithError(before, n); }
  }

  /** At most `n` lines stand between two errors of the output. */
  lemma {:induction false} ErrorsAreClose(events: seq<Event>, n: nat, i: nat)
    requires i + n < |Written(events, n)|
    ensures exists j :: i <= j <= i + n && Written(events, n)[j].level <= ERROR
  {
    var last, before := events[|events| - 1], events[..|events| - 1];
    var earlier, all := Written(before, n), Written(events, n);
    if i + n < |earlier| {
      ErrorsAreClose(before, n, i);
      var j :| i <= j <= i + n && earlier[j].level <= ERROR;
      assert all[j].level <= ERROR;
    } else if i < |earlier| {
      EndsWithError(before, n);
      assert all[|earlier| - 1].level <= ERROR;
    } else {
      EndsWithError(events, n);
      assert all[i + n].level <= ERROR;
    }
  }

  /** What is recorded of some events, read forward from a lowest level. */
  function Recorded(events: seq<Event>, lowest: int): seq<Line> {
    if events == [] then []
    else
      match events[0]
      case SetLowest(level) => Recorded(events[1..], if level > ERROR then level else lowest)
      case Log(line) =>
        (if ERROR < line.level <= lowest then [line] else []) + Recorded(events[1..], lowest)
  }

  ghost predicate Quiet(events: seq<Event>) {
    forall i :: 0 <= i < |events| && events[i].Log? ==> events[i].line.level > ERROR
  }

  lemma OneEvent(before: seq<Event>, e: Event, n: nat)
    requires e.Log? ==> e.line.level > ERROR
    ensures Pending(before + [e]) == Pending(before) + Recorded([e], LowestAfter(before))
    ensures LowestAfter(before + [e]) == if e.SetLowest? && e.level > ERROR then e.level else LowestAfter(before)
    ensures Written(before + [e], n) == Written(before, n)
  {
    Unfold(before, e);
    assert [e][1..] == [];
    assert Pending(before) + [] == Pending(before);
  }

  lemma RecordedFirst(events: seq<Event>, lowest: int)
    requires events != []
    ensures Recorded(events, lowest) ==
            Recorded([events[0]], lowest) +
            Recorded(events[1..], if events[0].SetLowest? && events[0].level > 3 then events[0].level else lowest)
    ensures Recorded([events[0]], lowest) ==
            if events[0].Log? && 3 < events[0].line.level <= lowest then [events[0].line] else []
  {
    assert [events[0]][1..] == [];
  }

  lemma Regroup<T>(a: seq<T>, b: seq<T>, c: seq<T>)
    ensures (a + b) + c == a + (b + c)
  {
  }

  /** Events without an error write nothing, and add what is recorded of them to what waits. */
  lemma {:induction false} QuietEvents(before: seq<Event>, events: seq<Event>, n: nat)
    requires Quiet(events)
    ensures Written(before + events, n) == Written(before, n)
    ensures Pending(before + events) == Pending(before) + Recorded(events, LowestAfter(before))
    decreases events
  {
    if events == [] {
      assert before + events == before;
      assert Pending(before) + [] == Pending(before);
    } else {
      var first, rest := events[0], events[1..];
      OneEvent(before, first, n);
      QuietEvents(before + [first], rest, n);
      assert [first] + rest == events;
      Regroup(before, [first], rest);
      RecordedFirst(events, LowestAfter(before));
      Regroup(Pending(before), Recorded([first], LowestAfter(before)), Recorded(rest, LowestAfter(before + [first])));
    }
  }

  lemma ErrorFlushes(before: seq<Event>, line: Line, n: nat)
    requires line.level <= ERROR
    ensures Written(before + [Log(line)], n) == Written(before, n) + (Last(Pending(before), n) + [line])
    ensures Pending(before + [Log(line)]) == [] && LowestAfter(before + [Log(line)]) == LowestAfter(before)
  {
    Unfold(before, Log(line));
  }

  /** Between two errors the output grows by exactly the last `n` of the lines recorded in between,
      oldest first, and the second error; until then it does not grow at all. */
  lemma BetweenErrors(before: seq<Event>, first: Line, between: seq<Event>, second: Line, n: nat)
    requires first.level <= ERROR && second.level <= ERROR && Quiet(between)
    ensures var start := before + [Log(first)];
            && Written(start + between, n) == Written(start, n)
            && Written(start + between + [Log(second)], n) ==
               Written(start, n) + (Last(Recorded(between, LowestAfter(before)), n) + [second])
  {
    var start := before + [Log(first)];
    ErrorFlushes(before, first, n);
    QuietEvents(start, between, n);
    assert [] + Recorded(between, LowestAfter(before)) == Recorded(between, LowestAfter(before));
    ErrorFlushes(start + between, second, n);
  }

  function Logs(lines: seq<Line>): seq<Event> {
    seq(|lines|, i requires 0 <= i < |lines| => Log(lines[i]))
  }

  lemma {:induction false} RecordedLines(lines: seq<Line>)
    requires forall i :: 0 <= i < |lines| ==> 3 < lines[i].level <= 7
    ensures Recorded(Logs(lines), 7) == lines && Quiet(Logs(lines))
  {
    if lines == [] {
      assert Logs(lines) == [];
    } else {
      RecordedLines(lines[1..]);
      assert Logs(lines)[1..] == Logs(lines[1..]);
      RecordedFirst(Logs(lines), 7);
      assert [lines[0]] + lines[1..] == lines;
    }
  }

  lemma SilentUntilAnError(lines: seq<Line>, n: nat)
    requires forall i :: 0 <= i < |lines| ==> 3 < lines[i].level <= 7
    ensures Written(Logs(lines), n) == [] && Pending(Logs(lines)) == lines
  {
    RecordedLines(lines);
    QuietEvents([], Logs(lines), n);
    assert [] + Logs(lines) == Logs(lines);
    assert [] + lines == lines;
  }

  /** From the beginning: of the lines from warnings to debug traces nothing is written until an error
      comes, and then the last `n` and the error. */
  lemma FirstErrorShowsTheLast(lines: seq<Line>, error: Line, n: nat)
    requires (forall i :: 0 <= i < |lines| ==> 3 < lines[i].level <= 7) && error.level <= 3
    ensures Written(Logs(lines), n) == []
    ensures Written(Logs(lines) + [Log(error)], n) == (if |lines| <= n then lines else lines[|lines| - n..]) + [error]
  {
    SilentUntilAnError(lines, n);
    ErrorFlushes(Logs(lines), error, n);
    assert [] + (Last(lines, n) + [error]) == Last(lines, n) + [error];
  }
}
