/** A locked database connection as a state machine: pending work, batch commits, and the flag
    that poisons the session after a failure. The backend keeps durable and pending effects. */
module Transactions {

  /** What the database answers to one statement. A statement that does not succeed has no effect. */
  datatype Answer<+E> = Success(effect: E) | NotFound | Error

  datatype Statement<+E> = Statement(requiresCommit: bool, rollbackOnError: bool, answer: Answer<E>)

  datatype Reply<+E> = Executed(answer: Answer<E>) | RefusedUntilRollback | StatementFailed

  datatype State<+E> = State(durable: seq<E>, pending: seq<E>, commitPending: nat, rollbackPending: bool,
                                       maxCommitPending: int)

  /** What a client does between lock and unlock. */
  datatype Op<+E> = Execute(statement: Statement<E>) | Commit | SetMaxCommitPending(max: int)

  // ----- the operations ------------------------------------------------------------------

  /** Opening a session; `begins` is the result of do_beginTransaction. */
  function Lock<E>(c: State<E>, begins: bool): State<E> {
    c.(commitPending := if begins then 1 else 0, rollbackPending := false)
  }

  function DoCommit<E>(c: State<E>): State<E> {
    c.(durable := c.durable + c.pending, pending := [], commitPending := 0, rollbackPending := false)
  }

  function Rollback<E>(c: State<E>): State<E> {
    c.(pending := [], commitPending := 0, rollbackPending := false)
  }

  predicate ReachMaxCommitPending<E>(c: State<E>) {
    c.maxCommitPending > 0 && c.commitPending >= c.maxCommitPending
  }

  function ExecuteStatement<E>(c: State<E>, s: Statement<E>): State<E> {
    if !s.requiresCommit || c.rollbackPending then c
    else if !s.answer.Success? then (if s.rollbackOnError then c.(rollbackPending := true) else c)
    else
      var done := c.(pending := c.pending + [s.answer.effect], commitPending := c.commitPending + 1);
      if ReachMaxCommitPending(done) then DoCommit(done) else done
  }

  function ReplyTo<E>(c: State<E>, s: Statement<E>): Reply<E> {
    if s.requiresCommit && c.rollbackPending then RefusedUntilRollback
    else if s.requiresCommit && !s.answer.Success? && s.rollbackOnError then StatementFailed
    else Executed(s.answer)
  }

  function Apply<E>(c: State<E>, op: Op<E>): State<E> {
    match op
    case Execute(s) => ExecuteStatement(c, s)
    case Commit => DoCommit(c)
    case SetMaxCommitPending(max) => c.(maxCommitPending := max)
  }

  function Unlock<E>(c: State<E>): State<E> {
    if c.rollbackPending then Rollback(c) else if c.commitPending > 0 then DoCommit(c) else c
  }

  /** The connection after these operations of a session. */
  function During<E>(c: State<E>, begins: bool, ops: seq<Op<E>>): State<E> {
    if ops == [] then Lock(c, begins) else Apply(During(c, begins, ops[..|ops| - 1]), ops[|ops| - 1])
  }

  function Session<E>(c: State<E>, begins: bool, ops: seq<Op<E>>): State<E> {
    Unlock(During(c, begins, ops))
  }

  // ----- what a session means ------------------------------------------------------------

  /** A failure that poisons a healthy session. */
  predicate Fails<E>(op: Op<E>) {
    op.Execute? && op.statement.requiresCommit && op.statement.rollbackOnError && !op.statement.answer.Success?
  }

  /** A change to the database. */
  predicate Changes<E>(op: Op<E>) {
    op.Execute? && op.statement.requiresCommit && op.statement.answer.Success?
  }

  /** The session is poisoned: it has failed, and nobody has committed since. */
  predicate Poisoned<E>(ops: seq<Op<E>>) {
    ops != [] && var last := ops[|ops| - 1];
                 !last.Commit? && (Poisoned(ops[..|ops| - 1]) || Fails(last))
  }

  /** The changes that were carried out: a poisoned session refuses further ones. */
  function Effects<E>(ops: seq<Op<E>>): seq<E> {
    if ops == [] then []
    else
      var before, last := ops[..|ops| - 1], ops[|ops| - 1];
      Effects(before) + if Changes(last) && !Poisoned(before) then [last.statement.answer.effect] else []
  }

  /** All changes of a list of operations, carried out or not. */
  function AllChanges<E>(ops: seq<Op<E>>): seq<E> {
    if ops == [] then []
    else
      var before, last := ops[..|ops| - 1], ops[|ops| - 1];
      AllChanges(before) + if Changes(last) then [last.statement.answer.effect] else []
  }

  /** What the commits of the session have made durable so far, counted in effects. */
  function Saved<E>(c: State<E>, begins: bool, ops: seq<Op<E>>): int {
    |During(c, begins, ops).durable| - |c.durable|
  }

  // ----- the invariant -------------------------------------------------------------------

  ghost predicate Settled<E>(c: State<E>) {
    c.pending == []
  }

  /** Durable and pending together are everything carried out; the counter knows whether work
      is pending; the flag is the poison. */
  ghost predicate Accounts<E>(c: State<E>, begins: bool, ops: seq<Op<E>>) {
    var d := During(c, begins, ops);
    && d.durable + d.pending == c.durable + Effects(ops)
    && |c.durable| <= |d.durable| && c.durable <= d.durable
    && |d.pending| <= d.commitPending <= |d.pending| + 1
    && d.rollbackPending == Poisoned(ops)
  }

  lemma {:induction false} SessionAccounts<E>(c: State<E>, begins: bool, ops: seq<Op<E>>)
    requires Settled(c)
    ensures Accounts(c, begins, ops)
  {
    if ops != [] {
      var before, last := ops[..|ops| - 1], ops[|ops| - 1];
      SessionAccounts(c, begins, before);
      var d := During(c, begins, before);
      if Changes(last) && !Poisoned(before) {
        var e := last.statement.answer.effect;
        assert d.durable + (d.pending + [e]) == (d.durable + d.pending) + [e];
        assert c.durable + (Effects(before) + [e]) == (c.durable + Effects(before)) + [e];
      } else {
        assert Effects(ops) == Effects(before) + [] == Effects(before);
      }
    }
  }

  // ----- the promises --------------------------------------------------------------------

  /** What a session leaves behind, for every list of operations: all changes carried out, or,
      if it ends poisoned, only those of its last commit. Nothing stays pending. */
  lemma SessionOutcome<E>(c: State<E>, begins: bool, ops: seq<Op<E>>)
    requires Settled(c)
    ensures var end := Session(c, begins, ops);
            && Settled(end) && !end.rollbackPending && end.commitPending == 0
            && 0 <= Saved(c, begins, ops) <= |Effects(ops)|
            && end.durable == c.durable + if Poisoned(ops) then Effects(ops)[..Saved(c, begins, ops)] else Effects(ops)
  {
    SessionAccounts(c, begins, ops);
    var d := During(c, begins, ops);
    var all := c.durable + Effects(ops);
    assert d.durable == all[..|d.durable|];
    assert all[..|d.durable|] == c.durable + Effects(ops)[..|d.durable| - |c.durable|];
    if !Poisoned(ops) && d.commitPending == 0 {
      assert d.pending == [];
    }
  }

  lemma {:induction false} HealthyIsUnpoisoned<E>(ops: seq<Op<E>>)
    requires forall i :: 0 <= i < |ops| ==> !Fails(ops[i])
    ensures !Poisoned(ops) && Effects(ops) == AllChanges(ops)
  {
    if ops != [] {
      HealthyIsUnpoisoned(ops[..|ops| - 1]);
    }
  }

  /** A session in which no statement fails makes every change durable. */
  lemma HealthySessionKeepsAll<E>(c: State<E>, begins: bool, ops: seq<Op<E>>)
    requires Settled(c) && forall i :: 0 <= i < |ops| ==> !Fails(ops[i])
    ensures Session(c, begins, ops).durable == c.durable + AllChanges(ops)
  {
    SessionOutcome(c, begins, ops);
    HealthyIsUnpoisoned(ops);
  }

  /** From the first failure on, without an explicit commit, the durable state stays
      that of the last commit before the failure. */
  lemma FailedSessionStops<E>(c: State<E>, begins: bool, ops: seq<Op<E>>, j: nat)
    requires Settled(c) && j < |ops| && Fails(ops[j])
    requires forall i :: j < i < |ops| ==> !ops[i].Commit?
    ensures Session(c, begins, ops).durable == During(c, begins, ops[..j]).durable
    ensures Poisoned(ops)
  {
    PoisonStays(c, begins, ops, j);
    SessionAccounts(c, begins, ops);
  }

  lemma {:induction false} PoisonStays<E>(c: State<E>, begins: bool, ops: seq<Op<E>>, j: nat)
    requires Settled(c) && j < |ops| && Fails(ops[j])
    requires forall i :: j < i < |ops| ==> !ops[i].Commit?
    ensures Poisoned(ops) && During(c, begins, ops).rollbackPending
    ensures During(c, begins, ops).durable == During(c, begins, ops[..j]).durable
    decreases |ops|
  {
    var before := ops[..|ops| - 1];
    if j == |ops| - 1 {
      assert before == ops[..j];
      SessionAccounts(c, begins, ops);
    } else {
      PoisonStays(c, begins, before, j);
      assert before[..j] == ops[..j];
    }
  }

  /** Without batches and without explicit commits it is all or nothing: a failure leaves the
      durable state as it was before the session, and without one every change is durable. */
  lemma AllOrNothing<E>(c: State<E>, begins: bool, ops: seq<Op<E>>)
    requires Settled(c) && c.maxCommitPending <= 0 && forall i :: 0 <= i < |ops| ==> ops[i].Execute?
    ensures Session(c, begins, ops).durable ==
            if exists i :: 0 <= i < |ops| && Fails(ops[i]) then c.durable else c.durable + AllChanges(ops)
  {
    if i :| 0 <= i < |ops| && Fails(ops[i]) {
      FailedSessionStops(c, begins, ops, i);
      NoCommitNoChange(c, begins, ops[..i]);
    } else {
      HealthySessionKeepsAll(c, begins, ops);
    }
  }

  lemma {:induction false} NoCommitNoChange<E>(c: State<E>, begins: bool, ops: seq<Op<E>>)
    requires c.maxCommitPending <= 0 && forall i :: 0 <= i < |ops| ==> ops[i].Execute?
    ensures During(c, begins, ops).durable == c.durable
    ensures During(c, begins, ops).maxCommitPending == c.maxCommitPending
  {
    if ops != [] {
      NoCommitNoChange(c, begins, ops[..|ops| - 1]);
    }
  }

  /** A poisoned session refuses every change until somebody commits or rolls back. */
  lemma PoisonRefuses<E>(c: State<E>, begins: bool, ops: seq<Op<E>>, s: Statement<E>)
    requires Settled(c) && Poisoned(ops) && s.requiresCommit
    ensures ReplyTo(During(c, begins, ops), s) == RefusedUntilRollback
    ensures During(c, begins, ops + [Execute(s)]) == During(c, begins, ops)
  {
    SessionAccounts(c, begins, ops);
    assert (ops + [Execute(s)])[..|ops|] == ops;
  }

  /** The reply tells what happened: a failure exactly when it poisons the session, a refusal exactly
      when the session was poisoned before, and otherwise what the database answered; an effect is
      reported exactly when it is carried out. */
  lemma ReplyIsTrue<E>(c: State<E>, begins: bool, ops: seq<Op<E>>, s: Statement<E>)
    requires Settled(c)
    ensures var reply, now := ReplyTo(During(c, begins, ops), s), ops + [Execute(s)];
            && (reply.StatementFailed? <==> !Poisoned(ops) && Poisoned(now))
            && (reply.RefusedUntilRollback? <==> s.requiresCommit && Poisoned(ops))
            && (reply.Executed? ==> reply.answer == s.answer)
            && (s.requiresCommit ==>
                  if reply.Executed? && reply.answer.Success? then Effects(now) == Effects(ops) + [reply.answer.effect]
                  else Effects(now) == Effects(ops))
            && (!s.requiresCommit ==> reply.Executed? && During(c, begins, now) == During(c, begins, ops))
  {
    SessionAccounts(c, begins, ops);
    assert (ops + [Execute(s)])[..|ops|] == ops;
    assert Effects(ops) + [] == Effects(ops);
  }

  /** What poisons: a statement that requires a commit, is to be rolled back on an error, and does not
      succeed, not even by finding nothing. */
  lemma WhatPoisons<E>(ops: seq<Op<E>>, s: Statement<E>)
    ensures Poisoned(ops + [Execute(s)]) <==>
            Poisoned(ops) || (s.requiresCommit && s.rollbackOnError && (s.answer == NotFound || s.answer == Error))
    ensures !Poisoned<E>([]) && !Poisoned(ops + [Commit])
    ensures forall max :: Poisoned(ops + [SetMaxCommitPending(max)]) <==> Poisoned(ops)
  {
    assert (ops + [Execute(s)])[..|ops|] == ops && (ops + [Commit])[..|ops|] == ops;
    forall max ensures Poisoned(ops + [SetMaxCommitPending(max)]) <==> Poisoned(ops) {
      assert (ops + [SetMaxCommitPending(max)])[..|ops|] == ops;
    }
  }

  /** What is carried out: the effects of successful statements that require a commit, in an
      unpoisoned session. */
  lemma WhatIsCarriedOut<E>(ops: seq<Op<E>>, s: Statement<E>, e: E)
    ensures Effects<E>([]) == [] && Effects(ops + [Commit]) == Effects(ops)
    ensures s.requiresCommit && s.answer == Success(e) && !Poisoned(ops) ==> Effects(ops + [Execute(s)]) == Effects(ops) + [e]
    ensures !s.requiresCommit || !s.answer.Success? || Poisoned(ops) ==> Effects(ops + [Execute(s)]) == Effects(ops)
  {
    assert (ops + [Execute(s)])[..|ops|] == ops && (ops + [Commit])[..|ops|] == ops;
    assert Effects(ops) + [] == Effects(ops);
  }

  /** An explicit commit after a failure is not an error: it makes the work done before the
      failure durable and heals the session. */
  lemma CommitHeals<E>(c: State<E>, begins: bool, ops: seq<Op<E>>)
    requires Settled(c)
    ensures During(c, begins, ops + [Commit]).durable == c.durable + Effects(ops)
    ensures !Poisoned(ops + [Commit])
  {
    SessionAccounts(c, begins, ops);
    assert (ops + [Commit])[..|ops|] == ops;
  }

  // ----- batches -------------------------------------------------------------------------

  function Changing<E>(effects: seq<E>): seq<Op<E>> {
    seq(|effects|, i requires 0 <= i < |effects| => Execute(Statement(true, true, Success(effects[i]))))
  }

  lemma ChangingFirst<E>(effects: seq<E>, n: nat)
    requires 0 < n <= |effects|
    ensures Changing(effects[..n])[..n - 1] == Changing(effects[..n - 1])
  {
    assert effects[..n][..n - 1] == effects[..n - 1];
  }

  /** In a session of plain changes with a batch size of `max`, the first commit comes after
      `max` changes, or one earlier if opening the session has already begun a transaction. */
  lemma {:induction false} FirstBatch<E>(c: State<E>, begins: bool, effects: seq<E>)
    requires Settled(c) && c.maxCommitPending > 0
    requires |effects| == if begins && c.maxCommitPending > 1 then c.maxCommitPending - 1 else c.maxCommitPending
    ensures forall n :: 0 <= n < |effects| ==> During(c, begins, Changing(effects[..n])).durable == c.durable
    ensures During(c, begins, Changing(effects)).durable == c.durable + effects
  {
    forall n | 0 <= n < |effects| ensures During(c, begins, Changing(effects[..n])).durable == c.durable {
      BeforeFirstBatch(c, begins, effects, n);
    }
    LastOfBatch(c, begins, effects, |effects| - 1);
  }

  lemma LastOfBatch<E>(c: State<E>, begins: bool, effects: seq<E>, n: nat)
    requires Settled(c) && c.maxCommitPending > 0 && n + 1 == |effects|
    requires |effects| == if begins && c.maxCommitPending > 1 then c.maxCommitPending - 1 else c.maxCommitPending
    ensures During(c, begins, Changing(effects)).durable == c.durable + effects
  {
    assert effects[..n + 1] == effects && effects == effects[..n] + [effects[n]];
    BeforeFirstBatch(c, begins, effects, n);
    ChangingFirst(effects, n + 1);
    assert Changing(effects)[n] == Execute(Statement(true, true, Success(effects[n])));
  }

  lemma {:induction false} BeforeFirstBatch<E>(c: State<E>, begins: bool, effects: seq<E>, n: nat)
    requires Settled(c) && c.maxCommitPending > 0 && n < |effects|
    requires |effects| == if begins && c.maxCommitPending > 1 then c.maxCommitPending - 1 else c.maxCommitPending
    ensures var d := During(c, begins, Changing(effects[..n]));
            && d.durable == c.durable && d.pending == effects[..n] && !d.rollbackPending
            && d.commitPending == n + (if begins then 1 else 0) && d.maxCommitPending == c.maxCommitPending
  {
    if n > 0 {
      BeforeFirstBatch(c, begins, effects, n - 1);
      ChangingFirst(effects, n);
      assert effects[..n] == effects[..n - 1] + [effects[n - 1]];
    }
  }
}
