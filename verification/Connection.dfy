/** The connection in place, between lock and unlock. The backend is a list of durable effects
    and a list of effects that wait for a commit. */
module Connection {
  import opened Transactions

  class Connection<E> {
    var durable: seq<E>
    var pending: seq<E>
    var commitPending: nat
    var rollbackPending: bool
    var maxCommitPending: int

    constructor ()
      ensures View() == State([], [], 0, false, 0)
    {
      durable, pending, commitPending, rollbackPending, maxCommitPending := [], [], 0, false, 0;
    }

    ghost function View(): State<E>
      reads this
    {
      State(durable, pending, commitPending, rollbackPending, maxCommitPending)
    }

    method Lock(begins: bool)
      modifies this
      ensures View() == Transactions.Lock(old(View()), begins)
      ensures durable == old(durable) && pending == old(pending) && maxCommitPending == old(maxCommitPending)
      ensures commitPending == (if begins then 1 else 0) && !rollbackPending
    {
      commitPending := 0;
      rollbackPending := false;
      if begins {
        commitPending := 1;
      }
    }

    method SetMaxCommitPending(max: int) returns (previous: int)
      modifies this
      ensures previous == old(maxCommitPending) && View() == Apply(old(View()), Op.SetMaxCommitPending(max))
    {
      previous := maxCommitPending;
      maxCommitPending := max;
    }

    method Commit()
      modifies this
      ensures View() == Apply(old(View()), Op.Commit)
      ensures durable == old(durable) + old(pending) && pending == [] && commitPending == 0 && !rollbackPending
    {
      durable, pending := durable + pending, [];
      commitPending := 0;
      rollbackPending := false;
    }

    method Rollback()
      modifies this
      ensures View() == Transactions.Rollback(old(View()))
      ensures durable == old(durable) && pending == [] && commitPending == 0 && !rollbackPending
    {
      pending := [];
      commitPending := 0;
      rollbackPending := false;
    }

    method Execute(statement: Statement<E>) returns (reply: Reply<E>)
      modifies this
      ensures View() == Apply(old(View()), Op.Execute(statement))
      ensures reply == ReplyTo(old(View()), statement)
      ensures reply.RefusedUntilRollback? <==> statement.requiresCommit && old(rollbackPending)
      ensures reply.StatementFailed? <==> statement.requiresCommit && !old(rollbackPending)
                                          && statement.rollbackOnError && !statement.answer.Success?
      ensures reply.Executed? ==> reply.answer == statement.answer
      ensures rollbackPending ==> old(rollbackPending) || reply.StatementFailed?
      ensures old(rollbackPending) || reply.StatementFailed? ==> rollbackPending
      ensures durable + pending ==
              old(durable) + old(pending) + if statement.requiresCommit && reply.Executed? && reply.answer.Success?
                                            then [reply.answer.effect] else []
      ensures var full := statement.requiresCommit && reply.Executed? && reply.answer.Success?
                          && 0 < maxCommitPending <= old(commitPending) + 1;
              if full then pending == [] && commitPending == 0 else durable == old(durable)
    {
      if statement.requiresCommit && rollbackPending { return RefusedUntilRollback; }
      reply := Executed(statement.answer);
      if !statement.requiresCommit { return; }
      if !statement.answer.Success? {
        if statement.rollbackOnError {
          rollbackPending := true;
          return StatementFailed;
        }
      } else {
        pending := pending + [statement.answer.effect];
        commitPending := commitPending + 1;
        if maxCommitPending > 0 && commitPending >= maxCommitPending {
          Commit();
        }
      }
    }

    method Unlock()
      modifies this
      ensures View() == Transactions.Unlock(old(View()))
      ensures durable == if !old(rollbackPending) && old(commitPending) > 0 then old(durable) + old(pending) else old(durable)
      ensures old(rollbackPending) || old(commitPending) > 0 ==> pending == [] && commitPending == 0 && !rollbackPending
    {
      if rollbackPending {
        Rollback();
      } else if commitPending > 0 {
        Commit();
      }
    }
  }
}
