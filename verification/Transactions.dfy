/** The shared database transaction context: it finishes once. */
module Transactions {
  import opened Texts

  /** A DB-API connection: what is durable, what the open transaction has written since, how many
      commits and rollbacks were called, and how many succeeded. Any call may raise; a raising commit
      or rollback leaves the transaction open. */
  class Connection<T> {
    var durable: seq<T>
    var pending: seq<T>
    var calls: nat
    var finishes: nat

    constructor (durable: seq<T>)
      ensures this.durable == durable && pending == [] && calls == 0 && finishes == 0
    {
      this.durable, pending, calls, finishes := durable, [], 0, 0;
    }

    method Write(x: T, raises: bool) returns (ok: bool)
      modifies this`pending
      ensures ok == !raises && pending == old(pending) + (if ok then [x] else [])
    {
      if !raises {
        pending := pending + [x];
      }
      ok := !raises;
    }

    method Commit(raises: bool) returns (ok: bool)
      modifies this
      ensures ok == !raises && calls == old(calls) + 1
      ensures ok ==> durable == old(durable) + old(pending) && pending == [] && finishes == old(finishes) + 1
      ensures !ok ==> durable == old(durable) && pending == old(pending) && finishes == old(finishes)
    {
      calls := calls + 1;
      if !raises {
        durable, pending, finishes := durable + pending, [], finishes + 1;
      }
      ok := !raises;
    }

    method Rollback(raises: bool) returns (ok: bool)
      modifies this
      ensures ok == !raises && calls == old(calls) + 1
      ensures ok ==> durable == old(durable) && pending == [] && finishes == old(finishes) + 1
      ensures !ok ==> durable == old(durable) && pending == old(pending) && finishes == old(finishes)
    {
      calls := calls + 1;
      if !raises {
        pending, finishes := [], finishes + 1;
      }
      ok := !raises;
    }
  }

  /** A call made by a participant, and whether the connection raises in it. */
  datatype Action<T> = Write(item: T, raises: bool) | Commit(raises: bool) | Rollback(raises: bool)

  datatype State<T> = State(durable: seq<T>, pending: seq<T>, calls: nat, finishes: nat, finished: bool)

  function Step<T>(s: State<T>, a: Action<T>): State<T> {
    match a
    case Write(x, raises) => if raises then s else s.(pending := s.pending + [x])
    case Commit(raises) =>
      if s.finished then s
      else if raises then s.(calls := s.calls + 1)
      else State(s.durable + s.pending, [], s.calls + 1, s.finishes + 1, true)
    case Rollback(raises) =>
      if s.finished then s
      else if raises then s.(calls := s.calls + 1)
      else State(s.durable, [], s.calls + 1, s.finishes + 1, true)
  }

  function Run<T>(s: State<T>, actions: seq<Action<T>>): State<T>
    decreases |actions|
  {
    if actions == [] then s else Run(Step(s, actions[0]), actions[1..])
  }

  /** `ConnectionTransactionContext`. */
  class Context<T> {
    const connection: Connection<T>
    var finished: bool

    ghost function Current(): State<T>
      reads this, connection
    {
      State(connection.durable, connection.pending, connection.calls, connection.finishes, finished)
    }

    constructor (connection: Connection<T>)
      ensures this.connection == connection
      ensures Current() == State(connection.durable, connection.pending, connection.calls, connection.finishes, false)
    {
      this.connection := connection;
      finished := false;
    }

    method CommitOnce(raises: bool) returns (ok: bool)
      modifies this, connection
      ensures Current() == Step(old(Current()), Commit(raises))
      ensures ok <==> old(finished) || !raises
    {
      ok := true;
      if !finished {
        ok := connection.Commit(raises);
        if ok {
          finished := true;
        }
      }
    }

    method RollbackOnce(raises: bool) returns (ok: bool)
      modifies this, connection
      ensures Current() == Step(old(Current()), Rollback(raises))
      ensures ok <==> old(finished) || !raises
    {
      ok := true;
      if !finished {
        ok := connection.Rollback(raises);
        if ok {
          finished := true;
        }
      }
    }
  }

  // ---- whole runs -----------------------------------------------------------------------------------

  predicate Finishes<T>(a: Action<T>) { !a.Write? && !a.raises }

  /** The position of the first finishing call that succeeds, or the length of the run. */
  function FirstFinish<T>(actions: seq<Action<T>>): (n: nat)
    ensures n <= |actions|
    ensures forall i :: 0 <= i < n ==> !Finishes(actions[i])
    ensures n < |actions| ==> Finishes(actions[n])
  {
    if actions == [] || Finishes(actions[0]) then 0 else 1 + FirstFinish(actions[1..])
  }

  /** The items whose write succeeded. */
  function Written<T>(actions: seq<Action<T>>): seq<T> {
    if actions == [] then []
    else WrittenBy(actions[0]) + Written(actions[1..])
  }

  function WrittenBy<T>(a: Action<T>): seq<T> { if a.Write? && !a.raises then [a.item] else [] }

  /** How many of the calls ask the connection to commit or roll back. */
  function Attempts<T>(actions: seq<Action<T>>): nat {
    if actions == [] then 0 else (if actions[0].Write? then 0 else 1) + Attempts(actions[1..])
  }

  lemma {:induction false} FinishedStaysDurable<T>(s: State<T>, actions: seq<Action<T>>)
    requires s.finished
    ensures Run(s, actions) == s.(pending := s.pending + Written(actions))
    decreases |actions|
  {
    if actions != [] {
      FinishedStaysDurable(Step(s, actions[0]), actions[1..]);
      Regroup(s.pending, WrittenBy(actions[0]), Written(actions[1..]));
    }
  }

  /** No call finishes: the writes pile up. */
  lemma {:induction false} UnfinishedKeepsWriting<T>(s: State<T>, actions: seq<Action<T>>)
    requires !s.finished && forall i :: 0 <= i < |actions| ==> !Finishes(actions[i])
    ensures Run(s, actions) == s.(pending := s.pending + Written(actions), calls := s.calls + Attempts(actions))
    decreases |actions|
  {
    if actions != [] {
      UnfinishedKeepsWriting(Step(s, actions[0]), actions[1..]);
      Regroup(s.pending, WrittenBy(actions[0]), Written(actions[1..]));
    }
  }

  lemma FinishedBy<T>(s: State<T>, a: Action<T>, after: seq<Action<T>>)
    requires !s.finished && Finishes(a)
    ensures Run(s, [a] + after)
         == State(s.durable + (if a.Commit? then s.pending else []), Written(after), s.calls + 1, s.finishes + 1, true)
  {
    assert ([a] + after)[1..] == after;
    FinishedStaysDurable(Step(s, a), after);
    assert [] + Written(after) == Written(after);
  }

  lemma {:induction false} RunConcat<T>(s: State<T>, a: seq<Action<T>>, b: seq<Action<T>>)
    ensures Run(s, a + b) == Run(Run(s, a), b)
    decreases |a|
  {
    if a == [] {
      assert a + b == b;
    } else {
      assert (a + b)[1..] == a[1..] + b;
      RunConcat(Step(s, a[0]), a[1..], b);
    }
  }

  /** Over every sequence of calls, any of which may raise: at most one commit or rollback succeeds,
      none reaches the connection after it (while each one before it does), and what is durable is the
      initial state, followed, exactly when that call is a commit, by the writes that succeeded before
      it. Later writes never become durable. */
  lemma FinishesOnce<T>(s: State<T>, actions: seq<Action<T>>)
    requires !s.finished
    ensures Run(s, actions) == Finished(s, actions, FirstFinish(actions))
  {
    var n := FirstFinish(actions);
    if n == |actions| {
      assert actions[..n] == actions;
      UnfinishedKeepsWriting(s, actions);
    } else {
      var before, rest := actions[..n], [actions[n]] + actions[n + 1..];
      assert actions == before + rest;
      RunConcat(s, before, rest);
      UnfinishedKeepsWriting(s, before);
      FinishedBy(Run(s, before), actions[n], actions[n + 1..]);
    }
  }

  /** The state after calls of which the one at `n`, if there is one, is the first to finish. */
  ghost function Finished<T>(s: State<T>, actions: seq<Action<T>>, n: nat): State<T>
    requires n <= |actions|
  {
    var writes, calls := s.pending + Written(actions[..n]), s.calls + Attempts(actions[..n]);
    if n == |actions| then s.(pending := writes, calls := calls)
    else
      State(s.durable + (if actions[n].Commit? then writes else []), Written(actions[n + 1..]),
            calls + 1, s.finishes + 1, true)
  }
}
