/** Bulk imports: one transaction checks that n requests fit, and each of the n is then created in a transaction
    of its own, which checks again. */
module ApprovalBatch {
  import opened Common
  import opened ApprovalQueue

  // ---------- the first check ----------

  /** The check for n is refused, and its transaction rolled back, exactly when n more requests do not fit. */
  lemma BatchRefusedIffFull(c: Config, s: State, actions: seq<Action>, tx: Tx, agent: Agent, n: nat)
    requires Quiet(s) && WithinCap(c, s) && n >= 1
    requires Holds(c, Run(c, s, actions), tx, agent)
    ensures var now := Run(c, s, actions);
            Holds(c, Step(c, now, Check(tx, agent, n)), tx, agent) <==> |PendingOf(now, agent)| + n <= c.max
  {
    CapHolds(c, s, actions);
    LockHolderSeesAll(c, Run(c, s, actions), tx, agent);
  }

  // ---------- the creates that follow ----------

  predicate Creates(s: State, a: Action, agent: Agent) {
    a.Create? && a.tx in s.ready && a.id !in s.rows && s.ready[a.tx] == agent
  }

  /** How many requests of the agent a run creates, by whomever. */
  function Created(c: Config, s: State, actions: seq<Action>, agent: Agent): nat {
    if actions == [] then 0
    else
      var before := actions[..|actions| - 1];
      Created(c, s, before, agent) + if Creates(Run(c, s, before), actions[|actions| - 1], agent) then 1 else 0
  }

  lemma StepAddsAtMost(c: Config, s: State, a: Action, agent: Agent)
    ensures |PendingOf(Step(c, s, a), agent)| <= |PendingOf(s, agent)| + if Creates(s, a, agent) then 1 else 0
  {
    var after := Step(c, s, a);
    if Creates(s, a, agent) {
      assert PendingOf(after, agent) == PendingOf(s, agent) + {a.id};
    } else {
      forall id | id in PendingOf(after, agent) ensures id in PendingOf(s, agent) {
        NothingNew(c, s, a, agent, id);
      }
      Subset(PendingOf(after, agent), PendingOf(s, agent));
    }
  }

  lemma NothingNew(c: Config, s: State, a: Action, agent: Agent, id: nat)
    requires !Creates(s, a, agent) && id in PendingOf(Step(c, s, a), agent)
    ensures id in PendingOf(s, agent)
  {
  }

  lemma {:induction false} RunAddsAtMost(c: Config, s: State, actions: seq<Action>, agent: Agent)
    ensures |PendingOf(Run(c, s, actions), agent)| <= |PendingOf(s, agent)| + Created(c, s, actions, agent)
  {
    if actions != [] {
      var before := actions[..|actions| - 1];
      RunAddsAtMost(c, s, before, agent);
      StepAddsAtMost(c, Run(c, s, before), actions[|actions| - 1], agent);
    }
  }

  lemma {:induction false} RunOn(c: Config, s: State, a: seq<Action>, b: seq<Action>)
    ensures Run(c, s, a + b) == Run(c, Run(c, s, a), b)
  {
    if b == [] {
      assert a + b == a;
    } else {
      RunOn(c, s, a, b[..|b| - 1]);
      assert (a + b)[..|a + b| - 1] == a + b[..|b| - 1];
    }
  }

  /** Once n fit, the next request of the agent finds room as long as fewer than n have been created since:
      a batch whose agent creates nothing else is never refused halfway. */
  lemma BatchFindsRoom(c: Config, s: State, actions: seq<Action>, agent: Agent, n: nat, later: seq<Action>, tx: Tx)
    requires Quiet(s) && WithinCap(c, s)
    requires |PendingOf(Run(c, s, actions), agent)| + n <= c.max
    requires Created(c, Run(c, s, actions), later, agent) < n
    requires Holds(c, Run(c, s, actions + later), tx, agent)
    ensures tx in Step(c, Run(c, s, actions + later), Check(tx, agent, 1)).ready
  {
    RunOn(c, s, actions, later);
    RunAddsAtMost(c, Run(c, s, actions), later, agent);
    RefusedIffFull(c, s, actions + later, tx, agent);
  }

  // ---------- and the bound is exact ----------

  lemma FreshId(used: set<nat>) returns (id: nat)
    ensures forall x :: x in used ==> x < id
  {
    if x :| x in used {
      assert used == used - {x} + {x};
      id := FreshId(used - {x});
      id := if id <= x then x + 1 else id;
    } else {
      id := 0;
    }
  }

  function WithRequest(s: State, agent: Agent, id: nat): State {
    s.(rows := s.rows[id := Request(agent, Pending, None)])
  }

  /** The four steps of one create that nothing comes between. */
  lemma CreateSteps(c: Config, s: State, agent: Agent, id: nat)
    requires Quiet(s) && id !in s.rows && |PendingOf(s, agent)| < c.max
    ensures var locked := Step(c, s, Lock(0, agent));
            var ready := Step(c, locked, Check(0, agent, 1));
            && !Creates(s, Lock(0, agent), agent) && !Creates(locked, Check(0, agent, 1), agent)
            && Creates(ready, Create(0, id), agent)
            && Step(c, Step(c, ready, Create(0, id)), Commit(0)) == WithRequest(s, agent, id)
  {
    var locked := Step(c, s, Lock(0, agent));
    assert CountedBy(locked, 0, agent) == PendingOf(s, agent);
    var ready := Step(c, locked, Check(0, agent, 1));
    assert ready == State(s.rows, map[c.hash(agent) := 0], map[0 := agent]);
    var written := Step(c, ready, Create(0, id));
    assert written.rows == s.rows[id := Request(agent, Pending, Some(0))];
    var done := Step(c, written, Commit(0));
    assert done.rows == WithRequest(s, agent, id).rows && done.locks == map[] && done.ready == map[];
  }

  lemma CreatedNext(c: Config, s: State, before: seq<Action>, a: Action, agent: Agent)
    ensures Run(c, s, before + [a]) == Step(c, Run(c, s, before), a)
    ensures Created(c, s, before + [a], agent)
         == Created(c, s, before, agent) + if Creates(Run(c, s, before), a, agent) then 1 else 0
  {
    assert (before + [a])[..|before|] == before;
  }

  lemma CreatedFour(
      c: Config, s: State, before: seq<Action>, lock: Action, check: Action, create: Action, commit: Action,
      agent: Agent)
    requires lock.Lock? && check.Check? && commit.Commit?
    ensures var ready := Step(c, Step(c, Run(c, s, before), lock), check);
            var after := before + [lock] + [check] + [create] + [commit];
            && Run(c, s, after) == Step(c, Step(c, ready, create), commit)
            && Created(c, s, after, agent)
               == Created(c, s, before, agent) + if Creates(ready, create, agent) then 1 else 0
  {
    CreatedNext(c, s, before, lock, agent);
    CreatedNext(c, s, before + [lock], check, agent);
    CreatedNext(c, s, before + [lock] + [check], create, agent);
    CreatedNext(c, s, before + [lock] + [check] + [create], commit, agent);
  }

  lemma CreateOne(c: Config, s: State, before: seq<Action>, agent: Agent) returns (after: seq<Action>)
    requires Quiet(Run(c, s, before)) && |PendingOf(Run(c, s, before), agent)| < c.max
    ensures Quiet(Run(c, s, after)) && Created(c, s, after, agent) == Created(c, s, before, agent) + 1
    ensures |PendingOf(Run(c, s, after), agent)| == |PendingOf(Run(c, s, before), agent)| + 1
  {
    var now := Run(c, s, before);
    var id := FreshId(now.rows.Keys);
    assert id !in now.rows;
    CreateSteps(c, now, agent, id);
    after := before + [Lock(0, agent)] + [Check(0, agent, 1)] + [Create(0, id)] + [Commit(0)];
    CreatedFour(c, s, before, Lock(0, agent), Check(0, agent, 1), Create(0, id), Commit(0), agent);
    OneMorePending(now, agent, id);
  }

  lemma OneMorePending(s: State, agent: Agent, id: nat)
    requires Quiet(s) && id !in s.rows
    ensures Quiet(WithRequest(s, agent, id))
    ensures |PendingOf(WithRequest(s, agent, id), agent)| == |PendingOf(s, agent)| + 1
  {
    assert PendingOf(WithRequest(s, agent, id), agent) == PendingOf(s, agent) + {id};
  }

  lemma CreateMany(c: Config, s: State, agent: Agent, n: nat) returns (later: seq<Action>)
    requires Quiet(s) && |PendingOf(s, agent)| + n <= c.max
    ensures Quiet(Run(c, s, later)) && Created(c, s, later, agent) == n
    ensures |PendingOf(Run(c, s, later), agent)| == |PendingOf(s, agent)| + n
    decreases n
  {
    if n == 0 {
      later := [];
    } else {
      later := CreateMany(c, s, agent, n - 1);
      later := CreateOne(c, s, later, agent);
    }
  }

  /** Every request of the agent that comes when m have been created since the check finds room. */
  ghost predicate RoomAfter(c: Config, s: State, agent: Agent, m: nat) {
    forall later, tx :: Created(c, s, later, agent) == m && Holds(c, Run(c, s, later), tx, agent) ==>
      tx in Step(c, Run(c, s, later), Check(tx, agent, 1)).ready
  }

  /** When exactly n fit, room for the next one is certain after m creates iff m is still below n. So if another
      create of the agent comes between, the last of the batch may be refused although the first check passed. */
  lemma RoomIffFewer(c: Config, s: State, agent: Agent, n: nat, m: nat)
    requires Quiet(s) && WithinCap(c, s) && |PendingOf(s, agent)| + n == c.max && m <= n
    ensures RoomAfter(c, s, agent, m) <==> m < n
  {
    if m < n {
      forall later, tx | Created(c, s, later, agent) == m && Holds(c, Run(c, s, later), tx, agent)
        ensures tx in Step(c, Run(c, s, later), Check(tx, agent, 1)).ready
      {
        assert [] + later == later;
        BatchFindsRoom(c, s, [], agent, n, later, tx);
      }
    } else {
      var full := CreateMany(c, s, agent, n);
      var later := full + [Lock(0, agent)];
      CreatedNext(c, s, full, Lock(0, agent), agent);
      RefusedIffFull(c, s, later, 0, agent);
      assert PendingOf(Run(c, s, later), agent) == PendingOf(Run(c, s, full), agent);
    }
  }
}
