/** The pending-approval cap: concurrent transactions that lock, count and insert
    (`ensure_approval_capacity` and `create_approval_request`), interleaved with reviews. */
module ApprovalQueue {
  import opened Common

  type Agent = string
  type Tx = nat

  datatype Status = Pending | Approved | Rejected | ApprovedFailed

  /** A row whose writer is a transaction is not committed yet and visible to that transaction only. */
  datatype Request = Request(agent: Agent, status: Status, writer: Option<Tx>)

  /** `ready` records the transactions that have just found room for one more request of an agent. */
  datatype State = State(rows: map<nat, Request>, locks: map<int, Tx>, ready: map<Tx, Agent>)

  datatype Action =
    | Lock(tx: Tx, agent: Agent)
    | Check(tx: Tx, agent: Agent, requested: int)
    | Create(tx: Tx, id: nat)
    | Commit(tx: Tx)
    | Rollback(tx: Tx)
    | Review(id: nat, approve: bool)
    | MarkFailed(id: nat)

  /** `hash` stands for the server's hashtext, `max` for MAX_PENDING_APPROVALS. */
  datatype Config = Config(hash: Agent -> int, max: nat)

  // ---------- counting ----------

  function PendingOf(s: State, agent: Agent): set<nat> {
    set id | id in s.rows && s.rows[id].status == Pending && s.rows[id].agent == agent
  }

  /** The rows that `count_pending_for_agent.sql` sees from inside a transaction. */
  function CountedBy(s: State, tx: Tx, agent: Agent): set<nat> {
    set id | id in s.rows && s.rows[id].status == Pending && s.rows[id].agent == agent
             && (s.rows[id].writer.None? || s.rows[id].writer == Some(tx))
  }

  // ---------- steps ----------

  predicate Holds(c: Config, s: State, tx: Tx, agent: Agent) {
    c.hash(agent) in s.locks && s.locks[c.hash(agent)] == tx
  }

  /** Advisory locks are released when their transaction ends. */
  function Released(s: State, tx: Tx): State {
    s.(locks := map k | k in s.locks && s.locks[k] != tx :: s.locks[k], ready := s.ready - {tx})
  }

  function RolledBack(s: State, tx: Tx): State {
    Released(s, tx).(rows := map id | id in s.rows && s.rows[id].writer != Some(tx) :: s.rows[id])
  }

  function Committed(s: State, tx: Tx): State {
    Released(s, tx).(rows := map id | id in s.rows ::
      if s.rows[id].writer == Some(tx) then s.rows[id].(writer := None) else s.rows[id])
  }

  /** One step; a step that is not enabled (a lock that is taken, a check without its lock) leaves the state as
      it is. */
  function Step(c: Config, s: State, a: Action): State {
    match a
    case Lock(tx, agent) =>
      if c.hash(agent) in s.locks then s else s.(locks := s.locks[c.hash(agent) := tx])
    case Check(tx, agent, requested) =>
      if !Holds(c, s, tx, agent) then s
      else if requested < 1 then s
      else if |CountedBy(s, tx, agent)| + requested > c.max then RolledBack(s, tx)
      else if requested == 1 then s.(ready := s.ready[tx := agent])
      else s
    case Create(tx, id) =>
      if tx !in s.ready || id in s.rows then s
      else s.(rows := s.rows[id := Request(s.ready[tx], Pending, Some(tx))], ready := s.ready - {tx})
    case Commit(tx) => Committed(s, tx)
    case Rollback(tx) => RolledBack(s, tx)
    case Review(id, approve) =>
      if id in s.rows && s.rows[id].writer.None? && s.rows[id].status == Pending
      then s.(rows := s.rows[id := s.rows[id].(status := if approve then Approved else Rejected)])
      else s
    case MarkFailed(id) =>
      if id in s.rows && s.rows[id].writer.None?
      then s.(rows := s.rows[id := s.rows[id].(status := ApprovedFailed)])
      else s
  }

  function Run(c: Config, s: State, actions: seq<Action>): State {
    if actions == [] then s else Step(c, Run(c, s, actions[..|actions| - 1]), actions[|actions| - 1])
  }

  // ---------- the cap ----------

  ghost predicate WithinCap(c: Config, s: State) {
    forall agent :: |PendingOf(s, agent)| <= c.max
  }

  ghost predicate Inv(c: Config, s: State) {
    && WithinCap(c, s)
    && (forall id :: id in s.rows && s.rows[id].writer.Some? ==> Holds(c, s, s.rows[id].writer.value, s.rows[id].agent))
    && (forall tx :: tx in s.ready ==> Holds(c, s, tx, s.ready[tx]) && |PendingOf(s, s.ready[tx])| < c.max)
  }

  /** A table without open transactions. */
  ghost predicate Quiet(s: State) {
    s.locks == map[] && s.ready == map[] && forall id :: id in s.rows ==> s.rows[id].writer.None?
  }

  /** Under the agent's lock the transaction counts every pending request there is, in flight or committed. */
  lemma LockHolderSeesAll(c: Config, s: State, tx: Tx, agent: Agent)
    requires Inv(c, s) && Holds(c, s, tx, agent)
    ensures CountedBy(s, tx, agent) == PendingOf(s, agent)
  {
  }

  lemma Subset(a: set<nat>, b: set<nat>)
    requires a <= b
    ensures |a| <= |b|
  {
    assert |b - a| == |b| - |a|;
  }

  /** A step after which no agent has more pending rows, and locks only go with their rows, keeps the invariant. */
  lemma ShrinkKeepsInv(c: Config, s: State, after: State)
    requires Inv(c, s)
    requires forall agent :: PendingOf(after, agent) <= PendingOf(s, agent)
    requires forall id :: id in after.rows && after.rows[id].writer.Some? ==>
               Holds(c, after, after.rows[id].writer.value, after.rows[id].agent)
    requires forall tx :: tx in after.ready ==>
             tx in s.ready && after.ready[tx] == s.ready[tx] && Holds(c, after, tx, after.ready[tx])
    ensures Inv(c, after)
  {
    forall agent ensures |PendingOf(after, agent)| <= |PendingOf(s, agent)| {
      Subset(PendingOf(after, agent), PendingOf(s, agent));
    }
  }

  lemma CreateKeepsInv(c: Config, s: State, tx: Tx, id: nat)
    requires Inv(c, s) && tx in s.ready && id !in s.rows
    ensures Inv(c, Step(c, s, Create(tx, id)))
  {
    PendingAfterCreate(c, s, tx, id);
    var after, agent := Step(c, s, Create(tx, id)), s.ready[tx];
    forall other ensures |PendingOf(after, other)| <= c.max {
      assert other != agent ==> PendingOf(after, other) == PendingOf(s, other);
    }
  }

  lemma PendingAfterCreate(c: Config, s: State, tx: Tx, id: nat)
    requires Inv(c, s) && tx in s.ready && id !in s.rows
    ensures var after := Step(c, s, Create(tx, id));
            PendingOf(after, s.ready[tx]) == PendingOf(s, s.ready[tx]) + {id}
            && forall other :: other != s.ready[tx] ==> PendingOf(after, other) == PendingOf(s, other)
  {
    var after, agent := Step(c, s, Create(tx, id)), s.ready[tx];
    assert PendingOf(after, agent) == PendingOf(s, agent) + {id};
    forall other | other != agent ensures PendingOf(after, other) == PendingOf(s, other) {
    }
  }

  lemma RollbackKeepsInv(c: Config, s: State, tx: Tx)
    requires Inv(c, s)
    ensures Inv(c, RolledBack(s, tx))
  {
    ShrinkKeepsInv(c, s, RolledBack(s, tx));
  }

  lemma CommitKeepsInv(c: Config, s: State, tx: Tx)
    requires Inv(c, s)
    ensures Inv(c, Committed(s, tx))
  {
    ShrinkKeepsInv(c, s, Committed(s, tx));
  }

  lemma ReviewKeepsInv(c: Config, s: State, id: nat, status: Status)
    requires Inv(c, s) && id in s.rows && status != Pending
    ensures Inv(c, s.(rows := s.rows[id := s.rows[id].(status := status)]))
  {
    ShrinkKeepsInv(c, s, s.(rows := s.rows[id := s.rows[id].(status := status)]));
  }

  lemma CheckKeepsInv(c: Config, s: State, tx: Tx, agent: Agent, requested: int)
    requires Inv(c, s)
    ensures Inv(c, Step(c, s, Check(tx, agent, requested)))
  {
    if Holds(c, s, tx, agent) && requested >= 1 {
      LockHolderSeesAll(c, s, tx, agent);
      var after := Step(c, s, Check(tx, agent, requested));
      if |CountedBy(s, tx, agent)| + requested > c.max {
        RollbackKeepsInv(c, s, tx);
      } else {
        assert forall other :: PendingOf(after, other) == PendingOf(s, other);
      }
    }
  }

  lemma LockKeepsInv(c: Config, s: State, tx: Tx, agent: Agent)
    requires Inv(c, s)
    ensures Inv(c, Step(c, s, Lock(tx, agent)))
  {
    assert forall other :: PendingOf(Step(c, s, Lock(tx, agent)), other) == PendingOf(s, other);
  }

  lemma StepKeepsInv(c: Config, s: State, a: Action)
    requires Inv(c, s)
    ensures Inv(c, Step(c, s, a))
  {
    match a
    case Lock(tx, agent) => LockKeepsInv(c, s, tx, agent);
    case Check(tx, agent, requested) => CheckKeepsInv(c, s, tx, agent, requested);
    case Create(tx, id) =>
      if tx in s.ready && id !in s.rows {
        CreateKeepsInv(c, s, tx, id);
      }
    case Commit(tx) => CommitKeepsInv(c, s, tx);
    case Rollback(tx) => RollbackKeepsInv(c, s, tx);
    case Review(id, approve) =>
      if id in s.rows {
        ReviewKeepsInv(c, s, id, if approve then Approved else Rejected);
      }
    case MarkFailed(id) =>
      if id in s.rows {
        ReviewKeepsInv(c, s, id, ApprovedFailed);
      }
  }

  /** Over every interleaving of transactions and reviews, the committed and in-flight pending requests
      of each agent stay within the cap, whatever the lock hash does. */
  lemma {:induction false} CapHolds(c: Config, s: State, actions: seq<Action>)
    requires Quiet(s) && WithinCap(c, s)
    ensures Inv(c, Run(c, s, actions)) && WithinCap(c, Run(c, s, actions))
  {
    if actions != [] {
      CapHolds(c, s, actions[..|actions| - 1]);
      StepKeepsInv(c, Run(c, s, actions[..|actions| - 1]), actions[|actions| - 1]);
    }
  }

  /** A request for room is refused exactly when the agent's pending requests, seen or not, leave none;
      and a refusal takes back everything its transaction wrote. */
  lemma RefusedIffFull(c: Config, s: State, actions: seq<Action>, tx: Tx, agent: Agent)
    requires Quiet(s) && WithinCap(c, s)
    requires Holds(c, Run(c, s, actions), tx, agent)
    ensures var now := Run(c, s, actions);
            var after := Step(c, now, Check(tx, agent, 1));
            && (tx in after.ready <==> |PendingOf(now, agent)| < c.max)
            && (tx !in after.ready ==>
                  forall id :: id in after.rows <==> id in now.rows && now.rows[id].writer != Some(tx))
  {
    CapHolds(c, s, actions);
    LockHolderSeesAll(c, Run(c, s, actions), tx, agent);
  }

  // ---------- what reviews and checks do to the queue ----------

  /** A review takes a committed pending request out of its agent's queue, with the reviewer's verdict, once and for
      all; any other request it leaves alone. */
  lemma ReviewFreesRoom(c: Config, s: State, id: nat, approve: bool)
    requires id in s.rows
    ensures var after := Step(c, s, Review(id, approve));
            if s.rows[id].writer.None? && s.rows[id].status == Pending then
              && after.rows.Keys == s.rows.Keys
              && after.rows[id].status == (if approve then Approved else Rejected)
              && after.rows[id].agent == s.rows[id].agent
              && PendingOf(after, s.rows[id].agent) == PendingOf(s, s.rows[id].agent) - {id}
              && forall other :: other in s.rows && other != id ==> after.rows[other] == s.rows[other]
            else after == s
  {
  }

  /** A failed executor marks its request, and no other. */
  lemma FailureIsMarked(c: Config, s: State, id: nat)
    requires id in s.rows && s.rows[id].writer.None?
    ensures var after := Step(c, s, MarkFailed(id));
            && after.rows.Keys == s.rows.Keys && after.rows[id].status == ApprovedFailed
            && forall other :: other in s.rows && other != id ==> after.rows[other] == s.rows[other]
  {
  }

  /** A check for no request at all is neither refused nor a claim to room. */
  lemma EmptyCheckDoesNothing(c: Config, s: State, tx: Tx, agent: Agent, requested: int)
    requires requested < 1
    ensures Step(c, s, Check(tx, agent, requested)) == s
  {
  }

  /** A lock is given to whoever asks while nobody has it, and otherwise stays where it is. */
  lemma LockIsExclusive(c: Config, s: State, tx: Tx, agent: Agent)
    ensures var after := Step(c, s, Lock(tx, agent));
            && (c.hash(agent) !in s.locks ==> Holds(c, after, tx, agent))
            && (c.hash(agent) in s.locks ==> after == s)
            && after.rows == s.rows && after.ready == s.ready
  {
  }

  /** A rollback takes back the transaction's own rows, claim and locks, and nothing else. */
  lemma RollbackTakesBack(c: Config, s: State, tx: Tx)
    ensures var after := Step(c, s, Rollback(tx));
            && (forall id :: id in after.rows <==> id in s.rows && s.rows[id].writer != Some(tx))
            && (forall id :: id in after.rows ==> after.rows[id] == s.rows[id])
            && (forall k :: k in after.locks <==> k in s.locks && s.locks[k] != tx)
            && (forall k :: k in after.locks ==> after.locks[k] == s.locks[k])
            && after.ready == s.ready - {tx}
  {
  }

  /** A commit makes the transaction's rows everybody's, as they are, and gives up its locks. */
  lemma CommitPublishes(c: Config, s: State, tx: Tx)
    ensures var after := Step(c, s, Commit(tx));
            && after.rows.Keys == s.rows.Keys
            && (forall id :: id in s.rows ==>
                  after.rows[id] == if s.rows[id].writer == Some(tx)
                                    then Request(s.rows[id].agent, s.rows[id].status, None) else s.rows[id])
            && (forall k :: k in after.locks <==> k in s.locks && s.locks[k] != tx)
            && after.ready == s.ready - {tx}
  {
  }

  /** A create adds one pending request, of the agent that found room, for nobody else to see yet. */
  lemma CreateAddsOne(c: Config, s: State, tx: Tx, id: nat)
    requires tx in s.ready && id !in s.rows
    ensures var after := Step(c, s, Create(tx, id));
            && after.rows == s.rows[id := Request(s.ready[tx], Pending, Some(tx))]
            && after.locks == s.locks && after.ready == s.ready - {tx}
  {
  }
}
