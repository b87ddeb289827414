/** De-duplication of created entities (`execute_create_entity`): an advisory lock, a duplicate check and an
    insert inside one transaction, with any number of such transactions interleaved. The lock is derived
    from the sorted scopes and the source path; the check compares the scope list in its order, ignores
    the source path and only looks at rows whose status is in the active category. */
module EntityDedup {
  import opened Common

  type Tx = nat

  datatype Payload = Payload(name: string, typ: nat, scopes: seq<nat>, path: string, active: bool)

  /** What the lock key is computed from; an empty path adds no part. */
  datatype LockParts = LockParts(name: string, typ: nat, sortedScopes: multiset<nat>, path: string)

  function PartsOf(p: Payload): LockParts {
    LockParts(p.name, p.typ, multiset(p.scopes), p.path)
  }

  /** `check_duplicate.sql` */
  predicate SameForCheck(p: Payload, q: Payload) {
    p.name == q.name && p.typ == q.typ && p.scopes == q.scopes
  }

  /** Rows are numbered in the order of their inserts; a row with a writer is not committed. */
  datatype Row = Row(payload: Payload, writer: Option<Tx>)

  datatype State = State(rows: map<nat, Row>, nextId: nat, locks: map<int, Tx>, ready: map<Tx, Payload>)

  const START := State(map[], 0, map[], map[])

  datatype Action =
    | Lock(tx: Tx, payload: Payload)
    | Check(tx: Tx, payload: Payload)
    | Insert(tx: Tx)
    | Commit(tx: Tx)
    | Rollback(tx: Tx)

  type Hash = LockParts -> int

  predicate Holds(h: Hash, s: State, tx: Tx, p: Payload) {
    h(PartsOf(p)) in s.locks && s.locks[h(PartsOf(p))] == tx
  }

  predicate Duplicate(s: State, tx: Tx, p: Payload) {
    exists id :: id in s.rows && (s.rows[id].writer.None? || s.rows[id].writer == Some(tx))
                 && s.rows[id].payload.active && SameForCheck(s.rows[id].payload, p)
  }

  function Released(s: State, tx: Tx): State {
    s.(locks := map k | k in s.locks && s.locks[k] != tx :: s.locks[k], ready := s.ready - {tx})
  }

  function RolledBack(s: State, tx: Tx): State {
    Released(s, tx).(rows := map id | id in s.rows && s.rows[id].writer != Some(tx) :: s.rows[id])
  }

  function Step(h: Hash, s: State, a: Action): State {
    match a
    case Lock(tx, p) =>
      if h(PartsOf(p)) in s.locks then s else s.(locks := s.locks[h(PartsOf(p)) := tx])
    case Check(tx, p) =>
      if !Holds(h, s, tx, p) then s
      else if Duplicate(s, tx, p) then RolledBack(s, tx)
      else s.(ready := s.ready[tx := p])
    case Insert(tx) =>
      if tx !in s.ready then s
      else s.(rows := s.rows[s.nextId := Row(s.ready[tx], Some(tx))], nextId := s.nextId + 1, ready := s.ready - {tx})
    case Commit(tx) =>
      Released(s, tx).(rows := map id | id in s.rows ::
        if s.rows[id].writer == Some(tx) then s.rows[id].(writer := None) else s.rows[id])
    case Rollback(tx) => RolledBack(s, tx)
  }

  function Run(h: Hash, actions: seq<Action>): State {
    if actions == [] then START else Step(h, Run(h, actions[..|actions| - 1]), actions[|actions| - 1])
  }

  // ---------- safety ----------

  /** A row that an earlier row should have kept out. */
  predicate Clash(h: Hash, earlier: Payload, later: Payload) {
    earlier.active && SameForCheck(earlier, later) && h(PartsOf(earlier)) == h(PartsOf(later))
  }

  ghost predicate Inv(h: Hash, s: State) {
    && (forall id :: id in s.rows ==> id < s.nextId)
    && (forall id :: id in s.rows && s.rows[id].writer.Some? ==>
          Holds(h, s, s.rows[id].writer.value, s.rows[id].payload))
    && (forall tx :: tx in s.ready ==> Holds(h, s, tx, s.ready[tx]))
    && (forall tx, id :: tx in s.ready && id in s.rows ==> !Clash(h, s.rows[id].payload, s.ready[tx]))
    && (forall i, j :: i in s.rows && j in s.rows && i < j ==> !Clash(h, s.rows[i].payload, s.rows[j].payload))
  }

  lemma CheckKeepsInv(h: Hash, s: State, tx: Tx, p: Payload)
    requires Inv(h, s) && Holds(h, s, tx, p) && !Duplicate(s, tx, p)
    ensures Inv(h, Step(h, s, Check(tx, p)))
  {
    forall id | id in s.rows ensures !Clash(h, s.rows[id].payload, p) {
      if h(PartsOf(s.rows[id].payload)) == h(PartsOf(p)) {
        assert s.rows[id].writer.None? || s.rows[id].writer == Some(tx);
      }
    }
  }

  lemma InsertKeepsInv(h: Hash, s: State, tx: Tx)
    requires Inv(h, s) && tx in s.ready
    ensures Inv(h, Step(h, s, Insert(tx)))
  {
    var after := Step(h, s, Insert(tx));
    forall other | other in after.ready ensures !Clash(h, s.ready[tx], after.ready[other]) {
      assert Holds(h, s, other, s.ready[other]) && Holds(h, s, tx, s.ready[tx]);
    }
  }

  /** Locks that change hands only when free, and rows that stay. */
  lemma LockKeepsInv(h: Hash, s: State, tx: Tx, p: Payload)
    requires Inv(h, s)
    ensures Inv(h, Step(h, s, Lock(tx, p)))
  {
  }

  /** A transaction that ends lets go of its locks, and of its uncommitted rows or their writer. */
  lemma EndKeepsInv(h: Hash, s: State, tx: Tx, rows: map<nat, Row>)
    requires Inv(h, s)
    requires forall id :: id in rows ==>
               id in s.rows && rows[id].payload == s.rows[id].payload
               && (rows[id].writer.None? || (rows[id] == s.rows[id] && rows[id].writer != Some(tx)))
    ensures Inv(h, Released(s, tx).(rows := rows))
  {
    var after := Released(s, tx).(rows := rows);
    forall other | other in after.ready ensures Holds(h, after, other, after.ready[other]) {
      assert Holds(h, s, other, s.ready[other]);
    }
    forall id | id in rows && rows[id].writer.Some? ensures Holds(h, after, rows[id].writer.value, rows[id].payload) {
      assert Holds(h, s, s.rows[id].writer.value, s.rows[id].payload);
    }
  }

  lemma StepKeepsInv(h: Hash, s: State, a: Action)
    requires Inv(h, s)
    ensures Inv(h, Step(h, s, a))
  {
    match a
    case Lock(tx, p) => LockKeepsInv(h, s, tx, p);
    case Check(tx, p) =>
      if Holds(h, s, tx, p) {
        if Duplicate(s, tx, p) {
          EndKeepsInv(h, s, tx, RolledBack(s, tx).rows);
        } else {
          CheckKeepsInv(h, s, tx, p);
        }
      }
    case Insert(tx) =>
      if tx in s.ready {
        InsertKeepsInv(h, s, tx);
      }
    case Commit(tx) => EndKeepsInv(h, s, tx, Step(h, s, a).rows);
    case Rollback(tx) => EndKeepsInv(h, s, tx, RolledBack(s, tx).rows);
  }

  /** In every interleaving, of two entities with equal name, type, scope list and lock (so in particular
      with equal source path) the one inserted first is not active. */
  lemma {:induction false} NoActiveDuplicates(h: Hash, actions: seq<Action>)
    ensures Inv(h, Run(h, actions))
    ensures var rows := Run(h, actions).rows;
            forall i, j :: i in rows && j in rows && i < j ==>
              !(SameForCheck(rows[i].payload, rows[j].payload) && rows[i].payload.path == rows[j].payload.path
                && rows[i].payload.active)
  {
    if actions != [] {
      NoActiveDuplicates(h, actions[..|actions| - 1]);
      StepKeepsInv(h, Run(h, actions[..|actions| - 1]), actions[|actions| - 1]);
    }
  }

  // ---------- exactly which pairs get through ----------

  ghost predicate CommittedBoth(s: State, p: Payload, q: Payload) {
    exists i, j :: i in s.rows && j in s.rows && i != j && s.rows[i] == Row(p, None) && s.rows[j] == Row(q, None)
  }

  ghost predicate CanBothCommit(h: Hash, p: Payload, q: Payload) {
    exists actions :: CommittedBoth(Run(h, actions), p, q)
  }

  lemma Then(h: Hash, before: seq<Action>, a: Action)
    ensures Run(h, before + [a]) == Step(h, Run(h, before), a)
  {
    assert (before + [a])[..|before|] == before;
  }

  /** No transaction is open. */
  ghost predicate Quiet(s: State) {
    s.locks == map[] && s.ready == map[] && forall id :: id in s.rows ==> s.rows[id].writer.None? && id < s.nextId
  }

  function WithRow(s: State, p: Payload): State {
    s.(rows := s.rows[s.nextId := Row(p, None)], nextId := s.nextId + 1)
  }

  /** A whole transaction on its own. */
  lemma CreateAlone(h: Hash, before: seq<Action>, tx: Tx, p: Payload) returns (after: seq<Action>)
    requires Quiet(Run(h, before)) && !Duplicate(Run(h, before), tx, p)
    ensures Quiet(Run(h, after)) && Run(h, after) == WithRow(Run(h, before), p)
  {
    var s := Run(h, before);
    var l, c, i := before + [Lock(tx, p)], before + [Lock(tx, p)] + [Check(tx, p)],
                   before + [Lock(tx, p)] + [Check(tx, p)] + [Insert(tx)];
    Then(h, before, Lock(tx, p));
    Then(h, l, Check(tx, p));
    Then(h, c, Insert(tx));
    Then(h, i, Commit(tx));
    after := i + [Commit(tx)];
    FirstHalf(h, s, tx, p);
    SecondHalf(h, s, tx, p);
  }

  function Ready(h: Hash, s: State, tx: Tx, p: Payload): State {
    s.(locks := map[h(PartsOf(p)) := tx], ready := map[tx := p])
  }

  lemma FirstHalf(h: Hash, s: State, tx: Tx, p: Payload)
    requires Quiet(s) && !Duplicate(s, tx, p)
    ensures Step(h, Step(h, s, Lock(tx, p)), Check(tx, p)) == Ready(h, s, tx, p)
  {
    var locked := Step(h, s, Lock(tx, p));
    assert Duplicate(locked, tx, p) <==> Duplicate(s, tx, p);
  }

  lemma SecondHalf(h: Hash, s: State, tx: Tx, p: Payload)
    requires Quiet(s)
    ensures Step(h, Step(h, Ready(h, s, tx, p), Insert(tx)), Commit(tx)) == WithRow(s, p) && Quiet(WithRow(s, p))
  {
    var written := Step(h, Ready(h, s, tx, p), Insert(tx));
    assert written.rows == s.rows[s.nextId := Row(p, Some(tx))];
    var done := Step(h, written, Commit(tx));
    assert done.rows == WithRow(s, p).rows && done.locks == map[] && done.ready == map[];
  }

  lemma InTurnCommitsBoth(h: Hash, p: Payload, q: Payload)
    requires !(p.active && SameForCheck(p, q))
    ensures CanBothCommit(h, p, q)
  {
    var first := CreateAlone(h, [], 1, p);
    var second := CreateAlone(h, first, 2, q);
    var s := Run(h, second);
    assert 0 in s.rows && 1 in s.rows && CommittedBoth(s, p, q);
  }

  /** Both check before either writes, under different locks. */
  lemma BothCheck(h: Hash, p: Payload, q: Payload) returns (actions: seq<Action>)
    requires h(PartsOf(p)) != h(PartsOf(q))
    ensures Run(h, actions) == State(map[], 0, map[h(PartsOf(p)) := 1, h(PartsOf(q)) := 2], map[1 := p, 2 := q])
  {
    var one := [Lock(1, p)] + [Check(1, p)];
    Then(h, [], Lock(1, p));
    Then(h, [Lock(1, p)], Check(1, p));
    assert [] + [Lock(1, p)] == [Lock(1, p)];
    assert Run(h, one) == State(map[], 0, map[h(PartsOf(p)) := 1], map[1 := p]);
    Then(h, one, Lock(2, q));
    Then(h, one + [Lock(2, q)], Check(2, q));
    actions := one + [Lock(2, q)] + [Check(2, q)];
  }

  lemma BothWrite(h: Hash, p: Payload, q: Payload, checked: seq<Action>)
    requires h(PartsOf(p)) != h(PartsOf(q))
    requires Run(h, checked) == State(map[], 0, map[h(PartsOf(p)) := 1, h(PartsOf(q)) := 2], map[1 := p, 2 := q])
    ensures Run(h, checked + [Insert(1)] + [Insert(2)]).rows == map[0 := Row(p, Some(1)), 1 := Row(q, Some(2))]
  {
    Then(h, checked, Insert(1));
    Then(h, checked + [Insert(1)], Insert(2));
  }

  lemma BothFinish(h: Hash, p: Payload, q: Payload, written: seq<Action>)
    requires Run(h, written).rows == map[0 := Row(p, Some(1)), 1 := Row(q, Some(2))]
    ensures Run(h, written + [Commit(1)] + [Commit(2)]).rows == map[0 := Row(p, None), 1 := Row(q, None)]
  {
    Then(h, written, Commit(1));
    CommitFirst(h, Run(h, written), p, q);
    Then(h, written + [Commit(1)], Commit(2));
    CommitSecond(h, Run(h, written + [Commit(1)]), p, q);
  }

  lemma CommitFirst(h: Hash, s: State, p: Payload, q: Payload)
    requires s.rows == map[0 := Row(p, Some(1)), 1 := Row(q, Some(2))]
    ensures Step(h, s, Commit(1)).rows == map[0 := Row(p, None), 1 := Row(q, Some(2))]
  {
  }

  lemma CommitSecond(h: Hash, s: State, p: Payload, q: Payload)
    requires s.rows == map[0 := Row(p, None), 1 := Row(q, Some(2))]
    ensures Step(h, s, Commit(2)).rows == map[0 := Row(p, None), 1 := Row(q, None)]
  {
  }

  lemma RacingCommitsBoth(h: Hash, p: Payload, q: Payload)
    requires h(PartsOf(p)) != h(PartsOf(q))
    ensures CanBothCommit(h, p, q)
  {
    var checked := BothCheck(h, p, q);
    BothWrite(h, p, q, checked);
    var written := checked + [Insert(1)] + [Insert(2)];
    BothFinish(h, p, q, written);
    TwoRows(Run(h, written + [Commit(1)] + [Commit(2)]), p, q);
  }

  lemma TwoRows(s: State, p: Payload, q: Payload)
    requires s.rows == map[0 := Row(p, None), 1 := Row(q, None)]
    ensures CommittedBoth(s, p, q)
  {
    assert 0 in s.rows && 1 in s.rows;
  }

  /** Two creates can both be committed, by some interleaving, unless both are active, the check takes
      them for the same entity, and they share a lock. */
  lemma BothCommitIff(h: Hash, p: Payload, q: Payload)
    ensures CanBothCommit(h, p, q) <==> !(p.active && q.active && SameForCheck(p, q) && h(PartsOf(p)) == h(PartsOf(q)))
  {
    forall actions | CommittedBoth(Run(h, actions), p, q)
      ensures !Clash(h, p, q) || !Clash(h, q, p)
    {
      NoActiveDuplicates(h, actions);
    }
    if h(PartsOf(p)) != h(PartsOf(q)) {
      RacingCommitsBoth(h, p, q);
    } else if !(p.active && SameForCheck(p, q)) {
      InTurnCommitsBoth(h, p, q);
    } else if !q.active {
      InTurnCommitsBoth(h, q, p);
      var actions :| CommittedBoth(Run(h, actions), q, p);
      var s := Run(h, actions);
      var i, j :| i in s.rows && j in s.rows && i != j && s.rows[i] == Row(q, None) && s.rows[j] == Row(p, None);
      assert CommittedBoth(s, p, q);
    }
  }

  /** The same scopes in another order pass the check, so two entities that differ only in that are both committed. */
  lemma PermutedScopesAreNotDuplicates(h: Hash, p: Payload, q: Payload)
    requires p.scopes != q.scopes && PartsOf(p) == PartsOf(q)
    ensures CanBothCommit(h, p, q)
  {
    BothCommitIff(h, p, q);
  }

  /** In terms of the payloads, when different locks have different keys: two creates can both be committed unless both
      are active with the same name, type, source path and list of scopes, in the same order. */
  lemma BothCommitExactly(h: Hash, p: Payload, q: Payload)
    requires forall a, b :: h(a) == h(b) ==> a == b
    ensures CanBothCommit(h, p, q)
       <==> !(p.active && q.active && p.name == q.name && p.typ == q.typ && p.path == q.path && p.scopes == q.scopes)
  {
    BothCommitIff(h, p, q);
    assert p.name == q.name && p.typ == q.typ && p.path == q.path && p.scopes == q.scopes ==> PartsOf(p) == PartsOf(q);
    assert PartsOf(p).path == p.path && PartsOf(q).path == q.path;
  }

  /** Two creates wait for each other exactly when they agree on name, type, source path and scopes, in any order. */
  lemma SameLockIff(h: Hash, p: Payload, q: Payload)
    requires forall a, b :: h(a) == h(b) ==> a == b
    ensures h(PartsOf(p)) == h(PartsOf(q))
       <==> p.name == q.name && p.typ == q.typ && p.path == q.path && multiset(p.scopes) == multiset(q.scopes)
  {
  }

  /** A create that finds its duplicate is refused: its transaction leaves no lock, no uncommitted row and no claim, and
      everything else is as before. */
  lemma RefusedCreateLeavesNothing(h: Hash, s: State, tx: Tx, p: Payload)
    requires Holds(h, s, tx, p) && Duplicate(s, tx, p)
    ensures var after := Step(h, s, Check(tx, p));
            && after == Step(h, s, Rollback(tx))
            && (forall k :: k in after.locks <==> k in s.locks && s.locks[k] != tx)
            && (forall id :: id in after.rows <==> id in s.rows && s.rows[id].writer != Some(tx))
            && (forall id :: id in after.rows ==> after.rows[id] == s.rows[id])
            && tx !in after.ready
  {
  }

  /** What a create takes for its duplicate: an active row, committed or its own, of the same name, type and list of
      scopes. */
  lemma DuplicateExactly(s: State, tx: Tx, p: Payload)
    ensures Duplicate(s, tx, p) <==>
      exists id :: id in s.rows && (s.rows[id].writer.None? || s.rows[id].writer == Some(tx))
                   && s.rows[id].payload.active && s.rows[id].payload.name == p.name
                   && s.rows[id].payload.typ == p.typ && s.rows[id].payload.scopes == p.scopes
  {
  }
}
