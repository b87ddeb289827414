/** The main results about the relationship graph, for every run of statements. */
module GraphTheorems {
  import opened Common
  import opened Graph
  import opened GraphInvariants

  /** A state that some run of statements ends in. */
  ghost predicate Reachable(schema: Schema, db: Db) {
    exists stmts :: db == Run(schema, stmts)
  }

  lemma ReachableInv(schema: Schema, db: Db)
    requires Reachable(schema, db)
    ensures Inv(schema, db)
  {
    var stmts :| db == Run(schema, stmts);
    RunInv(schema, stmts);
  }

  lemma TablesPointwise(db: Db, r: Record)
    ensures Lookup(AuditedTables(db), r) == Current(db, r)
  {
  }

  lemma SyncedIsReplay(db: Db)
    requires Synced(db)
    ensures Replay(db.log) == AuditedTables(db)
  {
    var m, t := Replay(db.log), AuditedTables(db);
    forall r ensures Lookup(m, r) == Lookup(t, r) {
      TablesPointwise(db, r);
    }
    assert forall r :: (r in m <==> Lookup(m, r).Some?) && (r in t <==> Lookup(t, r).Some?);
    assert forall r :: r in m ==> m[r] == Lookup(m, r).value && t[r] == Lookup(t, r).value;
  }

  /** Folding the audit log from empty tables rebuilds exactly the audited tables. */
  lemma ReplayRebuildsTables(schema: Schema, db: Db)
    requires Reachable(schema, db)
    ensures Replay(db.log) == AuditedTables(db)
  {
    ReachableInv(schema, db);
    SyncedIsReplay(db);
  }

  /** Entry i is the last one before j about the row of entry j. */
  ghost predicate Precedes(log: seq<AuditEntry>, i: nat, j: nat) {
    i < j < |log| && log[i].record == log[j].record && forall k :: i < k < j ==> log[k].record != log[j].record
  }

  /** Of two consecutive entries about one row, the later starts from the values the earlier left. */
  lemma EntriesChain(schema: Schema, db: Db, i: nat, j: nat)
    requires Reachable(schema, db) && Precedes(db.log, i, j)
    ensures db.log[j].oldValues == db.log[i].newValues
  {
    ReachableInv(schema, db);
    var log := db.log;
    assert log[..j][..i] == log[..i];
    assert EntryFits(Replay(log[..i]), log[i]) && EntryFits(Replay(log[..j]), log[j]);
    LatestEntryWins(log[..j], i);
  }

  /** The first entry about a row is its insert, and no other kind of entry starts a row. */
  lemma FirstEntryInserts(schema: Schema, db: Db, j: nat)
    requires Reachable(schema, db) && j < |db.log|
    requires forall i :: 0 <= i < j ==> db.log[i].record != db.log[j].record
    ensures db.log[j].action == Insert
  {
    ReachableInv(schema, db);
    var log := db.log;
    assert EntryFits(Replay(log[..j]), log[j]);
    UnmentionedIsAbsent(log[..j], log[j].record);
  }

  lemma {:induction false} LatestEntryWins(log: seq<AuditEntry>, i: nat)
    requires i < |log| && EntryFits(Replay(log[..i]), log[i])
    requires forall k :: i < k < |log| ==> log[k].record != log[i].record
    ensures Lookup(Replay(log), log[i].record) == log[i].newValues
  {
    if i == |log| - 1 {
    } else {
      assert log[..|log| - 1][..i] == log[..i];
      LatestEntryWins(log[..|log| - 1], i);
    }
  }

  lemma {:induction false} UnmentionedIsAbsent(log: seq<AuditEntry>, r: Record)
    requires forall k :: 0 <= k < |log| ==> log[k].record != r
    ensures r !in Replay(log)
  {
    if log != [] {
      UnmentionedIsAbsent(log[..|log| - 1], r);
    }
  }

  /** Symmetric closure, in every reachable state. */
  lemma SymmetricClosure(schema: Schema, db: Db, key: EdgeKey)
    requires Reachable(schema, db) && schema.Symmetric(key.typ)
    ensures && (key in db.index <==> key.Mirror() in db.index)
            && (key in db.index ==>
                  && db.index[key] in db.edges && db.index[key.Mirror()] in db.edges
                  && db.edges[db.index[key]].key == key && db.edges[db.index[key.Mirror()]].key == key.Mirror()
                  && db.edges[db.index[key]].notes == db.edges[db.index[key.Mirror()]].notes)
  {
    ReachableInv(schema, db);
    PresentIffMirror(schema, db, key);
  }

  /** What an insert adds: the edge and, for a symmetric type, its mirror with the same notes and no status. */
  ghost predicate Inserted(
      schema: Schema, db: Db, after: Db, key: EdgeKey, status: Option<nat>, notes: string, now: int) {
    && after.nodes == db.nodes && db.log <= after.log
    && after.index.Keys == db.index.Keys + {key} + (if schema.Symmetric(key.typ) then {key.Mirror()} else {})
    && (forall id :: id in db.edges ==> id in after.edges && after.edges[id] == db.edges[id])
    && Holds(after, NewEdge(key, status, notes, now))
    && (schema.Symmetric(key.typ) && key.Mirror() != key ==> Holds(after, NewEdge(key.Mirror(), None, notes, now)))
  }

  ghost predicate Holds(db: Db, e: Edge) {
    Find(db, e.key).Some? && db.edges[db.index[e.key]] == e
  }

  lemma AddFrame(db: Db, e: Edge)
    requires IndexOk(db) && e.key !in db.index
    ensures var after := AddEdge(db, e);
            && Holds(after, e) && after.index.Keys == db.index.Keys + {e.key} && after.nodes == db.nodes
            && db.log <= after.log
            && (forall id :: id in db.edges ==> id in after.edges && after.edges[id] == db.edges[id])
            && (forall f :: Holds(db, f) && f.key != e.key ==> Holds(after, f))
  {
  }

  /** An insert succeeds iff both ends, the type and the status exist and the edge does not, and then adds just that. */
  lemma InsertFrame(schema: Schema, db: Db, key: EdgeKey, status: Option<nat>, notes: string, now: int)
    requires Inv(schema, db)
    ensures var r := InsertEdge(schema, db, key, status, notes, now);
            && (r.Done? <==> key.source in db.nodes && key.target in db.nodes && key !in db.index
                             && key.typ in schema.symmetric && schema.KnownStatus(status))
            && (r.Done? ==> Inserted(schema, db, r.db, key, status, notes, now))
  {
    var r := InsertEdge(schema, db, key, status, notes, now);
    if r.Done? {
      var e, mirror := NewEdge(key, status, notes, now), NewEdge(key.Mirror(), None, notes, now);
      var one := AddEdge(db, e);
      AddFrame(db, e);
      AddEdgeIndexOk(db, e);
      if schema.Symmetric(key.typ) {
        PresentIffMirror(schema, db, key);
        if key.Mirror() != key {
          AddFrame(one, mirror);
          assert r.db == AddEdge(one, mirror);
        }
      }
    }
  }

  /** What a delete takes: the edge and, for a symmetric type, its mirror. */
  ghost predicate Deleted(schema: Schema, db: Db, after: Db, key: EdgeKey) {
    && after.nodes == db.nodes && db.log <= after.log
    && after.index.Keys == db.index.Keys - {key} - (if schema.Symmetric(key.typ) then {key.Mirror()} else {})
    && (forall x :: x in after.edges <==> x in db.edges && db.edges[x].key in after.index)
    && (forall x :: x in after.edges ==> after.edges[x] == db.edges[x])
  }

  lemma DeleteFrame(schema: Schema, db: Db, id: nat)
    requires Inv(schema, db) && id in db.edges
    ensures var r := DeleteEdge(schema, db, id);
            r.Done? && Deleted(schema, db, r.db, db.edges[id].key)
  {
    var key := db.edges[id].key;
    if schema.Symmetric(key.typ) {
      PresentIffMirror(schema, db, key);
    }
  }

  /** Deleting a freshly inserted edge puts the tables and the index back; only the log and the ids move on. */
  lemma DeleteUndoesInsert(schema: Schema, db: Db, key: EdgeKey, status: Option<nat>, notes: string, now: int, mid: Db)
    requires Inv(schema, db) && InsertEdge(schema, db, key, status, notes, now) == Done(mid)
    ensures key in mid.index
            && var back := DeleteEdge(schema, mid, mid.index[key]);
               back.Done? && back.db.nodes == db.nodes && back.db.edges == db.edges && back.db.index == db.index
                 && db.log <= back.db.log
  {
    InsertFrame(schema, db, key, status, notes, now);
    InsertEdgeInv(schema, db, key, status, notes, now);
    DeleteFrame(schema, mid, mid.index[key]);
    DeleteEdgeInv(schema, mid, mid.index[key]);
    if schema.Symmetric(key.typ) {
      PresentIffMirror(schema, db, key);
    }
    SameKeysBack(schema, db, mid, DeleteEdge(schema, mid, mid.index[key]).db, key, status, notes, now);
  }

  lemma SameKeysBack(
      schema: Schema, db: Db, mid: Db, back: Db, key: EdgeKey, status: Option<nat>, notes: string, now: int)
    requires IndexOk(db) && IndexOk(mid) && IndexOk(back)
    requires key !in db.index && (schema.Symmetric(key.typ) ==> key.Mirror() !in db.index)
    requires Inserted(schema, db, mid, key, status, notes, now) && Deleted(schema, mid, back, key)
    ensures back.edges == db.edges && back.index == db.index
  {
    KeysBack(schema, db, mid, back, key, status, notes, now);
    BackToSameEdges(db, mid, back);
    BackToSameIndex(db, back);
  }

  lemma KeysBack(
      schema: Schema, db: Db, mid: Db, back: Db, key: EdgeKey, status: Option<nat>, notes: string, now: int)
    requires key !in db.index && (schema.Symmetric(key.typ) ==> key.Mirror() !in db.index)
    requires Inserted(schema, db, mid, key, status, notes, now) && Deleted(schema, mid, back, key)
    ensures back.index.Keys == db.index.Keys
  {
  }

  lemma BackToSameEdges(db: Db, mid: Db, back: Db)
    requires IndexOk(db) && IndexOk(mid) && IndexOk(back) && back.index.Keys == db.index.Keys
    requires forall id :: id in db.edges ==> id in mid.edges && mid.edges[id] == db.edges[id]
    requires forall id :: id in back.edges <==> id in mid.edges && mid.edges[id].key in back.index
    requires forall id :: id in back.edges ==> back.edges[id] == mid.edges[id]
    ensures back.edges == db.edges
  {
    forall id | id in back.edges ensures id in db.edges {
      var twin := db.index[back.edges[id].key];
      assert mid.edges[twin].key == mid.edges[id].key;
    }
    forall id | id in db.edges ensures id in back.edges {
      assert db.edges[id].key in db.index.Keys;
    }
    assert back.edges == db.edges;
  }

  lemma BackToSameIndex(db: Db, back: Db)
    requires IndexOk(db) && IndexOk(back) && back.index.Keys == db.index.Keys && back.edges == db.edges
    ensures back.index == db.index
  {
    forall k | k in db.index ensures k in back.index && back.index[k] == db.index[k] {
      assert k in back.index.Keys;
      assert db.edges[db.index[k]].key == k;
    }
    assert back.index == db.index;
  }

  /** In a reachable state the UPDATE of an edge changes exactly that edge if its type is not symmetric, both its
      endpoints and the new status exist and there is any stack at all, and otherwise it changes nothing. */
  lemma SymmetricEdgesCannotBeUpdated(schema: Schema, db: Db, id: nat,
                                      notes: Option<string>, status: Option<nat>, now: int, depth: nat)
    requires Reachable(schema, db) && id in db.edges
    ensures var e := db.edges[id];
            var succeeds := !schema.Symmetric(e.key.typ) && Endpoints(db, e.key).None?
                            && schema.KnownStatus(status) && depth > 0;
            Exec(schema, db, StUpdateEdge(id, notes, status, now, depth))
            == if succeeds then ChangeEdge(db, id, Patched(e, notes, status).(updatedAt := now)) else db
  {
    ReachableInv(schema, db);
    UpdateEdgeOutcome(schema, db, id, Patched(db.edges[id], notes, status), now, depth);
  }

  // ---------- of an edge and its mirror, one at most is listed ----------

  /** `relationships/get` joins on the status and keeps the active ones; none of them is archived. */
  predicate Listable(schema: Schema, e: Edge) {
    e.status.Some? && e.status.value in schema.archived && !schema.archived[e.status.value]
  }

  ghost predicate OneListable(schema: Schema, db: Db) {
    forall a, b :: a in db.edges && b in db.edges && a != b && schema.Symmetric(db.edges[a].key.typ)
                   && db.edges[b].key == db.edges[a].key.Mirror() ==>
      !Listable(schema, db.edges[a]) || !Listable(schema, db.edges[b])
  }

  /** Rows of symmetric types that are still there and listable are as they were. */
  lemma ListableStays(schema: Schema, db: Db, after: Db)
    requires OneListable(schema, db)
    requires forall id ::
               id in after.edges && schema.Symmetric(after.edges[id].key.typ) && Listable(schema, after.edges[id]) ==>
               id in db.edges && after.edges[id] == db.edges[id]
    ensures OneListable(schema, after)
  {
    forall a, b | a in after.edges && b in after.edges && a != b && schema.Symmetric(after.edges[a].key.typ)
                  && after.edges[b].key == after.edges[a].key.Mirror()
      ensures !Listable(schema, after.edges[a]) || !Listable(schema, after.edges[b])
    {
      assert schema.Symmetric(after.edges[b].key.typ);
    }
  }

  lemma InsertOneListable(schema: Schema, db: Db, key: EdgeKey, status: Option<nat>, notes: string, now: int)
    requires Inv(schema, db) && OneListable(schema, db)
    ensures OneListable(schema, Settle(db, InsertEdge(schema, db, key, status, notes, now)))
  {
    var r := InsertEdge(schema, db, key, status, notes, now);
    if r.Done? {
      InsertFrame(schema, db, key, status, notes, now);
      InsertEdgeInv(schema, db, key, status, notes, now);
      InsertedOneListable(schema, db, r.db, key, status, notes, now);
    }
  }

  lemma InsertedOneListable(
      schema: Schema, db: Db, after: Db, key: EdgeKey, status: Option<nat>, notes: string, now: int)
    requires IndexOk(db) && IndexOk(after) && OneListable(schema, db) && key !in db.index
    requires Inserted(schema, db, after, key, status, notes, now)
    ensures OneListable(schema, after)
  {
    forall a, b | a in after.edges && b in after.edges && a != b && schema.Symmetric(after.edges[a].key.typ)
                  && after.edges[b].key == after.edges[a].key.Mirror()
      ensures !Listable(schema, after.edges[a]) || !Listable(schema, after.edges[b])
    {
      NewOrOld(schema, db, after, key, status, notes, now, a);
      NewOrOld(schema, db, after, key, status, notes, now, b);
      assert after.edges[a].key == after.edges[b].key.Mirror();
    }
  }

  /** A row after an insert: an old one, the new edge, or its mirror, which is not listable. */
  lemma NewOrOld(
      schema: Schema, db: Db, after: Db, key: EdgeKey, status: Option<nat>, notes: string, now: int, id: nat)
    requires IndexOk(db) && IndexOk(after) && key !in db.index && id in after.edges
    requires Inserted(schema, db, after, key, status, notes, now)
    ensures (id in db.edges && after.edges[id] == db.edges[id] && after.edges[id].key in db.index)
            || after.edges[id].key == key
            || (schema.Symmetric(key.typ) && after.edges[id].key == key.Mirror() && !Listable(schema, after.edges[id]))
  {
    var k := after.edges[id].key;
    assert k in after.index.Keys && after.index[k] == id;
    if k in db.index.Keys {
      var old_ := db.index[k];
      assert old_ in db.edges && after.edges[old_] == db.edges[old_];
      assert after.index[after.edges[old_].key] == old_;
    }
  }

  lemma NodeUpdateOneListable(schema: Schema, db: Db, n: Node, row: NodeRow, assigns: bool, now: int, order: seq<nat>)
    requires OneListable(schema, db) && IsOrder(order, Incident(db, n))
    ensures var r := UpdateNode(schema, db, n, row, assigns, now, order); r.Some? ==> OneListable(schema, r.value)
  {
    var r := UpdateNode(schema, db, n, row, assigns, now, order);
    if r.Some? {
      ListableStays(schema, db, r.value);
    }
  }

  lemma EdgeUpdateOneListable(schema: Schema, db: Db, id: nat, e: Edge, now: int, depth: nat)
    requires Inv(schema, db) && OneListable(schema, db) && id in db.edges && db.edges[id].key == e.key
    ensures OneListable(schema, Settle(db, UpdateEdge(schema, db, id, e, now, depth)))
  {
    UpdateEdgeOutcome(schema, db, id, e, now, depth);
    ListableStays(schema, db, Settle(db, UpdateEdge(schema, db, id, e, now, depth)));
  }

  lemma DeleteOneListable(schema: Schema, db: Db, id: nat)
    requires Inv(schema, db) && OneListable(schema, db) && id in db.edges
    ensures OneListable(schema, Settle(db, DeleteEdge(schema, db, id)))
  {
    DeleteFrame(schema, db, id);
    ListableStays(schema, db, Settle(db, DeleteEdge(schema, db, id)));
  }

  lemma ExecOneListable(schema: Schema, db: Db, st: Statement)
    requires Inv(schema, db) && OneListable(schema, db)
    ensures OneListable(schema, Exec(schema, db, st))
  {
    match st
    case StInsertNode(n, row) =>
    case StUpdateNode(n, row, assigns, now, order) =>
      if IsOrder(order, Incident(db, n)) {
        NodeUpdateOneListable(schema, db, n, row, assigns, now, order);
      }
    case StDeleteNode(n) =>
    case StInsertEdge(key, status, notes, now) => InsertOneListable(schema, db, key, status, notes, now);
    case StUpdateEdge(id, notes, status, now, depth) =>
      if id in db.edges {
        EdgeUpdateOneListable(schema, db, id, Patched(db.edges[id], notes, status), now, depth);
      }
    case StDeleteEdge(id) =>
      if id in db.edges {
        DeleteOneListable(schema, db, id);
      }
  }

  lemma {:induction false} RunOneListable(schema: Schema, stmts: seq<Statement>)
    ensures OneListable(schema, Run(schema, stmts))
  {
    if stmts != [] {
      RunInv(schema, stmts[..|stmts| - 1]);
      RunOneListable(schema, stmts[..|stmts| - 1]);
      ExecOneListable(schema, Run(schema, stmts[..|stmts| - 1]), stmts[|stmts| - 1]);
    }
  }

  /** In every reachable state, of a symmetric edge and its mirror at most one can be listed. */
  lemma MirrorIsNotListed(schema: Schema, db: Db, key: EdgeKey)
    requires Reachable(schema, db) && schema.Symmetric(key.typ) && key != key.Mirror() && key in db.index
    ensures key.Mirror() in db.index && db.index[key] in db.edges && db.index[key.Mirror()] in db.edges
    ensures !Listable(schema, db.edges[db.index[key]]) || !Listable(schema, db.edges[db.index[key.Mirror()]])
  {
    SymmetricClosure(schema, db, key);
    var stmts :| db == Run(schema, stmts);
    RunOneListable(schema, stmts);
    assert db.index[key] != db.index[key.Mirror()];
  }

  /** Archiving a node: every incident edge takes the status, twins end up with equal status,
      and no other edge, no edge's presence and no notes change. It fails iff an incident
      edge points at a node that is gone. */
  lemma CascadeFrame(schema: Schema, db: Db, n: Node, row: NodeRow, now: int, order: seq<nat>)
    requires Inv(schema, db) && n in db.nodes && schema.Archives(row.status) && IsOrder(order, Incident(db, n))
    ensures var r := UpdateNode(schema, db, n, row, true, now, order);
            && (r.None? <==> exists id :: id in Incident(db, n) && Endpoints(db, db.edges[id].key).Some?)
            && (r.Some? ==>
                  var after := r.value;
                  && after.edges.Keys == db.edges.Keys && after.index == db.index
                  && (forall id :: id in db.edges && id !in Incident(db, n) ==> after.edges[id] == db.edges[id])
                  && (forall id :: id in Incident(db, n) ==>
                        && after.edges[id].status == row.status && after.edges[id].statusChangedAt == Some(now)
                        && after.edges[id].key == db.edges[id].key && after.edges[id].notes == db.edges[id].notes)
                  && (forall id :: id in Incident(db, n) && schema.Symmetric(db.edges[id].key.typ) ==>
                        var twin := Find(after, after.edges[id].key.Mirror());
                        twin.Some? && after.edges[twin.value].status == after.edges[id].status)
                  && after.nodes == db.nodes[n := row.(updatedAt := now)]
                  && Closed(schema, after) && Synced(after))
  {
    UpdateNodeInv(schema, db, n, row, true, now, order);
    var r := UpdateNode(schema, db, n, row, true, now, order);
    var one := PutNode(db, n, Some(row.(updatedAt := now)));
    assert one.edges == db.edges && one.index == db.index;
    assert forall x :: x in one.nodes <==> x in db.nodes;
    if r.Some? {
      TwinsTakeStatus(schema, db, n, order, row.status, now);
    }
  }

  /** The mirror of an incident edge is incident too. */
  lemma TwinsTakeStatus(schema: Schema, db: Db, n: Node, order: seq<nat>, status: Option<nat>, now: int)
    requires Closed(schema, db) && IndexOk(db) && IsOrder(order, Incident(db, n))
    ensures var edges := Stamped(db.edges, order, status, now);
            forall id :: id in Incident(db, n) && schema.Symmetric(db.edges[id].key.typ) ==>
              var twin := Find(db, db.edges[id].key.Mirror());
              twin.Some? && twin.value in edges && edges[twin.value].status == status
  {
    forall id | id in Incident(db, n) && schema.Symmetric(db.edges[id].key.typ)
      ensures var twin := Find(db, db.edges[id].key.Mirror()); twin.Some? && twin.value in Incident(db, n)
    {
      assert HasTwin(db, id);
    }
  }

  /** A status that is not archived leaves the edges alone. */
  lemma NoCascade(schema: Schema, db: Db, n: Node, row: NodeRow, assigns: bool, now: int, order: seq<nat>)
    requires IsOrder(order, Incident(db, n)) && (!assigns || !schema.Archives(row.status))
    ensures var r := UpdateNode(schema, db, n, row, assigns, now, order);
            r.Some? ==> r.value.edges == db.edges && r.value.index == db.index && |r.value.log| <= |db.log| + 1
  {
  }

  // ---------- how far the triggers of one statement run ----------

  /** A symmetric edge between two nodes costs two row changes, any other edge one. */
  lemma TriggerChainLength(schema: Schema, db: Db, key: EdgeKey, status: Option<nat>, notes: string, now: int)
    requires Inv(schema, db)
    ensures var rows := if schema.Symmetric(key.typ) && key.source != key.target then 2 else 1;
            var r := InsertEdge(schema, db, key, status, notes, now);
            && (r.Done? ==> |r.db.log| == |db.log| + rows && |r.db.edges| == |db.edges| + rows)
            && (key in db.index ==>
                  var d := DeleteEdge(schema, db, db.index[key]);
                  d.Done? && |d.db.log| == |db.log| + rows && |d.db.edges| == |db.edges| - rows)
  {
    InsertChainLength(schema, db, key, status, notes, now);
    if key in db.index {
      DeleteChainLength(schema, db, key);
    }
  }

  lemma InsertChainLength(schema: Schema, db: Db, key: EdgeKey, status: Option<nat>, notes: string, now: int)
    requires Inv(schema, db)
    ensures var rows := if schema.Symmetric(key.typ) && key.source != key.target then 2 else 1;
            var r := InsertEdge(schema, db, key, status, notes, now);
            r.Done? ==> |r.db.log| == |db.log| + rows && |r.db.edges| == |db.edges| + rows
  {
    if schema.Symmetric(key.typ) {
      PresentIffMirror(schema, db, key);
    }
    assert key.source != key.target <==> key.Mirror() != key;
    var r := InsertEdge(schema, db, key, status, notes, now);
    if r.Done? {
      var one := AddEdge(db, NewEdge(key, status, notes, now));
      SizeAfterAdd(db.edges, db.nextId, one.edges[db.nextId]);
      if r.db != one {
        SizeAfterAdd(one.edges, one.nextId, r.db.edges[one.nextId]);
      }
    }
  }

  lemma DeleteChainLength(schema: Schema, db: Db, key: EdgeKey)
    requires Inv(schema, db) && key in db.index
    ensures var rows := if schema.Symmetric(key.typ) && key.source != key.target then 2 else 1;
            var d := DeleteEdge(schema, db, db.index[key]);
            d.Done? && |d.db.log| == |db.log| + rows && |d.db.edges| == |db.edges| - rows
  {
    if schema.Symmetric(key.typ) {
      PresentIffMirror(schema, db, key);
    }
    assert key.source != key.target <==> key.Mirror() != key;
    var one := RemoveEdge(db, db.index[key]);
    SizeAfterRemove(db.edges, db.index[key]);
    var twin := Find(one, key.Mirror());
    if twin.Some? {
      SizeAfterRemove(one.edges, twin.value);
    }
  }

  lemma SizeAfterAdd<K, V>(m: map<K, V>, k: K, v: V)
    requires k !in m
    ensures |m[k := v]| == |m| + 1
  {
    assert m[k := v].Keys == m.Keys + {k};
  }

  lemma SizeAfterRemove<K, V>(m: map<K, V>, k: K)
    requires k in m
    ensures |m - {k}| == |m| - 1
  {
    assert (m - {k}).Keys == m.Keys - {k};
  }

  // ---------- endpoints ----------

  ghost predicate Anchored(db: Db) {
    forall id :: id in db.edges ==> Endpoints(db, db.edges[id].key).None?
  }

  lemma UpdateNodeAnchored(schema: Schema, db: Db, n: Node, row: NodeRow, assigns: bool, now: int, order: seq<nat>)
    requires Anchored(db) && IsOrder(order, Incident(db, n))
    ensures var r := UpdateNode(schema, db, n, row, assigns, now, order); r.Some? ==> Anchored(r.value)
  {
    var r := UpdateNode(schema, db, n, row, assigns, now, order);
    if r.Some? {
      assert db.nodes.Keys <= r.value.nodes.Keys;
      assert forall id :: id in r.value.edges ==> id in db.edges && r.value.edges[id].key == db.edges[id].key;
    }
  }

  lemma InsertEdgeAnchored(schema: Schema, db: Db, key: EdgeKey, status: Option<nat>, notes: string, now: int)
    requires Anchored(db)
    ensures Anchored(Settle(db, InsertEdge(schema, db, key, status, notes, now)))
  {
    var r := InsertEdge(schema, db, key, status, notes, now);
    if r.Done? {
      var one := AddEdge(db, NewEdge(key, status, notes, now));
      assert Anchored(one);
    }
  }

  lemma DeleteEdgeAnchored(schema: Schema, db: Db, id: nat)
    requires Anchored(db)
    ensures Anchored(Settle(db, DeleteEdge(schema, db, id)))
  {
    if id in db.edges {
      var one := RemoveEdge(db, id);
      assert Anchored(one);
    }
  }

  lemma ExecAnchored(schema: Schema, db: Db, st: Statement)
    requires Inv(schema, db) && Anchored(db) && !st.StDeleteNode?
    ensures Anchored(Exec(schema, db, st))
  {
    match st
    case StInsertNode(n, row) =>
    case StUpdateNode(n, row, assigns, now, order) =>
      if IsOrder(order, Incident(db, n)) {
        UpdateNodeAnchored(schema, db, n, row, assigns, now, order);
      }
    case StInsertEdge(key, status, notes, now) => InsertEdgeAnchored(schema, db, key, status, notes, now);
    case StUpdateEdge(id, notes, status, now, depth) =>
      if id in db.edges {
        UpdateEdgeOutcome(schema, db, id, Patched(db.edges[id], notes, status), now, depth);
      }
    case StDeleteEdge(id) => DeleteEdgeAnchored(schema, db, id);
  }

  /** Between existing nodes no cascade fails: only an unknown status refuses the update of a node. */
  lemma AnchoredCascadeSucceeds(schema: Schema, db: Db, n: Node, row: NodeRow, assigns: bool, now: int, order: seq<nat>)
    requires Anchored(db) && IsOrder(order, Incident(db, n))
    ensures UpdateNode(schema, db, n, row, assigns, now, order).Some?
            <==> n !in db.nodes || schema.KnownStatus(row.status)
  {
    var one := PutNode(db, n, Some(row.(updatedAt := now)));
    assert n in db.nodes ==> one.nodes.Keys == db.nodes.Keys;
    assert n in db.nodes ==> forall id :: id in Incident(db, n) ==> Endpoints(one, db.edges[id].key).None?;
  }

  /** While no node row is deleted, every edge joins two existing nodes. */
  lemma {:induction false} EndpointsExist(schema: Schema, stmts: seq<Statement>)
    requires forall i :: 0 <= i < |stmts| ==> !stmts[i].StDeleteNode?
    ensures Anchored(Run(schema, stmts))
  {
    if stmts != [] {
      EndpointsExist(schema, stmts[..|stmts| - 1]);
      RunInv(schema, stmts[..|stmts| - 1]);
      ExecAnchored(schema, Run(schema, stmts[..|stmts| - 1]), stmts[|stmts| - 1]);
    }
  }
}
