/** Reverting an entity to an audit entry (`revert_entity`). The UPDATE it sends is an ordinary
    statement, so the audit and cascade triggers run on it too. */
module Revert {
  import opened Common
  import opened Graph
  import opened GraphInvariants
  import GraphTheorems
  import GraphDatabase

  /** The columns that `entities/revert.sql` writes. */
  datatype Snapshot = Snapshot(
    scopes: seq<nat>, name: string, typeId: nat, status: Option<nat>, statusChangedAt: Option<int>,
    statusReason: Option<string>, tags: seq<string>, sourcePath: Option<string>)

  function SnapshotOf(row: NodeRow): Snapshot {
    Snapshot(row.scopes, row.name, row.typeId, row.status, row.statusChangedAt, row.statusReason, row.tags,
             row.sourcePath)
  }

  function Restore(row: NodeRow, s: Snapshot): NodeRow {
    row.(scopes := s.scopes, name := s.name, typeId := s.typeId, status := s.status,
         statusChangedAt := s.statusChangedAt, statusReason := s.statusReason, tags := s.tags,
         sourcePath := s.sourcePath)
  }

  /** `TimeAsText` is the driver's: it takes no string for the timestamp parameter, and a status time comes out of
      the snapshot's JSON as one. `Refused` is an error of the UPDATE itself. */
  datatype RevertError = EntryNotFound | NotForEntities | OtherEntity | EmptySnapshot | TimeAsText | Refused

  datatype Result = Reverted(db: Db) | Failed(error: RevertError)

  /** The values an entry offers: the new ones, or the old ones of a delete. */
  function Offered(e: AuditEntry): Option<Row> {
    if e.action == Delete then e.oldValues else e.newValues
  }

  /** An audit id is the position of its entry in the append order. */
  ghost function RevertEntity(schema: Schema, db: Db, id: string, k: nat, now: int, order: seq<nat>): Result
    requires IsOrder(order, Incident(db, Node(Entity, id)))
  {
    if k >= |db.log| then Failed(EntryNotFound)
    else if !db.log[k].record.NodeRecord? || db.log[k].record.node.kind != Entity then Failed(NotForEntities)
    else if db.log[k].record.node.id != id then Failed(OtherEntity)
    else if Offered(db.log[k]).None? || !Offered(db.log[k]).value.NodeData? then Failed(EmptySnapshot)
    else if Offered(db.log[k]).value.node.statusChangedAt.Some? then Failed(TimeAsText)
    else
      var n := Node(Entity, id);
      if n !in db.nodes then Reverted(db)
      else
        var row := Restore(db.nodes[n], SnapshotOf(Offered(db.log[k]).value.node));
        var r := UpdateNode(schema, db, n, row, true, now, order);
        if r.Some? then Reverted(r.value) else Failed(Refused)
  }

  /** `revert_entity` against the live tables; each check refuses in the order of the source. */
  method RevertRow(tables: GraphDatabase.Database, id: string, k: nat, now: int)
      returns (error: Option<RevertError>, ghost order: seq<nat>)
    requires !tables.cascading
    modifies tables
    ensures IsOrder(order, Incident(old(tables.State()), Node(Entity, id)))
    ensures var was := RevertEntity(tables.schema, old(tables.State()), id, k, now, order);
            && (error.None? <==> was.Reverted?)
            && (was.Failed? ==> error == Some(was.error))
            && tables.State() == (if was.Reverted? then was.db else old(tables.State()))
  {
    var n := Node(Entity, id);
    order := GraphDatabase.SomeOrder(Incident(tables.State(), n));
    if k >= |tables.log| {
      return Some(EntryNotFound), order;
    }
    var audit := tables.log[k];
    if !audit.record.NodeRecord? || audit.record.node.kind != Entity {
      return Some(NotForEntities), order;
    }
    if audit.record.node.id != id {
      return Some(OtherEntity), order;
    }
    var snapshot := audit.newValues;
    if audit.action == Delete {
      snapshot := audit.oldValues;
    }
    if snapshot.None? || !snapshot.value.NodeData? {
      return Some(EmptySnapshot), order;
    }
    if snapshot.value.node.statusChangedAt.Some? {
      return Some(TimeAsText), order;
    }
    if n !in tables.nodes {
      return None, order;
    }
    var ok;
    ok, order := tables.UpdateNodeRow(n, Restore(tables.nodes[n], SnapshotOf(snapshot.value.node)), true, now);
    error := if ok then None else Some(Refused);
  }

  /** The table rows as they stood when the first `k` entries had been written. */
  function RowAt(log: seq<AuditEntry>, k: nat, n: Node): Option<Row>
    requires k <= |log|
  {
    Lookup(Replay(log[..k]), NodeRecord(n))
  }

  lemma OfferedIsHistory(log: seq<AuditEntry>, k: nat)
    requires Chained(log) && k < |log|
    ensures Offered(log[k]) == Lookup(Replay(log[..if log[k].action == Delete then k else k + 1]), log[k].record)
  {
    assert EntryFits(Replay(log[..k]), log[k]);
    assert log[..k + 1][..k] == log[..k];
  }

  lemma UpdateNodeEffect(schema: Schema, db: Db, n: Node, row: NodeRow, assigns: bool, now: int, order: seq<nat>)
    requires IsOrder(order, Incident(db, n)) && n in db.nodes
    ensures var r := UpdateNode(schema, db, n, row, assigns, now, order);
            r.Some? ==> db.log <= r.value.log && r.value.nodes == db.nodes[n := row.(updatedAt := now)]
  {
  }

  /** A revert puts the snapshot columns back to their values right after entry k (right before
      it, for a delete entry), touches no other node, and only appends to the log. */
  lemma RevertRestores(schema: Schema, db: Db, id: string, k: nat, now: int, order: seq<nat>)
    requires Inv(schema, db) && Node(Entity, id) in db.nodes && IsOrder(order, Incident(db, Node(Entity, id)))
    ensures var n := Node(Entity, id);
            var r := RevertEntity(schema, db, id, k, now, order);
            r.Reverted? ==>
              && k < |db.log| && db.log[k].record == NodeRecord(n) && Inv(schema, r.db) && n in r.db.nodes
              && (var then_ := RowAt(db.log, if db.log[k].action == Delete then k else k + 1, n);
                  then_.Some? && then_.value.NodeData? && SnapshotOf(r.db.nodes[n]) == SnapshotOf(then_.value.node))
              && r.db.nodes[n].createdAt == db.nodes[n].createdAt
              && (forall m :: m != n ==> Lookup(r.db.nodes, m) == Lookup(db.nodes, m))
              && db.log <= r.db.log
  {
    var r := RevertEntity(schema, db, id, k, now, order);
    if r.Reverted? {
      var n := Node(Entity, id);
      OfferedIsHistory(db.log, k);
      var row := Restore(db.nodes[n], SnapshotOf(Offered(db.log[k]).value.node));
      UpdateNodeInv(schema, db, n, row, true, now, order);
      UpdateNodeEffect(schema, db, n, row, true, now, order);
    }
  }

  /** Entry j is the latest about its row. */
  ghost predicate Latest(log: seq<AuditEntry>, j: nat) {
    j < |log| && forall k :: j < k < |log| ==> log[k].record != log[j].record
  }

  lemma LatestIsCurrent(schema: Schema, db: Db, n: Node, j: nat)
    requires Inv(schema, db) && n.kind == Entity && n in db.nodes
    requires Latest(db.log, j) && db.log[j].record == NodeRecord(n)
    ensures Offered(db.log[j]) == Some(NodeData(db.nodes[n]))
  {
    assert EntryFits(Replay(db.log[..j]), db.log[j]);
    GraphTheorems.LatestEntryWins(db.log, j);
    assert Lookup(Replay(db.log), NodeRecord(n)) == Current(db, NodeRecord(n));
  }

  lemma UpdateNodeKeepsEdgeKeys(schema: Schema, db: Db, n: Node, row: NodeRow, assigns: bool, now: int, order: seq<nat>)
    requires IsOrder(order, Incident(db, n)) && n in db.nodes
    ensures var r := UpdateNode(schema, db, n, row, assigns, now, order);
            r.Some? ==> r.value.edges.Keys == db.edges.Keys
                        && forall id :: id in db.edges ==> r.value.edges[id].key == db.edges[id].key
  {
  }

  /** An edge at the node has lost its other end. */
  ghost predicate DanglesAt(db: Db, n: Node) {
    exists id :: id in Incident(db, n) && Endpoints(db, db.edges[id].key).Some?
  }

  lemma SameDangling(db: Db, mid: Db, n: Node)
    requires mid.nodes.Keys == db.nodes.Keys && mid.edges.Keys == db.edges.Keys
    requires forall id :: id in db.edges ==> mid.edges[id].key == db.edges[id].key
    ensures DanglesAt(mid, n) <==> DanglesAt(db, n)
  {
    assert forall x :: x in mid.nodes <==> x in db.nodes.Keys;
    assert Incident(mid, n) == Incident(db, n);
  }

  lemma RefusedIff(schema: Schema, db: Db, n: Node, row: NodeRow, now: int, order: seq<nat>)
    requires IsOrder(order, Incident(db, n)) && n in db.nodes
    ensures UpdateNode(schema, db, n, row, true, now, order).None?
       <==> !schema.KnownStatus(row.status) || (schema.Archives(row.status) && DanglesAt(db, n))
  {
    var one := PutNode(db, n, Some(row.(updatedAt := now)));
    SameDangling(db, one, n);
  }

  /** Reverting to the entry that was the latest before a revert undoes that revert; it is refused exactly when
      the old row has a status time, or its status is unknown or would cascade to an edge that dangles. */
  lemma RevertUndo(
      schema: Schema, db: Db, mid: Db, id: string, k: nat, j: nat,
      now: int, order: seq<nat>, now2: int, order2: seq<nat>)
    requires Inv(schema, db) && Node(Entity, id) in db.nodes && IsOrder(order, Incident(db, Node(Entity, id)))
    requires Latest(db.log, j) && db.log[j].record == NodeRecord(Node(Entity, id))
    requires RevertEntity(schema, db, id, k, now, order) == Reverted(mid)
    requires IsOrder(order2, Incident(mid, Node(Entity, id)))
    ensures var n := Node(Entity, id);
            var back := RevertEntity(schema, mid, id, j, now2, order2);
            var was := db.nodes[n];
            && (back.Failed? <==> was.statusChangedAt.Some? || !schema.KnownStatus(was.status)
                                  || (schema.Archives(was.status) && DanglesAt(db, n)))
            && (back.Failed? ==> back.error == if was.statusChangedAt.Some? then TimeAsText else Refused)
            && (back.Reverted? ==> n in back.db.nodes && SnapshotOf(back.db.nodes[n]) == SnapshotOf(db.nodes[n])
                                   && back.db.nodes[n].createdAt == db.nodes[n].createdAt)
  {
    var n := Node(Entity, id);
    RevertFrame(schema, db, mid, id, k, now, order);
    LatestIsCurrent(schema, db, n, j);
    assert mid.log[j] == db.log[j];
    RevertTo(schema, mid, id, j, db.nodes[n], now2, order2);
  }

  /** What a revert leaves: the node, its creation time, the old log, and which edges dangle. */
  lemma RevertFrame(schema: Schema, db: Db, mid: Db, id: string, k: nat, now: int, order: seq<nat>)
    requires Node(Entity, id) in db.nodes && IsOrder(order, Incident(db, Node(Entity, id)))
    requires RevertEntity(schema, db, id, k, now, order) == Reverted(mid)
    ensures var n := Node(Entity, id);
            && n in mid.nodes && mid.nodes[n].createdAt == db.nodes[n].createdAt && db.log <= mid.log
            && (DanglesAt(mid, n) <==> DanglesAt(db, n))
  {
    var n := Node(Entity, id);
    var row := Restore(db.nodes[n], SnapshotOf(Offered(db.log[k]).value.node));
    UpdateNodeEffect(schema, db, n, row, true, now, order);
    UpdateNodeKeepsEdgeKeys(schema, db, n, row, true, now, order);
    SameDangling(db, mid, n);
  }

  /** Exactly when a revert to an entry that offers a given row succeeds, and what it writes. */
  lemma RevertTo(schema: Schema, db: Db, id: string, k: nat, offered: NodeRow, now: int, order: seq<nat>)
    requires Node(Entity, id) in db.nodes && IsOrder(order, Incident(db, Node(Entity, id)))
    requires k < |db.log| && db.log[k].record == NodeRecord(Node(Entity, id))
    requires Offered(db.log[k]) == Some(NodeData(offered))
    ensures var n := Node(Entity, id);
            var r := RevertEntity(schema, db, id, k, now, order);
            && (r.Failed? <==> offered.statusChangedAt.Some? || !schema.KnownStatus(offered.status)
                               || (schema.Archives(offered.status) && DanglesAt(db, n)))
            && (r.Failed? ==> r.error == if offered.statusChangedAt.Some? then TimeAsText else Refused)
            && (r.Reverted? ==>
                  r.db.nodes == db.nodes[n := Restore(db.nodes[n], SnapshotOf(offered)).(updatedAt := now)])
  {
    var n := Node(Entity, id);
    var row := Restore(db.nodes[n], SnapshotOf(offered));
    UpdateNodeEffect(schema, db, n, row, true, now, order);
    RefusedIff(schema, db, n, row, now, order);
  }

  // ---------- which reverts can be undone ----------

  ghost predicate StatusesKnown(schema: Schema, db: Db) {
    forall n :: n in db.nodes ==> schema.KnownStatus(db.nodes[n].status)
  }

  lemma {:induction false} UpdateEdgeKeepsNodes(schema: Schema, db: Db, id: nat, e: Edge, now: int, depth: nat)
    requires id in db.edges
    ensures Settle(db, UpdateEdge(schema, db, id, e, now, depth)).nodes == db.nodes
    decreases depth
  {
    if depth > 0 && Endpoints(db, e.key).None? {
      var one := ChangeEdge(db, id, e.(updatedAt := now));
      var twin := Find(one, e.key.Mirror());
      if twin.Some? {
        UpdateEdgeKeepsNodes(schema, one, twin.value, one.edges[twin.value].(notes := e.notes), now, depth - 1);
      }
    }
  }

  lemma ExecKeepsStatusesKnown(schema: Schema, db: Db, st: Statement)
    requires StatusesKnown(schema, db)
    ensures StatusesKnown(schema, Exec(schema, db, st))
  {
    if st.StUpdateEdge? && st.id in db.edges {
      UpdateEdgeKeepsNodes(schema, db, st.id, Patched(db.edges[st.id], st.newNotes, st.newStatus), st.now, st.depth);
    }
    if st.StUpdateNode? && st.node in db.nodes && IsOrder(st.order, Incident(db, st.node)) {
      UpdateNodeEffect(schema, db, st.node, st.row, st.assignsStatus, st.now, st.order);
    }
  }

  lemma {:induction false} RunKeepsStatusesKnown(schema: Schema, stmts: seq<Statement>)
    ensures StatusesKnown(schema, Run(schema, stmts))
  {
    if stmts != [] {
      RunKeepsStatusesKnown(schema, stmts[..|stmts| - 1]);
      ExecKeepsStatusesKnown(schema, Run(schema, stmts[..|stmts| - 1]), stmts[|stmts| - 1]);
    }
  }

  /** After any run without deleted nodes, a revert can be undone exactly when the row it replaced has no status
      time: once a status has been set by an update, the row is lost to reverts. */
  lemma RevertCanBeUndoneIff(
      schema: Schema, stmts: seq<Statement>, mid: Db, id: string, k: nat, j: nat,
      now: int, order: seq<nat>, now2: int, order2: seq<nat>)
    requires forall i :: 0 <= i < |stmts| ==> !stmts[i].StDeleteNode?
    requires var db := Run(schema, stmts);
             && Node(Entity, id) in db.nodes && IsOrder(order, Incident(db, Node(Entity, id)))
             && Latest(db.log, j) && db.log[j].record == NodeRecord(Node(Entity, id))
             && RevertEntity(schema, db, id, k, now, order) == Reverted(mid)
    requires IsOrder(order2, Incident(mid, Node(Entity, id)))
    ensures RevertEntity(schema, mid, id, j, now2, order2).Reverted?
       <==> Run(schema, stmts).nodes[Node(Entity, id)].statusChangedAt.None?
  {
    RunInv(schema, stmts);
    RunKeepsStatusesKnown(schema, stmts);
    GraphTheorems.EndpointsExist(schema, stmts);
    RevertUndo(schema, Run(schema, stmts), mid, id, k, j, now, order, now2, order2);
  }

  /** `entities/update.sql` with a status: the time of the change goes with it. */
  function WithStatus(row: NodeRow, status: nat, now: int): NodeRow {
    row.(status := Some(status), statusChangedAt := Some(now))
  }

  /** Create an entity, then set its status. */
  function StatusRun(id: string, row: NodeRow, status: nat, now: int): seq<Statement> {
    var n := Node(Entity, id);
    [StInsertNode(n, row)] + [StUpdateNode(n, WithStatus(row, status, now), true, now, [])]
  }

  lemma StatusRunTables(schema: Schema, id: string, row: NodeRow, status: nat, now: int)
    requires schema.KnownStatus(row.status) && status in schema.archived && !schema.archived[status]
    ensures var db := Run(schema, StatusRun(id, row, status, now));
            var n := Node(Entity, id);
            var updated := WithStatus(row, status, now).(updatedAt := now);
            && db.nodes == map[n := updated] && db.edges == map[]
            && db.log == [Entry(NodeRecord(n), None, Some(NodeData(row))),
                          Entry(NodeRecord(n), Some(NodeData(row)), Some(NodeData(updated)))]
  {
    var n := Node(Entity, id);
    var create := StInsertNode(n, row);
    var update := StUpdateNode(n, WithStatus(row, status, now), true, now, []);
    RunNext(schema, [], create);
    RunNext(schema, [create], update);
    assert [] + [create] == [create];
    var created := Run(schema, [create]);
    assert created == Exec(schema, EMPTY, create);
    assert created.nodes == map[n := row] && created.log == [Entry(NodeRecord(n), None, Some(NodeData(row)))];
    assert IsOrder([], Incident(created, n));
  }

  lemma RunNext(schema: Schema, stmts: seq<Statement>, st: Statement)
    ensures Run(schema, stmts + [st]) == Exec(schema, Run(schema, stmts), st)
  {
    assert (stmts + [st])[..|stmts|] == stmts;
  }

  /** Such an entity can be reverted to its creation, and that revert cannot be undone. */
  lemma StatusChangeIsLost(
      schema: Schema, id: string, row: NodeRow, status: nat, now: int, later: int, latest: int)
    requires schema.KnownStatus(row.status) && row.statusChangedAt.None?
    requires status in schema.archived && !schema.archived[status]
    ensures var db := Run(schema, StatusRun(id, row, status, now));
            && IsOrder([], Incident(db, Node(Entity, id)))
            && var r := RevertEntity(schema, db, id, 0, later, []);
               r.Reverted?
               && IsOrder([], Incident(r.db, Node(Entity, id)))
               && RevertEntity(schema, r.db, id, 1, latest, []) == Failed(TimeAsText)
  {
    var n := Node(Entity, id);
    var db := Run(schema, StatusRun(id, row, status, now));
    StatusRunTables(schema, id, row, status, now);
    RevertTo(schema, db, id, 0, row, later, []);
    RevertFrame(schema, db, RevertEntity(schema, db, id, 0, later, []).db, id, 0, later, []);
    UpdateNodeKeepsEdgeKeys(schema, db, n, Restore(db.nodes[n], SnapshotOf(row)), true, later, []);
  }

  // ---------- the answers and the columns, spelled out ----------

  /** Which refusal is given: no entry, an entry about another table, about another entity, without values, or with a
      status time. What counts is the old row of a delete entry and the new row of any other. */
  lemma RevertAnswers(schema: Schema, db: Db, id: string, k: nat, now: int, order: seq<nat>)
    requires IsOrder(order, Incident(db, Node(Entity, id)))
    ensures var r := RevertEntity(schema, db, id, k, now, order);
            && (r == Failed(EntryNotFound) <==> k >= |db.log|)
            && (k < |db.log| ==>
                  var e := db.log[k];
                  var about := e.record.NodeRecord? && e.record.node.kind == Entity;
                  var same := about && e.record.node.id == id;
                  var values := if e.action == Delete then e.oldValues else e.newValues;
                  var usable := values.Some? && values.value.NodeData?;
                  && (r == Failed(NotForEntities) <==> !about)
                  && (r == Failed(OtherEntity) <==> about && !same)
                  && (r == Failed(EmptySnapshot) <==> same && !usable)
                  && (r == Failed(TimeAsText) <==> same && usable && values.value.node.statusChangedAt.Some?)
                  && (r.Reverted? && Node(Entity, id) !in db.nodes ==> r.db == db))
  {
  }

  /** The eight columns after a revert, one by one; the rest of the row, all other nodes and the earlier log stay. */
  lemma RevertWrites(schema: Schema, db: Db, id: string, k: nat, offered: NodeRow, now: int, order: seq<nat>)
    requires Node(Entity, id) in db.nodes && IsOrder(order, Incident(db, Node(Entity, id)))
    requires k < |db.log| && db.log[k].record == NodeRecord(Node(Entity, id))
    requires Offered(db.log[k]) == Some(NodeData(offered))
    requires RevertEntity(schema, db, id, k, now, order).Reverted?
    ensures var n := Node(Entity, id);
            var after := RevertEntity(schema, db, id, k, now, order).db;
            && n in after.nodes
            && (var row := after.nodes[n];
                && row.scopes == offered.scopes && row.name == offered.name && row.typeId == offered.typeId
                && row.status == offered.status && row.statusChangedAt == offered.statusChangedAt == None
                && row.statusReason == offered.statusReason && row.tags == offered.tags
                && row.sourcePath == offered.sourcePath
                && row.createdAt == db.nodes[n].createdAt && row.updatedAt == now)
            && (forall m :: m != n ==> Lookup(after.nodes, m) == Lookup(db.nodes, m))
            && db.log <= after.log
  {
    RevertTo(schema, db, id, k, offered, now, order);
    var row := Restore(db.nodes[Node(Entity, id)], SnapshotOf(offered));
    UpdateNodeEffect(schema, db, Node(Entity, id), row, true, now, order);
  }
}
