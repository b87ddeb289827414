/** What every statement keeps: the unique index, the symmetric closure, and an audit
    log that replays to the audited tables. */
module GraphInvariants {
  import opened Common
  import opened Graph

  // ---------- the unique index ----------

  ghost predicate IndexOk(db: Db) {
    && (forall id :: id in db.edges ==>
          id < db.nextId && db.edges[id].key in db.index && db.index[db.edges[id].key] == id)
    && (forall k :: k in db.index ==> db.index[k] in db.edges && db.edges[db.index[k]].key == k)
  }

  // ---------- symmetric closure ----------

  ghost predicate HasTwin(db: Db, id: nat)
    requires id in db.edges
  {
    var twin := Find(db, db.edges[id].key.Mirror());
    twin.Some? && db.edges[twin.value].notes == db.edges[id].notes
  }

  ghost predicate Closed(schema: Schema, db: Db) {
    forall id :: id in db.edges && schema.Symmetric(db.edges[id].key.typ) ==> HasTwin(db, id)
  }

  // ---------- replay of the audit log ----------

  function Apply(m: map<Record, Row>, e: AuditEntry): map<Record, Row> {
    if e.action == Delete || e.newValues.None? then m - {e.record} else m[e.record := e.newValues.value]
  }

  /** Folding the log in append order, from empty tables. */
  function Replay(log: seq<AuditEntry>): map<Record, Row> {
    if log == [] then map[] else Apply(Replay(log[..|log| - 1]), log[|log| - 1])
  }

  function Current(db: Db, r: Record): Option<Row> {
    match r
    case NodeRecord(n) => if Audited(n.kind) then NodeDataOf(Lookup(db.nodes, n)) else None
    case EdgeRecord(id) => EdgeDataOf(Lookup(db.edges, id))
  }

  /** The audited tables as one map. */
  function AuditedTables(db: Db): map<Record, Row> {
    (map n | n in db.nodes && Audited(n.kind) :: NodeRecord(n) := NodeData(db.nodes[n]))
    + (map id | id in db.edges :: EdgeRecord(id) := EdgeData(db.edges[id]))
  }

  ghost predicate Synced(db: Db) {
    forall r :: Lookup(Replay(db.log), r) == Current(db, r)
  }

  ghost predicate EntryFits(m: map<Record, Row>, e: AuditEntry) {
    && e.oldValues == Lookup(m, e.record)
    && e.action == (if e.oldValues.None? then Insert else if e.newValues.None? then Delete else Update)
    && (e.oldValues.Some? || e.newValues.Some?)
  }

  /** Every entry starts from the values that the entries before it leave. */
  ghost predicate Chained(log: seq<AuditEntry>) {
    forall i :: 0 <= i < |log| ==> EntryFits(Replay(log[..i]), log[i])
  }

  ghost predicate Inv(schema: Schema, db: Db) {
    !db.cascading && IndexOk(db) && Closed(schema, db) && Synced(db) && Chained(db.log)
  }

  ghost predicate Logged(db: Db) {
    Synced(db) && Chained(db.log)
  }

  /** One row changed and one entry appended: the log stays in step. */
  lemma OneChange(db: Db, after: Db, e: AuditEntry)
    requires Logged(db)
    requires after.log == db.log + [e]
    requires e == Entry(e.record, Current(db, e.record), e.newValues)
    requires e.oldValues.Some? || e.newValues.Some?
    requires forall r :: Current(after, r) == if r == e.record then e.newValues else Current(db, r)
    ensures Logged(after)
  {
    assert after.log[..|db.log|] == db.log;
    assert Synced(after);
    ChainOneMore(db.log, e);
  }

  lemma ChainOneMore(log: seq<AuditEntry>, e: AuditEntry)
    requires Chained(log) && EntryFits(Replay(log), e)
    ensures Chained(log + [e])
  {
    var all := log + [e];
    forall i | 0 <= i < |all| ensures EntryFits(Replay(all[..i]), all[i]) {
      assert all[..i] == log[..i];
      assert log[..|log|] == log;
    }
  }

  lemma PutNodeLogged(db: Db, n: Node, row: Option<NodeRow>)
    requires Logged(db) && (n in db.nodes || row.Some?)
    ensures Logged(PutNode(db, n, row))
  {
    var after := PutNode(db, n, row);
    if Audited(n.kind) {
      OneChange(db, after, after.log[|db.log|]);
    } else {
      assert forall r :: Current(after, r) == Current(db, r);
    }
  }

  lemma AddEdgeLogged(db: Db, e: Edge)
    requires Logged(db) && db.nextId !in db.edges
    ensures Logged(AddEdge(db, e))
  {
    var after := AddEdge(db, e);
    OneChange(db, after, after.log[|db.log|]);
  }

  lemma ChangeEdgeLogged(db: Db, id: nat, e: Edge)
    requires Logged(db) && id in db.edges
    ensures Logged(ChangeEdge(db, id, e))
  {
    var after := ChangeEdge(db, id, e);
    OneChange(db, after, after.log[|db.log|]);
  }

  lemma RemoveEdgeLogged(db: Db, id: nat)
    requires Logged(db) && id in db.edges
    ensures Logged(RemoveEdge(db, id))
  {
    var after := RemoveEdge(db, id);
    OneChange(db, after, after.log[|db.log|]);
  }

  /** The cascade over one more row is the shorter cascade and one more change. */
  lemma CascadeStep(db: Db, most: seq<nat>, last: nat, status: Option<nat>, now: int)
    requires forall i :: 0 <= i < |most| ==> most[i] in db.edges
    requires last in db.edges && last !in most
    ensures Cascade(db, most + [last], status, now)
         == ChangeEdge(Cascade(db, most, status, now), last, Stamp(db.edges[last], status, now))
  {
    var mid, after := Cascade(db, most, status, now), Cascade(db, most + [last], status, now);
    var stamped := Stamp(db.edges[last], status, now);
    assert forall id :: id in most + [last] <==> id in most || id == last;
    assert after.edges == mid.edges[last := stamped];
    assert after.log == mid.log + [EdgeEntry(last, Some(db.edges[last]), Some(stamped))];
  }

  lemma {:induction false} CascadeLogged(db: Db, order: seq<nat>, status: Option<nat>, now: int)
    requires Logged(db)
    requires forall i :: 0 <= i < |order| ==> order[i] in db.edges
    requires forall i, j :: 0 <= i < j < |order| ==> order[i] != order[j]
    ensures Logged(Cascade(db, order, status, now))
  {
    if order == [] {
      assert Cascade(db, order, status, now) == db by {
        assert Cascade(db, order, status, now).edges == db.edges;
        assert Cascade(db, order, status, now).log == db.log;
      }
    } else {
      var most, last := order[..|order| - 1], order[|order| - 1];
      assert order == most + [last];
      CascadeLogged(db, most, status, now);
      CascadeStep(db, most, last, status, now);
      ChangeEdgeLogged(Cascade(db, most, status, now), last, Stamp(db.edges[last], status, now));
    }
  }

  // ---------- each statement keeps the invariant ----------

  /** For a symmetric type an edge is present iff its mirror is, with the same notes. */
  lemma PresentIffMirror(schema: Schema, db: Db, key: EdgeKey)
    requires IndexOk(db) && Closed(schema, db) && schema.Symmetric(key.typ)
    ensures key in db.index <==> key.Mirror() in db.index
    ensures key in db.index ==> db.edges[db.index[key]].notes == db.edges[db.index[key.Mirror()]].notes
  {
    assert key.Mirror().Mirror() == key;
    if key in db.index {
      assert HasTwin(db, db.index[key]);
    }
    if key.Mirror() in db.index {
      assert HasTwin(db, db.index[key.Mirror()]);
    }
  }

  lemma AddEdgeIndexOk(db: Db, e: Edge)
    requires IndexOk(db) && e.key !in db.index
    ensures IndexOk(AddEdge(db, e))
    ensures forall id :: id in db.edges && HasTwin(db, id) ==> HasTwin(AddEdge(db, e), id)
  {
  }

  lemma InsertEdgeInv(schema: Schema, db: Db, key: EdgeKey, status: Option<nat>, notes: string, now: int)
    requires Inv(schema, db)
    ensures Inv(schema, Settle(db, InsertEdge(schema, db, key, status, notes, now)))
  {
    var r := InsertEdge(schema, db, key, status, notes, now);
    if r.Done? {
      var e, m := NewEdge(key, status, notes, now), NewEdge(key.Mirror(), None, notes, now);
      var one := AddEdge(db, e);
      AddEdgeLogged(db, e);
      AddEdgeIndexOk(db, e);
      if schema.Symmetric(key.typ) {
        PresentIffMirror(schema, db, key);
        if m.key != key {
          AddEdgeLogged(one, m);
          AddEdgeIndexOk(one, m);
          assert m.key.Mirror() == key;
          assert HasTwin(r.db, db.nextId) && HasTwin(r.db, db.nextId + 1);
        } else {
          assert HasTwin(r.db, db.nextId);
        }
      }
    }
  }

  lemma DeleteEdgeInv(schema: Schema, db: Db, id: nat)
    requires Inv(schema, db)
    ensures Inv(schema, Settle(db, DeleteEdge(schema, db, id)))
  {
    if id in db.edges {
      var key := db.edges[id].key;
      assert key.Mirror().Mirror() == key;
      RemoveEdgeLogged(db, id);
      var one := RemoveEdge(db, id);
      var after := DeleteEdge(schema, db, id).db;
      if after != one {
        RemoveEdgeLogged(one, one.index[key.Mirror()]);
      }
      forall x | x in after.edges && schema.Symmetric(after.edges[x].key.typ)
        ensures HasTwin(after, x)
      {
        assert HasTwin(db, x);
        assert after.edges[x].key.Mirror().Mirror() == after.edges[x].key;
      }
    }
  }

  lemma UpdateNodeInv(schema: Schema, db: Db, n: Node, row: NodeRow, assigns: bool, now: int, order: seq<nat>)
    requires Inv(schema, db) && IsOrder(order, Incident(db, n))
    ensures var r := UpdateNode(schema, db, n, row, assigns, now, order);
            r.Some? ==> Inv(schema, r.value)
  {
    var r := UpdateNode(schema, db, n, row, assigns, now, order);
    if n in db.nodes && r.Some? {
      PutNodeLogged(db, n, Some(row.(updatedAt := now)));
      var one := PutNode(db, n, Some(row.(updatedAt := now)));
      assert forall id :: id in db.edges && HasTwin(db, id) ==> HasTwin(one, id);
      if r.value != one {
        CascadeInv(schema, one, order, row.status, now);
      }
    }
  }

  lemma CascadeInv(schema: Schema, db: Db, order: seq<nat>, status: Option<nat>, now: int)
    requires Inv(schema, db)
    requires forall i :: 0 <= i < |order| ==> order[i] in db.edges
    requires forall i, j :: 0 <= i < j < |order| ==> order[i] != order[j]
    ensures Inv(schema, Cascade(db, order, status, now))
  {
    CascadeLogged(db, order, status, now);
    var after := Cascade(db, order, status, now);
    forall id | id in after.edges && schema.Symmetric(after.edges[id].key.typ) ensures HasTwin(after, id) {
      assert HasTwin(db, id);
    }
  }

  lemma DeleteNodeInv(schema: Schema, db: Db, n: Node)
    requires Inv(schema, db)
    ensures Inv(schema, DeleteNode(db, n))
  {
    if n in db.nodes {
      PutNodeLogged(db, n, None);
      assert forall id :: id in db.edges && HasTwin(db, id) ==> HasTwin(DeleteNode(db, n), id);
    }
  }

  lemma InsertNodeInv(schema: Schema, db: Db, n: Node, row: NodeRow)
    requires Inv(schema, db)
    ensures Inv(schema, Settle(db, InsertNode(schema, db, n, row)))
  {
    var r := InsertNode(schema, db, n, row);
    if r.Done? {
      PutNodeLogged(db, n, Some(row));
      assert forall id :: id in db.edges && HasTwin(db, id) ==> HasTwin(r.db, id);
    }
  }

  // ---------- updating an edge outside a cascade ----------

  /** Whatever the stack allows, the two triggers of a mirrored symmetric edge use it up. */
  lemma {:induction false} MirroredUpdateAborts(schema: Schema, db: Db, id: nat, e: Edge, now: int, depth: nat)
    requires IndexOk(db) && !db.cascading
    requires id in db.edges && db.edges[id].key == e.key
    requires schema.Symmetric(e.key.typ) && e.key.Mirror() in db.index
    ensures UpdateEdge(schema, db, id, e, now, depth).Aborted?
    decreases depth
  {
    if depth > 0 && Endpoints(db, e.key).None? {
      var one := ChangeEdge(db, id, e.(updatedAt := now));
      assert e.key.Mirror().Mirror() == e.key;
      var twin := one.index[e.key.Mirror()];
      MirroredUpdateAborts(schema, one, twin, one.edges[twin].(notes := e.notes), now, depth - 1);
    }
  }

  /** Under the cascade flag one update is one row change, however symmetric the edge. */
  lemma FlagStopsUpdates(schema: Schema, db: Db, id: nat, e: Edge, now: int, depth: nat)
    requires db.cascading && id in db.edges
    ensures UpdateEdge(schema, db, id, e, now, depth).Done? <==> depth > 0 && Endpoints(db, e.key).None?
    ensures var r := UpdateEdge(schema, db, id, e, now, depth);
            r.Done? ==> r.db == ChangeEdge(db, id, e.(updatedAt := now))
  {
  }

  /** An edge can be updated exactly when its type is not symmetric (and its endpoints exist
      and the stack is not exhausted); then only that edge changes. */
  lemma UpdateEdgeOutcome(schema: Schema, db: Db, id: nat, e: Edge, now: int, depth: nat)
    requires Inv(schema, db) && id in db.edges && db.edges[id].key == e.key
    ensures UpdateEdge(schema, db, id, e, now, depth).Done?
       <==> !schema.Symmetric(e.key.typ) && Endpoints(db, e.key).None? && depth > 0
    ensures var r := UpdateEdge(schema, db, id, e, now, depth);
            r.Done? ==> r.db == ChangeEdge(db, id, e.(updatedAt := now))
  {
    if schema.Symmetric(e.key.typ) {
      PresentIffMirror(schema, db, e.key);
      MirroredUpdateAborts(schema, db, id, e, now, depth);
    }
  }

  lemma UpdateEdgeInv(schema: Schema, db: Db, id: nat, e: Edge, now: int, depth: nat)
    requires Inv(schema, db) && id in db.edges && db.edges[id].key == e.key
    ensures Inv(schema, Settle(db, UpdateEdge(schema, db, id, e, now, depth)))
  {
    UpdateEdgeOutcome(schema, db, id, e, now, depth);
    var r := UpdateEdge(schema, db, id, e, now, depth);
    if r.Done? {
      ChangeEdgeLogged(db, id, e.(updatedAt := now));
      forall x | x in r.db.edges && schema.Symmetric(r.db.edges[x].key.typ)
        ensures HasTwin(r.db, x)
      {
        assert HasTwin(db, x);
      }
    }
  }

  // ---------- every run ----------

  lemma ExecInv(schema: Schema, db: Db, st: Statement)
    requires Inv(schema, db)
    ensures Inv(schema, Exec(schema, db, st))
  {
    match st
    case StInsertNode(n, row) => InsertNodeInv(schema, db, n, row);
    case StUpdateNode(n, row, assigns, now, order) =>
      if IsOrder(order, Incident(db, n)) {
        UpdateNodeInv(schema, db, n, row, assigns, now, order);
      }
    case StDeleteNode(n) => DeleteNodeInv(schema, db, n);
    case StInsertEdge(key, status, notes, now) => InsertEdgeInv(schema, db, key, status, notes, now);
    case StUpdateEdge(id, notes, status, now, depth) =>
      if id in db.edges {
        UpdateEdgeInv(schema, db, id, Patched(db.edges[id], notes, status), now, depth);
      }
    case StDeleteEdge(id) => DeleteEdgeInv(schema, db, id);
  }

  lemma {:induction false} RunInv(schema: Schema, stmts: seq<Statement>)
    ensures Inv(schema, Run(schema, stmts))
  {
    if stmts != [] {
      RunInv(schema, stmts[..|stmts| - 1]);
      ExecInv(schema, Run(schema, stmts[..|stmts| - 1]), stmts[|stmts| - 1]);
    }
  }
}
