/** What each statement leaves in the tables, column by column, for every reachable state. */
module GraphEffects {
  import opened Common
  import opened Graph
  import opened GraphInvariants
  import opened GraphTheorems

  // ---------- the unique key and the edge under it ----------

  /** The row under the five key columns. */
  function EdgeAt(db: Db, source: Node, target: Node, typ: nat): Option<Edge> {
    var key := EdgeKey(source, target, typ);
    if key in db.index && db.index[key] in db.edges then Some(db.edges[db.index[key]]) else None
  }

  lemma EdgeAtIsOnlyOne(schema: Schema, db: Db, id: nat)
    requires Inv(schema, db) && id in db.edges
    ensures var e := db.edges[id]; EdgeAt(db, e.key.source, e.key.target, e.key.typ) == Some(e)
  {
  }

  // ---------- INSERT of an edge ----------

  /** Which error an insert ends with, or none. */
  lemma InsertOutcome(
      schema: Schema, db: Db, source: Node, target: Node, typ: nat, status: Option<nat>, notes: string, now: int)
    ensures var r := InsertEdge(schema, db, EdgeKey(source, target, typ), status, notes, now);
            && (r == Aborted(SourceMissing) <==> source !in db.nodes)
            && (r == Aborted(TargetMissing) <==> source in db.nodes && target !in db.nodes)
            && (r == Aborted(UniqueViolation) <==>
                  source in db.nodes && target in db.nodes && EdgeKey(source, target, typ) in db.index)
            && (r == Aborted(ForeignKeyViolation) <==>
                  source in db.nodes && target in db.nodes && EdgeKey(source, target, typ) !in db.index
                  && (typ !in schema.symmetric || (status.Some? && status.value !in schema.archived)))
            && r != Aborted(StackDepthExceeded)
  {
  }

  /** A successful insert stores the given columns, and for a symmetric type between two nodes the mirror with the
      same notes and no status; every other edge and every node stay. */
  lemma InsertStores(
      schema: Schema, db: Db, source: Node, target: Node, typ: nat, status: Option<nat>, notes: string, now: int)
    requires Inv(schema, db) && InsertEdge(schema, db, EdgeKey(source, target, typ), status, notes, now).Done?
    ensures var after := InsertEdge(schema, db, EdgeKey(source, target, typ), status, notes, now).db;
            var mirrored := typ in schema.symmetric && schema.symmetric[typ] && source != target;
            && EdgeAt(after, source, target, typ)
               == Some(Edge(EdgeKey(source, target, typ), status, None, notes, now, now))
            && (mirrored ==> EdgeAt(after, target, source, typ)
                             == Some(Edge(EdgeKey(target, source, typ), None, None, notes, now, now)))
            && (forall a, b, t ::
                  t != typ || (!(a == source && b == target) && !(mirrored && a == target && b == source)) ==>
                  EdgeAt(after, a, b, t) == EdgeAt(db, a, b, t))
            && after.nodes == db.nodes
  {
    var key := EdgeKey(source, target, typ);
    InsertFrame(schema, db, key, status, notes, now);
    InsertEdgeInv(schema, db, key, status, notes, now);
    var after := InsertEdge(schema, db, key, status, notes, now).db;
    assert key.Mirror() == EdgeKey(target, source, typ);
    forall a, b, t |
      t != typ || (!(a == source && b == target) && !(schema.Symmetric(typ) && a == target && b == source))
      ensures EdgeAt(after, a, b, t) == EdgeAt(db, a, b, t)
    {
      OtherEdgeStays(schema, db, after, key, status, notes, now, EdgeKey(a, b, t));
    }
  }

  lemma OtherEdgeStays(
      schema: Schema, db: Db, after: Db, key: EdgeKey, status: Option<nat>, notes: string, now: int, other: EdgeKey)
    requires IndexOk(db) && IndexOk(after) && Inserted(schema, db, after, key, status, notes, now)
    requires other != key && !(schema.Symmetric(key.typ) && other == key.Mirror())
    ensures EdgeAt(after, other.source, other.target, other.typ) == EdgeAt(db, other.source, other.target, other.typ)
  {
    assert other == EdgeKey(other.source, other.target, other.typ);
    if other in db.index.Keys {
      var id := db.index[other];
      assert after.edges[id] == db.edges[id];
    } else {
      assert other !in after.index.Keys;
    }
  }

  // ---------- DELETE of an edge ----------

  /** A delete takes the edge and, for a symmetric type, its mirror; every other edge and every node stay. */
  lemma DeleteTakes(schema: Schema, db: Db, id: nat)
    requires Inv(schema, db) && id in db.edges
    ensures var key := db.edges[id].key;
            var after := Exec(schema, db, StDeleteEdge(id));
            var mirrored := key.typ in schema.symmetric && schema.symmetric[key.typ];
            && EdgeAt(after, key.source, key.target, key.typ) == None
            && (mirrored ==> EdgeAt(after, key.target, key.source, key.typ) == None)
            && (forall a, b, t ::
                  !(t == key.typ && a == key.source && b == key.target)
                  && !(mirrored && t == key.typ && a == key.target && b == key.source) ==>
                  EdgeAt(after, a, b, t) == EdgeAt(db, a, b, t))
            && after.nodes == db.nodes
  {
    DeleteFrame(schema, db, id);
    DeleteEdgeInv(schema, db, id);
    var key, after := db.edges[id].key, Exec(schema, db, StDeleteEdge(id));
    forall a, b, t | EdgeKey(a, b, t) != key && !(schema.Symmetric(key.typ) && EdgeKey(a, b, t) == key.Mirror())
      ensures EdgeAt(after, a, b, t) == EdgeAt(db, a, b, t)
    {
      OtherEdgeKept(schema, db, after, key, EdgeKey(a, b, t));
    }
    assert key !in after.index.Keys && (schema.Symmetric(key.typ) ==> key.Mirror() !in after.index.Keys);
  }

  lemma OtherEdgeKept(schema: Schema, db: Db, after: Db, key: EdgeKey, other: EdgeKey)
    requires IndexOk(db) && IndexOk(after) && Deleted(schema, db, after, key)
    requires other != key && !(schema.Symmetric(key.typ) && other == key.Mirror())
    ensures EdgeAt(after, other.source, other.target, other.typ) == EdgeAt(db, other.source, other.target, other.typ)
  {
    assert other == EdgeKey(other.source, other.target, other.typ);
    assert other in after.index.Keys <==> other in db.index.Keys;
    if other in db.index.Keys {
      assert db.index[other] in after.edges;
    }
  }

  // ---------- symmetric types ----------

  /** In every reachable state an edge of a symmetric type stands next to its reverse, with the same notes. */
  lemma EdgesStandInPairs(schema: Schema, db: Db, a: Node, b: Node, typ: nat)
    requires Reachable(schema, db) && typ in schema.symmetric && schema.symmetric[typ]
    ensures EdgeAt(db, a, b, typ).Some? <==> EdgeAt(db, b, a, typ).Some?
    ensures EdgeAt(db, a, b, typ).Some? ==> EdgeAt(db, a, b, typ).value.notes == EdgeAt(db, b, a, typ).value.notes
  {
    SymmetricClosure(schema, db, EdgeKey(a, b, typ));
    SymmetricClosure(schema, db, EdgeKey(b, a, typ));
  }

  // ---------- UPDATE of an edge ----------

  /** An update keeps the columns whose argument is null. It changes its row iff the type is not symmetric, both ends
      and the new status exist and there is stack, and otherwise nothing. */
  lemma UpdateStores(schema: Schema, db: Db, id: nat, notes: Option<string>, status: Option<nat>, now: int, depth: nat)
    requires Inv(schema, db) && id in db.edges
    ensures var after := Exec(schema, db, StUpdateEdge(id, notes, status, now, depth));
            var e := db.edges[id];
            var succeeds := !(e.key.typ in schema.symmetric && schema.symmetric[e.key.typ])
                            && e.key.source in db.nodes && e.key.target in db.nodes
                            && (status.Some? ==> status.value in schema.archived) && depth > 0;
            && after.nodes == db.nodes && after.index == db.index && after.edges.Keys == db.edges.Keys
            && (forall other :: other in db.edges && other != id ==> after.edges[other] == db.edges[other])
            && (!succeeds ==> after == db)
            && (succeeds ==>
                  var u := after.edges[id];
                  && u.key == e.key && u.createdAt == e.createdAt && u.statusChangedAt == e.statusChangedAt
                  && u.updatedAt == now
                  && (match notes case None => u.notes == e.notes case Some(n) => u.notes == n)
                  && (match status case None => u.status == e.status case Some(s) => u.status == Some(s)))
  {
    UpdateEdgeOutcome(schema, db, id, Patched(db.edges[id], notes, status), now, depth);
  }

  // ---------- node statements ----------

  /** An insert adds exactly the given row, unless the id is taken or the status is unknown. */
  lemma NodeInsertStores(schema: Schema, db: Db, n: Node, row: NodeRow)
    ensures var after := Exec(schema, db, StInsertNode(n, row));
            if n in db.nodes || (row.status.Some? && row.status.value !in schema.archived) then after == db
            else after.nodes == db.nodes[n := row] && after.edges == db.edges && after.index == db.index
  {
  }

  /** A delete takes exactly the one row. */
  lemma NodeDeleteStores(schema: Schema, db: Db, n: Node)
    ensures var after := Exec(schema, db, StDeleteNode(n));
            && n !in after.nodes && (forall m :: m != n ==> Lookup(after.nodes, m) == Lookup(db.nodes, m))
            && after.edges == db.edges && after.index == db.index
  {
  }

  /** What archiving a node does, in terms of the rows alone: exactly the edges with the node at either end take its
      status and the time. */
  lemma NodeUpdateStores(
      schema: Schema, db: Db, n: Node, row: NodeRow, assigns: bool, now: int, order: seq<nat>, after: Db)
    requires Inv(schema, db) && n in db.nodes && IsOrder(order, Incident(db, n))
    requires UpdateNode(schema, db, n, row, assigns, now, order) == Some(after)
    ensures var archives := assigns && row.status.Some? && row.status.value in schema.archived
                            && schema.archived[row.status.value];
            && (row.status.Some? ==> row.status.value in schema.archived)
            && after.nodes == db.nodes[n := row.(updatedAt := now)]
            && after.index == db.index && after.edges.Keys == db.edges.Keys
            && forall id :: id in db.edges ==>
                 var was := db.edges[id];
                 after.edges[id] == if archives && (was.key.source == n || was.key.target == n)
                                    then Edge(was.key, row.status, Some(now), was.notes, was.createdAt, now) else was
  {
    if assigns && schema.Archives(row.status) {
      CascadeFrame(schema, db, n, row, now, order);
      StampedExactly(db, n, order, row.status, now);
    } else {
      NoCascade(schema, db, n, row, assigns, now, order);
    }
  }

  lemma StampedExactly(db: Db, n: Node, order: seq<nat>, status: Option<nat>, now: int)
    requires IsOrder(order, Incident(db, n))
    ensures forall id :: id in db.edges ==>
              var was := db.edges[id];
              Stamped(db.edges, order, status, now)[id]
              == if was.key.source == n || was.key.target == n
                 then Edge(was.key, status, Some(now), was.notes, was.createdAt, now) else was
  {
    forall id | id in db.edges
      ensures id in order <==> db.edges[id].key.source == n || db.edges[id].key.target == n
    {
      assert id in order ==> id in Incident(db, n);
    }
  }

  /** A node update is refused iff the row's status is unknown, or archived while an edge at the node has lost an
      end. */
  lemma NodeUpdateRefused(schema: Schema, db: Db, n: Node, row: NodeRow, now: int, order: seq<nat>)
    requires Inv(schema, db) && n in db.nodes && IsOrder(order, Incident(db, n))
    ensures UpdateNode(schema, db, n, row, true, now, order).None?
       <==> row.status.Some?
            && (row.status.value !in schema.archived
                || (schema.archived[row.status.value]
                    && exists id :: id in db.edges && (db.edges[id].key.source == n || db.edges[id].key.target == n)
                                    && (db.edges[id].key.source !in db.nodes || db.edges[id].key.target !in db.nodes)))
  {
    if schema.Archives(row.status) {
      CascadeFrame(schema, db, n, row, now, order);
      assert forall id :: id in Incident(db, n) <==>
               id in db.edges && (db.edges[id].key.source == n || db.edges[id].key.target == n);
      assert forall id :: id in db.edges ==>
               (Endpoints(db, db.edges[id].key).Some? <==>
                db.edges[id].key.source !in db.nodes || db.edges[id].key.target !in db.nodes);
    }
  }

  // ---------- what is audited ----------

  /** A statement on a node writes an entry about it exactly for the five audited tables, with the operation and both
      versions of the row. */
  lemma NodeEntries(schema: Schema, db: Db, n: Node, row: Option<NodeRow>)
    requires n in db.nodes || row.Some?
    ensures var was := if n in db.nodes then Some(NodeData(db.nodes[n])) else None;
            var now := if row.Some? then Some(NodeData(row.value)) else None;
            var action := if n !in db.nodes then Insert else if row.None? then Delete else Update;
            PutNode(db, n, row).log
            == if n.kind in {Entity, Context, Job, Agent, Protocol}
               then db.log + [AuditEntry(NodeRecord(n), action, was, now)] else db.log
  {
  }
}
