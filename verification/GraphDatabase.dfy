/** The triggers of the migration, as methods on the tables they change. Each one runs as
    written there, with its nested statements, and is proved to have exactly the effect
    that Graph.dfy states for the whole statement. */
module GraphDatabase {
  import opened Common
  import opened Graph
  import opened GraphInvariants

  class Database {
    const schema: Schema
    var nodes: map<Node, NodeRow>
    var edges: map<nat, Edge>
    var index: map<EdgeKey, nat>
    var log: seq<AuditEntry>
    var nextId: nat
    var cascading: bool

    ghost function State(): Db
      reads this
    {
      Db(nodes, edges, index, log, nextId, cascading)
    }

    constructor (schema: Schema)
      ensures this.schema == schema && State() == EMPTY
    {
      this.schema := schema;
      nodes, edges, index, log, nextId, cascading := map[], map[], map[], [], 0, false;
    }

    /** ROLLBACK of a failed statement. */
    method Rollback(saved: Db)
      modifies this
      ensures State() == saved
    {
      nodes, edges, index, log, nextId, cascading :=
        saved.nodes, saved.edges, saved.index, saved.log, saved.nextId, saved.cascading;
    }

    method Savepoint() returns (saved: Db)
      ensures saved == State()
    {
      saved := Db(nodes, edges, index, log, nextId, cascading);
    }

    // ---------- trigger functions ----------

    /** `validate_relationship_references` */
    method Validate(key: EdgeKey) returns (error: Option<Error>)
      ensures error == Endpoints(State(), key)
    {
      if key.source !in nodes {
        return Some(SourceMissing);
      }
      if key.target !in nodes {
        return Some(TargetMissing);
      }
      return None;
    }

    /** `audit_trigger_function`, on `relationships` */
    method AuditEdge(id: nat, before: Option<Edge>, after: Option<Edge>)
      modifies this`log
      ensures log == old(log) + [EdgeEntry(id, before, after)]
    {
      var oldValues := if before.Some? then Some(EdgeData(before.value)) else None;
      var newValues := if after.Some? then Some(EdgeData(after.value)) else None;
      var action := if before.None? then Insert else if after.None? then Delete else Update;
      log := log + [AuditEntry(EdgeRecord(id), action, oldValues, newValues)];
    }

    // ---------- INSERT INTO relationships ----------

    /** The rows still to come are the members of the edge/mirror pair that are missing. */
    ghost function MissingPair(key: EdgeKey): set<EdgeKey>
      reads this
    {
      {key, key.Mirror()} - index.Keys
    }

    /** One row goes in, then its triggers: audit, and for a symmetric type an INSERT of
        the mirror ON CONFLICT DO NOTHING, which fires the same triggers again. */
    method InsertRow(e: Edge, now: int)
      requires e == NewEdge(e.key, e.status, e.notes, now)
      requires e.key !in index && Endpoints(State(), e.key).None?
      modifies this`edges, this`index, this`log, this`nextId
      ensures State() == WithMirror(schema, old(State()), e, now)
      decreases MissingPair(e.key)
    {
      ghost var was, missing := State(), MissingPair(e.key);
      assert e.key.Mirror().Mirror() == e.key;
      var id := nextId;
      edges, index, nextId := edges[id := e], index[e.key := id], nextId + 1;
      AuditEdge(id, None, Some(e));
      assert State() == AddEdge(was, e);
      if schema.Symmetric(e.key.typ) {
        var mirror := Edge(e.key.Mirror(), None, None, e.notes, now, now);
        var error := Validate(mirror.key);
        if error.None? && mirror.key !in index {
          assert MissingPair(mirror.key) == missing - {e.key};
          assert e.key in missing;
          InsertRow(mirror, now);
        }
      }
    }

    method InsertRelationship(key: EdgeKey, status: Option<nat>, notes: string, now: int) returns (r: Option<Error>)
      modifies this
      ensures var was := InsertEdge(schema, old(State()), key, status, notes, now);
              && State() == Settle(old(State()), was)
              && r == (if was.Aborted? then Some(was.error) else None)
    {
      r := Validate(key);
      if r.None? {
        if key in index {
          r := Some(UniqueViolation);
        } else if key.typ !in schema.symmetric || !schema.KnownStatus(status) {
          r := Some(ForeignKeyViolation);
        } else {
          InsertRow(Edge(key, status, None, notes, now, now), now);
        }
      }
    }

    // ---------- DELETE FROM relationships ----------

    ghost function PresentPair(key: EdgeKey): set<EdgeKey>
      reads this
    {
      {key, key.Mirror()} * index.Keys
    }

    /** One row goes, then its triggers: audit, and for a symmetric type a DELETE of the mirror. */
    method DeleteRow(id: nat)
      requires id in edges && IndexOk(State())
      modifies this`edges, this`index, this`log
      ensures IndexOk(State()) && DeleteEdge(schema, old(State()), id) == Done(State())
      decreases PresentPair(edges[id].key)
    {
      ghost var was := State();
      var e := edges[id];
      ghost var present := PresentPair(e.key);
      assert e.key.Mirror().Mirror() == e.key;
      edges, index := edges - {id}, index - {e.key};
      AuditEdge(id, Some(e), None);
      assert State() == RemoveEdge(was, id);
      if schema.Symmetric(e.key.typ) {
        if e.key.Mirror() in index {
          assert PresentPair(e.key.Mirror()) == present - {e.key};
          assert e.key in present;
          DeleteRow(index[e.key.Mirror()]);
        }
      }
    }

    method DeleteRelationship(id: nat)
      requires IndexOk(State())
      modifies this
      ensures IndexOk(State()) && DeleteEdge(schema, old(State()), id) == Done(State())
    {
      if id in edges {
        DeleteRow(id);
      }
    }

    // ---------- UPDATE relationships ----------

    /** One row changes, then its triggers. Under the cascade flag the sync trigger returns at
        once; otherwise it updates the mirror, one level deeper on the stack. */
    method UpdateRow(id: nat, e: Edge, now: int, depth: nat) returns (error: Option<Error>)
      requires id in edges
      modifies this`edges, this`log
      ensures var was := UpdateEdge(schema, old(State()), id, e, now, depth);
              && (was.Done? <==> error.None?)
              && (was.Done? ==> State() == was.db)
              && (was.Aborted? ==> error == Some(was.error))
      decreases depth, 0
    {
      if depth == 0 {
        return Some(StackDepthExceeded);
      }
      error := Validate(e.key);
      if error.Some? {
        return;
      }
      var before := edges[id];
      var row := e.(updatedAt := now);
      edges := edges[id := row];
      AuditEdge(id, Some(before), Some(row));
      error := SyncOnUpdate(row, now, depth - 1);
    }

    /** `sync_symmetric_relationships` on UPDATE: nothing under the cascade flag, otherwise an UPDATE of the mirror. */
    method SyncOnUpdate(e: Edge, now: int, depth: nat) returns (error: Option<Error>)
      modifies this`edges, this`log
      ensures cascading ==> error.None? && State() == old(State())
      ensures var was := SyncUpdate(schema, old(State()), e, now, depth);
              && (was.Done? <==> error.None?)
              && (was.Done? ==> State() == was.db)
              && (was.Aborted? ==> error == Some(was.error))
      decreases depth, 1
    {
      if schema.Symmetric(e.key.typ) {
        if cascading {
          return None;
        }
        var mirror := e.key.Mirror();
        if mirror in index && index[mirror] in edges {
          var twin := index[mirror];
          error := UpdateRow(twin, edges[twin].(notes := e.notes), now, depth);
          return;
        }
      }
      return None;
    }

    /** `relationships/update.sql`; `found` is whether a row matched. */
    method UpdateRelationship(id: nat, notes: Option<string>, status: Option<nat>, now: int, depth: nat)
      returns (found: bool, error: Option<Error>)
      modifies this
      ensures State() == Exec(schema, old(State()), StUpdateEdge(id, notes, status, now, depth))
      ensures found <==> id in old(edges)
      ensures found && schema.KnownStatus(status) ==>
        var was := UpdateEdge(schema, old(State()), id, Patched(old(edges)[id], notes, status), now, depth);
        error == if was.Aborted? then Some(was.error) else None
    {
      if id !in edges {
        return false, None;
      }
      if !schema.KnownStatus(status) {
        return true, Some(ForeignKeyViolation);
      }
      var saved := Savepoint();
      found := true;
      error := UpdateRow(id, Patched(edges[id], notes, status), now, depth);
      if error.Some? {
        Rollback(saved);
      }
    }

    // ---------- UPDATE of a node row ----------

    /** The audit trigger of the node tables; logs and files have none. */
    method AuditNode(n: Node, before: Option<NodeRow>, after: Option<NodeRow>)
      modifies this`log
      ensures log == if Audited(n.kind) then old(log) + [Entry(NodeRecord(n), NodeDataOf(before), NodeDataOf(after))]
                     else old(log)
    {
      if n.kind == Log || n.kind == File {
        return;
      }
      var oldValues := if before.Some? then Some(NodeData(before.value)) else None;
      var newValues := if after.Some? then Some(NodeData(after.value)) else None;
      var action := if before.None? then Insert else if after.None? then Delete else Update;
      log := log + [AuditEntry(NodeRecord(n), action, oldValues, newValues)];
    }

    /** `cascade_status_to_relationships`: sets the flag, bulk-updates the incident edges,
        lets their AFTER triggers run once all rows are written, and clears the flag. */
    method CascadeStatus(n: Node, status: Option<nat>, now: int) returns (error: Option<Error>, ghost order: seq<nat>)
      requires !cascading
      modifies this`edges, this`log, this`cascading
      ensures error.Some? <==> Dangling(old(State()), Incident(old(State()), n))
      ensures error.None? ==> IsOrder(order, Incident(old(State()), n))
                              && State() == Cascade(old(State()), order, status, now)
    {
      ghost var was := State();
      cascading := true;
      var events: seq<Event>;
      error, events, order := WriteIncident(n, status, now);
      if error.Some? {
        return;
      }
      var next := 0;
      while next < |events|
        invariant 0 <= next <= |events| == |order| && cascading
        invariant edges == Stamped(was.edges, order, status, now)
        invariant log == was.log + Cascade(was, order, status, now).log[|was.log|..][..next]
      {
        AuditEdge(events[next].id, Some(events[next].before), Some(events[next].after));
        var none := SyncOnUpdate(events[next].after, now, 0);
        next := next + 1;
      }
      cascading := false;
      ghost var target := Cascade(was, order, status, now);
      assert target.log == was.log + target.log[|was.log|..];
      assert target.log[|was.log|..][..next] == target.log[|was.log|..];
    }

    /** The rows of the bulk UPDATE, each after its BEFORE trigger, in an order of the planner's choosing. */
    method WriteIncident(n: Node, status: Option<nat>, now: int)
      returns (error: Option<Error>, events: seq<Event>, ghost order: seq<nat>)
      modifies this`edges
      ensures error.Some? <==> Dangling(old(State()), Incident(old(State()), n))
      ensures error.None? ==>
        && IsOrder(order, Incident(old(State()), n))
        && edges == Stamped(old(edges), order, status, now)
        && Events(old(edges), order, events, status, now)
    {
      ghost var was := State();
      var pending := set id | id in edges && (edges[id].key.source == n || edges[id].key.target == n);
      error, events, order := None, [], [];
      assert edges == Stamped(was.edges, order, status, now);
      while pending != {}
        invariant Visiting(was, n, pending, order)
        invariant Events(was.edges, order, events, status, now)
        invariant edges == Stamped(was.edges, order, status, now) && error.None?
        decreases pending
      {
        var id :| id in pending;
        error := Validate(edges[id].key);
        assert error == Endpoints(was, was.edges[id].key);
        if error.Some? {
          return;
        }
        var row := Stamp(edges[id], status, now);
        assert edges[id] == was.edges[id];
        VisitNext(was, n, pending, order, id);
        EventsNext(was.edges, order, events, id, status, now);
        CascadeStep(was, order, id, status, now);
        events := events + [Event(id, edges[id], row)];
        edges := edges[id := row];
        pending := pending - {id};
        order := order + [id];
      }
      VisitDone(was, n, order);
    }

    /** UPDATE of one node row: the row, its audit entry, and the cascade if the SET list names status_id. */
    method UpdateNodeRow(n: Node, row: NodeRow, assignsStatus: bool, now: int) returns (ok: bool, ghost order: seq<nat>)
      requires !cascading
      modifies this
      ensures IsOrder(order, Incident(old(State()), n))
      ensures var was := UpdateNode(schema, old(State()), n, row, assignsStatus, now, order);
              && (ok <==> was.Some?)
              && State() == (if was.Some? then was.value else old(State()))
    {
      ghost var was := State();
      order := SomeOrder(Incident(was, n));
      if n !in nodes {
        return true, order;
      }
      if !schema.KnownStatus(row.status) {
        return false, order;
      }
      var saved := Savepoint();
      var stored := row.(updatedAt := now);
      var before := nodes[n];
      nodes := nodes[n := stored];
      AuditNode(n, Some(before), Some(stored));
      ok := true;
      ghost var one := State();
      assert one == PutNode(was, n, Some(stored));
      assert Incident(one, n) == Incident(was, n);
      if assignsStatus && schema.Archives(row.status) {
        ghost var visited;
        var error;
        error, visited := CascadeStatus(n, row.status, now);
        if error.Some? {
          Rollback(saved);
          ok := false;
        } else {
          order := visited;
        }
      }
    }

    method InsertNodeRow(n: Node, row: NodeRow) returns (error: Option<Error>)
      modifies this`nodes, this`log
      ensures var was := InsertNode(schema, old(State()), n, row);
              && State() == Settle(old(State()), was)
              && error == (if was.Aborted? then Some(was.error) else None)
    {
      if n in nodes {
        return Some(UniqueViolation);
      }
      if !schema.KnownStatus(row.status) {
        return Some(ForeignKeyViolation);
      }
      nodes := nodes[n := row];
      AuditNode(n, None, Some(row));
      return None;
    }

    method DeleteNodeRow(n: Node)
      modifies this`nodes, this`log
      ensures State() == DeleteNode(old(State()), n)
    {
      if n in nodes {
        var before := nodes[n];
        nodes := nodes - {n};
        AuditNode(n, Some(before), None);
      }
    }
  }

  /** An AFTER ROW event waiting for the end of its statement. */
  datatype Event = Event(id: nat, before: Edge, after: Edge)

  ghost predicate Events(edges: map<nat, Edge>, order: seq<nat>, events: seq<Event>, status: Option<nat>, now: int) {
    && |events| == |order|
    && forall i :: 0 <= i < |order| ==>
         order[i] in edges && events[i] == Event(order[i], edges[order[i]], Stamp(edges[order[i]], status, now))
  }

  lemma EventsNext(edges: map<nat, Edge>, order: seq<nat>, events: seq<Event>, id: nat, status: Option<nat>, now: int)
    requires Events(edges, order, events, status, now) && id in edges
    ensures Events(edges, order + [id], events + [Event(id, edges[id], Stamp(edges[id], status, now))], status, now)
  {
  }

  /** Midway through the bulk UPDATE: the incident rows are those visited, which passed validation, and those
      to come. */
  ghost predicate Visiting(was: Db, n: Node, pending: set<nat>, order: seq<nat>) {
    && (forall id :: id in Incident(was, n) <==> id in pending || id in order)
    && (forall id :: id in pending ==> id !in order)
    && (forall i, j :: 0 <= i < j < |order| ==> order[i] != order[j])
    && (forall id :: id in order ==> id in was.edges && Endpoints(was, was.edges[id].key).None?)
  }

  lemma VisitNext(was: Db, n: Node, pending: set<nat>, order: seq<nat>, id: nat)
    requires Visiting(was, n, pending, order) && id in pending
    requires id in was.edges && Endpoints(was, was.edges[id].key).None?
    ensures Visiting(was, n, pending - {id}, order + [id])
  {
    assert id !in order;
    assert forall x :: x in order + [id] <==> x in order || x == id;
  }

  lemma VisitDone(was: Db, n: Node, order: seq<nat>)
    requires Visiting(was, n, {}, order)
    ensures IsOrder(order, Incident(was, n)) && !Dangling(was, Incident(was, n))
  {
    assert forall i :: 0 <= i < |order| ==> order[i] in order;
  }

  /** Any finite set of rows can be visited in some order. */
  ghost function SomeOrder(ids: set<nat>): (order: seq<nat>)
    ensures IsOrder(order, ids)
  {
    if ids == {} then []
    else
      var id :| id in ids;
      SomeOrder(ids - {id}) + [id]
  }
}
