/** The relationship graph: node tables, the `relationships` table with its unique
    index, and the audit log, as plain values.

    The functions below say what one SQL statement does to these tables, once all
    the triggers it sets off have run. GraphDatabase.dfy holds the triggers
    themselves, in the form they have in the migration. */
module Graph {
  import opened Common

  // ---------- rows ----------

  datatype Kind = Entity | Context | Log | Job | Agent | File | Protocol

  datatype Node = Node(kind: Kind, id: string)

  /** The eight columns an audit snapshot can restore, and the two bookkeeping ones. */
  datatype NodeRow = NodeRow(
    scopes: seq<nat>, name: string, typeId: nat, status: Option<nat>, statusChangedAt: Option<int>,
    statusReason: Option<string>, tags: seq<string>, sourcePath: Option<string>,
    createdAt: int, updatedAt: int)

  /** The five columns of `relationships_unique_edge`. */
  datatype EdgeKey = EdgeKey(source: Node, target: Node, typ: nat) {
    function Mirror(): EdgeKey {
      EdgeKey(target, source, typ)
    }
  }

  datatype Edge = Edge(
    key: EdgeKey, status: Option<nat>, statusChangedAt: Option<int>, notes: string,
    createdAt: int, updatedAt: int)

  // ---------- audit log ----------

  /** An audited row is named by its table and its id; a node id is unique in its table. */
  datatype Record = NodeRecord(node: Node) | EdgeRecord(id: nat)

  datatype Row = NodeData(node: NodeRow) | EdgeData(edge: Edge)

  datatype Action = Insert | Update | Delete

  datatype AuditEntry = AuditEntry(record: Record, action: Action, oldValues: Option<Row>, newValues: Option<Row>)

  /** `logs` and `files` are the two node tables without an audit trigger. */
  predicate Audited(kind: Kind) {
    kind != Log && kind != File
  }

  // ---------- the database ----------

  /** Reference tables that the triggers consult; they do not change during a run. */
  datatype Schema = Schema(symmetric: map<nat, bool>, archived: map<nat, bool>) {
    predicate Symmetric(typ: nat) {
      typ in symmetric && symmetric[typ]
    }

    predicate Archives(status: Option<nat>) {
      status.Some? && status.value in archived && archived[status.value]
    }

    /** Foreign key to `statuses`; the column may be null. */
    predicate KnownStatus(status: Option<nat>) {
      status.Some? ==> status.value in archived
    }
  }

  datatype Db = Db(
    nodes: map<Node, NodeRow>, edges: map<nat, Edge>, index: map<EdgeKey, nat>,
    log: seq<AuditEntry>, nextId: nat, cascading: bool)

  const EMPTY := Db(map[], map[], map[], [], 0, false)

  datatype Error = SourceMissing | TargetMissing | UniqueViolation | ForeignKeyViolation | StackDepthExceeded

  datatype Outcome = Done(db: Db) | Aborted(error: Error)

  function Endpoints(db: Db, key: EdgeKey): Option<Error> {
    if key.source !in db.nodes then Some(SourceMissing)
    else if key.target !in db.nodes then Some(TargetMissing)
    else None
  }

  // ---------- row changes ----------

  function Entry(record: Record, before: Option<Row>, after: Option<Row>): AuditEntry {
    var action := if before.None? then Insert else if after.None? then Delete else Update;
    AuditEntry(record, action, before, after)
  }

  function EdgeEntry(id: nat, before: Option<Edge>, after: Option<Edge>): AuditEntry {
    Entry(EdgeRecord(id), EdgeDataOf(before), EdgeDataOf(after))
  }

  function EdgeDataOf(e: Option<Edge>): Option<Row> {
    if e.Some? then Some(EdgeData(e.value)) else None
  }

  function NodeDataOf(n: Option<NodeRow>): Option<Row> {
    if n.Some? then Some(NodeData(n.value)) else None
  }

  function PutNode(db: Db, n: Node, row: Option<NodeRow>): Db {
    db.(nodes := if row.Some? then db.nodes[n := row.value] else db.nodes - {n},
        log := if Audited(n.kind)
               then db.log + [Entry(NodeRecord(n), NodeDataOf(Lookup(db.nodes, n)), NodeDataOf(row))]
               else db.log)
  }

  function AddEdge(db: Db, e: Edge): Db {
    db.(edges := db.edges[db.nextId := e], index := db.index[e.key := db.nextId],
        log := db.log + [EdgeEntry(db.nextId, None, Some(e))], nextId := db.nextId + 1)
  }

  function ChangeEdge(db: Db, id: nat, e: Edge): Db
    requires id in db.edges
  {
    db.(edges := db.edges[id := e], log := db.log + [EdgeEntry(id, Some(db.edges[id]), Some(e))])
  }

  function RemoveEdge(db: Db, id: nat): Db
    requires id in db.edges
  {
    db.(edges := db.edges - {id}, index := db.index - {db.edges[id].key},
        log := db.log + [EdgeEntry(id, Some(db.edges[id]), None)])
  }

  // ---------- statements ----------

  function NewEdge(key: EdgeKey, status: Option<nat>, notes: string, now: int): Edge {
    Edge(key, status, None, notes, now, now)
  }

  /** INSERT INTO relationships: a symmetric edge brings its mirror along, without a status. */
  function InsertEdge(schema: Schema, db: Db, key: EdgeKey, status: Option<nat>, notes: string, now: int): Outcome {
    var missing := Endpoints(db, key);
    if missing.Some? then Aborted(missing.value)
    else if key in db.index then Aborted(UniqueViolation)
    else if key.typ !in schema.symmetric || !schema.KnownStatus(status) then Aborted(ForeignKeyViolation)
    else
      Done(WithMirror(schema, db, NewEdge(key, status, notes, now), now))
  }

  function WithMirror(schema: Schema, db: Db, e: Edge, now: int): Db {
    var one := AddEdge(db, e);
    if schema.Symmetric(e.key.typ) && e.key.Mirror() !in one.index
    then AddEdge(one, NewEdge(e.key.Mirror(), None, e.notes, now))
    else one
  }

  /** The row a trigger finds under the five key columns. */
  function Find(db: Db, key: EdgeKey): Option<nat> {
    if key in db.index && db.index[key] in db.edges then Some(db.index[key]) else None
  }

  /** DELETE FROM relationships WHERE id = ...: a symmetric edge takes its mirror along. */
  function DeleteEdge(schema: Schema, db: Db, id: nat): Outcome {
    if id !in db.edges then Done(db)
    else
      var key := db.edges[id].key;
      var one := RemoveEdge(db, id);
      var twin := Find(one, key.Mirror());
      if schema.Symmetric(key.typ) && twin.Some? then Done(RemoveEdge(one, twin.value)) else Done(one)
  }

  /** An UPDATE of one edge. `depth` is what is left of the server's stack: outside a
      cascade the sync trigger updates the mirror, whose trigger updates this edge again. */
  function UpdateEdge(schema: Schema, db: Db, id: nat, e: Edge, now: int, depth: nat): Outcome
    requires id in db.edges
    decreases depth, 0
  {
    var missing := Endpoints(db, e.key);
    if depth == 0 then Aborted(StackDepthExceeded)
    else if missing.Some? then Aborted(missing.value)
    else SyncUpdate(schema, ChangeEdge(db, id, e.(updatedAt := now)), e, now, depth - 1)
  }

  /** The sync trigger after the UPDATE of one edge to e. */
  function SyncUpdate(schema: Schema, db: Db, e: Edge, now: int, depth: nat): Outcome
    decreases depth, 1
  {
    var twin := Find(db, e.key.Mirror());
    if schema.Symmetric(e.key.typ) && !db.cascading && twin.Some?
    then UpdateEdge(schema, db, twin.value, db.edges[twin.value].(notes := e.notes), now, depth)
    else Done(db)
  }

  function Incident(db: Db, n: Node): set<nat> {
    set id | id in db.edges && (db.edges[id].key.source == n || db.edges[id].key.target == n)
  }

  /** What the cascading bulk UPDATE writes to one edge. */
  function Stamp(e: Edge, status: Option<nat>, now: int): Edge {
    e.(status := status, statusChangedAt := Some(now), updatedAt := now)
  }

  /** The order in which the bulk UPDATE visits its rows is the planner's choice. */
  ghost predicate IsOrder(order: seq<nat>, ids: set<nat>) {
    && (forall i :: 0 <= i < |order| ==> order[i] in ids)
    && (forall i, j :: 0 <= i < j < |order| ==> order[i] != order[j])
    && (forall id :: id in ids ==> id in order)
  }

  function Stamped(edges: map<nat, Edge>, order: seq<nat>, status: Option<nat>, now: int): map<nat, Edge> {
    map id | id in edges :: if id in order then Stamp(edges[id], status, now) else edges[id]
  }

  function Cascade(db: Db, order: seq<nat>, status: Option<nat>, now: int): Db
    requires forall i :: 0 <= i < |order| ==> order[i] in db.edges
  {
    db.(edges := Stamped(db.edges, order, status, now),
        log := db.log + seq(|order|, i requires 0 <= i < |order| =>
                 EdgeEntry(order[i], Some(db.edges[order[i]]), Some(Stamp(db.edges[order[i]], status, now)))))
  }

  predicate Dangling(db: Db, ids: set<nat>)
    requires ids <= db.edges.Keys
  {
    exists id :: id in ids && Endpoints(db, db.edges[id].key).Some?
  }

  /** UPDATE of a node row. `assignsStatus` says whether the SET list names status_id, which is
      what fires the cascade trigger; `order` is the visiting order of the cascade. */
  ghost function UpdateNode(
      schema: Schema, db: Db, n: Node, row: NodeRow, assignsStatus: bool, now: int, order: seq<nat>): Option<Db>
    requires IsOrder(order, Incident(db, n))
  {
    if n !in db.nodes then Some(db)
    else if !schema.KnownStatus(row.status) then None
    else
      var one := PutNode(db, n, Some(row.(updatedAt := now)));
      if !assignsStatus || !schema.Archives(row.status) then Some(one)
      else if Dangling(one, Incident(db, n)) then None
      else Some(Cascade(one, order, row.status, now))
  }

  function InsertNode(schema: Schema, db: Db, n: Node, row: NodeRow): Outcome {
    if n in db.nodes then Aborted(UniqueViolation)
    else if !schema.KnownStatus(row.status) then Aborted(ForeignKeyViolation)
    else Done(PutNode(db, n, Some(row)))
  }

  function DeleteNode(db: Db, n: Node): Db {
    if n in db.nodes then PutNode(db, n, None) else db
  }

  // ---------- runs ----------

  datatype Statement =
    | StInsertNode(node: Node, row: NodeRow)
    | StUpdateNode(node: Node, row: NodeRow, assignsStatus: bool, now: int, order: seq<nat>)
    | StDeleteNode(node: Node)
    | StInsertEdge(key: EdgeKey, status: Option<nat>, notes: string, now: int)
    | StUpdateEdge(id: nat, newNotes: Option<string>, newStatus: Option<nat>, now: int, depth: nat)
    | StDeleteEdge(id: nat)

  /** `relationships/update.sql`: a null argument keeps the column. */
  function Patched(e: Edge, notes: Option<string>, status: Option<nat>): Edge {
    e.(notes := if notes.Some? then notes.value else e.notes,
       status := if status.Some? then status else e.status)
  }

  /** An aborted statement leaves no trace. */
  function Settle(db: Db, r: Outcome): Db {
    if r.Done? then r.db else db
  }

  /** One statement in its own transaction. A statement with an impossible visiting order does nothing. */
  ghost function Exec(schema: Schema, db: Db, st: Statement): Db {
    match st
    case StInsertNode(n, row) => Settle(db, InsertNode(schema, db, n, row))
    case StUpdateNode(n, row, assigns, now, order) =>
      if !IsOrder(order, Incident(db, n)) then db
      else
        var r := UpdateNode(schema, db, n, row, assigns, now, order);
        if r.Some? then r.value else db
    case StDeleteNode(n) => DeleteNode(db, n)
    case StInsertEdge(key, status, notes, now) => Settle(db, InsertEdge(schema, db, key, status, notes, now))
    case StUpdateEdge(id, notes, status, now, depth) =>
      if id !in db.edges || !schema.KnownStatus(status) then db
      else Settle(db, UpdateEdge(schema, db, id, Patched(db.edges[id], notes, status), now, depth))
    case StDeleteEdge(id) => Settle(db, DeleteEdge(schema, db, id))
  }

  ghost function Run(schema: Schema, stmts: seq<Statement>): Db {
    if stmts == [] then EMPTY else Exec(schema, Run(schema, stmts[..|stmts| - 1]), stmts[|stmts| - 1])
  }
}
