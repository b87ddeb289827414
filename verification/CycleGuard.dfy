/** Guarded creation of relationships (`execute_create_relationship` with `check_cycle.sql`). */
module CycleGuard {
  import opened Common
  import opened Graph
  import opened GraphInvariants
  import opened GraphDatabase
  import GraphTheorems

  const MAX_GRAPH_HOPS := 6

  /** The new edge and the longest path the query sees. */
  const GUARDED_LENGTH := MAX_GRAPH_HOPS + 1

  /** `sensitive` holds the ids of the cycle-sensitive type names; `active` is the id of that status. */
  datatype Config = Config(schema: Schema, sensitive: set<nat>, active: nat)

  // ---------- the recursive query ----------

  /** Target ids in the query's rows at one depth. The join compares ids only, and every row's edge runs
      from the new edge's source kind to its target kind. */
  function Rows(db: Db, from: Kind, to: Kind, typ: nat, start: string, depth: nat): set<string>
    requires depth > 0
  {
    if depth == 1 then
      set k | k in db.index && k.source == Node(from, start) && k.target.kind == to && k.typ == typ :: k.target.id
    else
      var previous := Rows(db, from, to, typ, start, depth - 1);
      set k | k in db.index && k.source.kind == from && k.source.id in previous && k.target.kind == to && k.typ == typ
        :: k.target.id
  }

  predicate CheckCycle(db: Db, source: Node, target: Node, typ: nat) {
    exists depth | 1 <= depth <= MAX_GRAPH_HOPS ::
      source.id in Rows(db, source.kind, target.kind, typ, target.id, depth)
  }

  // ---------- the executor ----------

  datatype Refusal = SelfReference | WouldCycle | Database(error: Error)

  function Create(
      c: Config, db: Db, source: Node, target: Node, typ: nat, notes: string, now: int): (Db, Option<Refusal>) {
    if source == target then (db, Some(SelfReference))
    else if typ in c.sensitive && CheckCycle(db, source, target, typ) then (db, Some(WouldCycle))
    else
      var r := InsertEdge(c.schema, db, EdgeKey(source, target, typ), Some(c.active), notes, now);
      (Settle(db, r), if r.Aborted? then Some(Database(r.error)) else None)
  }

  method CreateRelationship(c: Config, d: Database, source: Node, target: Node, typ: nat, notes: string, now: int)
    returns (refused: Option<Refusal>)
    requires d.schema == c.schema
    modifies d
    ensures (d.State(), refused) == Create(c, old(d.State()), source, target, typ, notes, now)
  {
    if source == target {
      return Some(SelfReference);
    }
    if typ in c.sensitive {
      var tables := d.Savepoint();
      if CheckCycle(tables, source, target, typ) {
        return Some(WouldCycle);
      }
    }
    var error := d.InsertRelationship(EdgeKey(source, target, typ), Some(c.active), notes, now);
    refused := if error.Some? then Some(Database(error.value)) else None;
  }

  // ---------- walks ----------

  ghost predicate Walk(db: Db, typ: nat, p: seq<Node>) {
    forall i :: 0 <= i < |p| - 1 ==> EdgeKey(p[i], p[i + 1], typ) in db.index
  }

  /** A directed cycle of 1 to `hops` edges of one type, as a closed walk. */
  ghost predicate ShortCycle(db: Db, typ: nat, hops: nat, p: seq<Node>) {
    2 <= |p| <= hops + 1 && p[0] == p[|p| - 1] && Walk(db, typ, p)
  }

  ghost predicate OneKind(p: seq<Node>) {
    forall i :: 0 <= i < |p| ==> p[i].kind == p[0].kind
  }

  lemma {:induction false} WalkIsFound(db: Db, typ: nat, p: seq<Node>)
    requires Walk(db, typ, p) && OneKind(p) && |p| >= 2
    ensures p[|p| - 1].id in Rows(db, p[0].kind, p[0].kind, typ, p[0].id, |p| - 1)
  {
    var k := EdgeKey(p[|p| - 2], p[|p| - 1], typ);
    assert k in db.index;
    if |p| > 2 {
      WalkIsFound(db, typ, p[..|p| - 1]);
    }
  }

  lemma {:induction false} FoundIsWalk(db: Db, kind: Kind, typ: nat, start: string, depth: nat, id: string)
      returns (p: seq<Node>)
    requires depth > 0 && id in Rows(db, kind, kind, typ, start, depth)
    ensures Walk(db, typ, p) && OneKind(p) && |p| == depth + 1
    ensures p[0] == Node(kind, start) && p[depth] == Node(kind, id)
  {
    if depth == 1 {
      p := [Node(kind, start), Node(kind, id)];
    } else {
      var k :| k in db.index && k.source.kind == kind && k.source.id in Rows(db, kind, kind, typ, start, depth - 1)
               && k.target.kind == kind && k.typ == typ && k.target.id == id;
      var q := FoundIsWalk(db, kind, typ, start, depth - 1, k.source.id);
      p := q + [Node(kind, id)];
    }
  }

  /** Between nodes of one kind, the query answers exactly whether the target reaches the
      source by at most MAX_GRAPH_HOPS edges through nodes of that kind. */
  lemma CheckCycleIsReachability(db: Db, source: Node, target: Node, typ: nat)
    requires source.kind == target.kind
    ensures CheckCycle(db, source, target, typ)
       <==> exists p ::
              2 <= |p| <= MAX_GRAPH_HOPS + 1 && p[0] == target && p[|p| - 1] == source && OneKind(p) && Walk(db, typ, p)
  {
    if CheckCycle(db, source, target, typ) {
      var depth :| 1 <= depth <= MAX_GRAPH_HOPS
        && source.id in Rows(db, source.kind, target.kind, typ, target.id, depth);
      var p := FoundIsWalk(db, source.kind, typ, target.id, depth, source.id);
    }
    forall p | 2 <= |p| <= MAX_GRAPH_HOPS + 1 && p[0] == target && p[|p| - 1] == source && OneKind(p)
      && Walk(db, typ, p)
      ensures CheckCycle(db, source, target, typ)
    {
      WalkIsFound(db, typ, p);
    }
  }

  /** For any kinds: the query follows ids along edges from the new edge's source kind to its target kind, whatever
      kind the next edge leaves by. */
  ghost predicate IdChain(db: Db, from: Kind, to: Kind, typ: nat, ids: seq<string>) {
    forall i :: 0 <= i < |ids| - 1 ==> EdgeKey(Node(from, ids[i]), Node(to, ids[i + 1]), typ) in db.index
  }

  lemma {:induction false} ChainIsFound(db: Db, from: Kind, to: Kind, typ: nat, ids: seq<string>)
    requires IdChain(db, from, to, typ, ids) && |ids| >= 2
    ensures ids[|ids| - 1] in Rows(db, from, to, typ, ids[0], |ids| - 1)
  {
    var k := EdgeKey(Node(from, ids[|ids| - 2]), Node(to, ids[|ids| - 2 + 1]), typ);
    assert k in db.index;
    if |ids| > 2 {
      ChainIsFound(db, from, to, typ, ids[..|ids| - 1]);
    }
  }

  lemma {:induction false} FoundIsChain(
      db: Db, from: Kind, to: Kind, typ: nat, start: string, depth: nat, id: string) returns (ids: seq<string>)
    requires depth > 0 && id in Rows(db, from, to, typ, start, depth)
    ensures IdChain(db, from, to, typ, ids) && |ids| == depth + 1 && ids[0] == start && ids[depth] == id
  {
    if depth == 1 {
      ids := [start, id];
    } else {
      var k :| k in db.index && k.source.kind == from && k.source.id in Rows(db, from, to, typ, start, depth - 1)
               && k.target == Node(to, id) && k.typ == typ;
      assert k == EdgeKey(Node(from, k.source.id), Node(to, id), typ);
      var before := FoundIsChain(db, from, to, typ, start, depth - 1, k.source.id);
      ids := before + [id];
    }
  }

  /** Exactly what the query finds, for all kinds of source and target. */
  lemma CheckCycleExactly(db: Db, source: Node, target: Node, typ: nat)
    ensures CheckCycle(db, source, target, typ)
       <==> exists ids :: 2 <= |ids| <= 7 && ids[0] == target.id && ids[|ids| - 1] == source.id
                          && IdChain(db, source.kind, target.kind, typ, ids)
  {
    if CheckCycle(db, source, target, typ) {
      var depth :| 1 <= depth <= MAX_GRAPH_HOPS
                   && source.id in Rows(db, source.kind, target.kind, typ, target.id, depth);
      var ids := FoundIsChain(db, source.kind, target.kind, typ, target.id, depth, source.id);
    }
    forall ids | 2 <= |ids| <= 7 && ids[0] == target.id && ids[|ids| - 1] == source.id
                 && IdChain(db, source.kind, target.kind, typ, ids)
      ensures CheckCycle(db, source, target, typ)
    {
      ChainIsFound(db, source.kind, target.kind, typ, ids);
    }
  }

  // ---------- extracting the path around the new edge ----------

  ghost predicate Uses(p: seq<Node>, i: int, s: Node, t: Node) {
    0 <= i < |p| - 1 && p[i] == s && p[i + 1] == t
  }

  lemma {:induction false} FirstAndLastUse(p: seq<Node>, s: Node, t: Node) returns (first: nat, last: nat)
    requires exists i :: Uses(p, i, s, t)
    ensures Uses(p, first, s, t) && Uses(p, last, s, t) && first <= last
    ensures forall i :: Uses(p, i, s, t) ==> first <= i <= last
  {
    var any :| Uses(p, any, s, t);
    first, last := 0, |p| - 2;
    while !Uses(p, first, s, t)
      invariant first <= any && forall i :: Uses(p, i, s, t) ==> first <= i
      decreases any - first
    {
      first := first + 1;
    }
    while !Uses(p, last, s, t)
      invariant any <= last && forall i :: Uses(p, i, s, t) ==> i <= last
      decreases last
    {
      last := last - 1;
    }
  }

  /** The closed walk p read from its position `from`, round to its position `to`. */
  function Round(p: seq<Node>, from: nat, to: nat): seq<Node>
    requires to < from < |p|
  {
    p[from..] + p[1..to + 1]
  }

  lemma RoundSteps(p: seq<Node>, from: nat, to: nat, i: nat) returns (j: nat)
    requires to < from < |p| && p[0] == p[|p| - 1]
    requires i < |Round(p, from, to)| - 1
    ensures var q := Round(p, from, to); Uses(p, j, q[i], q[i + 1]) && (j >= from || j < to)
  {
    var n := |p| - from;
    j := if i < n - 1 then from + i else i - (n - 1);
  }

  lemma RoundIsWalk(db: Db, typ: nat, p: seq<Node>, from: nat, to: nat)
    requires to < from < |p| && p[0] == p[|p| - 1] && Walk(db, typ, p)
    ensures Walk(db, typ, Round(p, from, to))
  {
    var q := Round(p, from, to);
    forall i | 0 <= i < |q| - 1 ensures EdgeKey(q[i], q[i + 1], typ) in db.index {
      var j := RoundSteps(p, from, to, i);
    }
  }

  /** A closed walk through the edge s-t, cut at its last use of that edge and at its first,
      leaves a walk from t back to s in the graph without that edge. */
  lemma AroundTheEdge(before: Db, after: Db, typ: nat, p: seq<Node>, s: Node, t: Node) returns (q: seq<Node>)
    requires |p| >= 2 && p[0] == p[|p| - 1] && Walk(after, typ, p)
    requires forall a, b :: EdgeKey(a, b, typ) in after.index ==>
             EdgeKey(a, b, typ) in before.index || (a == s && b == t)
    requires exists i :: Uses(p, i, s, t)
    ensures 1 <= |q| < |p| && q[0] == t && q[|q| - 1] == s
    ensures Walk(before, typ, q)
    ensures OneKind(p) ==> OneKind(q)
  {
    var first, last := FirstAndLastUse(p, s, t);
    q := Round(p, last + 1, first);
    forall i | 0 <= i < |q| - 1 ensures EdgeKey(q[i], q[i + 1], typ) in before.index {
      var j := RoundSteps(p, last + 1, first, i);
      assert !Uses(p, j, s, t);
    }
  }

  // ---------- one create ----------

  /** Creating an edge adds its key, and its mirror's key for a symmetric type, and no other. */
  lemma CreateKeys(c: Config, db: Db, source: Node, target: Node, typ: nat, notes: string, now: int)
    ensures var r := Create(c, db, source, target, typ, notes, now);
            var key := EdgeKey(source, target, typ);
            && (r.1.Some? ==> r.0 == db)
            && (r.1.None? ==>
                  r.0.index.Keys == db.index.Keys + {key} + (if c.schema.Symmetric(typ) then {key.Mirror()} else {}))
  {
  }

  /** When each answer is given: a loop is refused first; then, for a cycle-sensitive type alone, what the query
      finds; then what the database refuses. An accepted edge is stored with the active status. */
  lemma CreateAnswers(c: Config, db: Db, source: Node, target: Node, typ: nat, notes: string, now: int)
    requires Inv(c.schema, db)
    ensures var r := Create(c, db, source, target, typ, notes, now);
            var found := source != target && typ in c.sensitive && CheckCycle(db, source, target, typ);
            && (r.1 == Some(SelfReference) <==> source == target)
            && (r.1 == Some(WouldCycle) <==> found)
            && (r.1.None? <==>
                  source != target && !found && source in db.nodes && target in db.nodes
                  && EdgeKey(source, target, typ) !in db.index
                  && typ in c.schema.symmetric && c.active in c.schema.archived)
            && (r.1.Some? ==> r.0 == db)
            && (r.1.None? ==>
                  var key := EdgeKey(source, target, typ);
                  && key in r.0.index && r.0.index[key] in r.0.edges
                  && var e := r.0.edges[r.0.index[key]];
                     e.key == key && e.status == Some(c.active) && e.notes == notes && e.createdAt == now)
  {
    if source != target && !(typ in c.sensitive && CheckCycle(db, source, target, typ)) {
      GraphTheorems.InsertFrame(c.schema, db, EdgeKey(source, target, typ), Some(c.active), notes, now);
    }
  }

  /** Between nodes of one kind the guard refuses exactly when the target reaches the source by one to six edges of the
      type through that kind; other types are never refused for a cycle. */
  lemma WouldCycleIff(c: Config, db: Db, source: Node, target: Node, typ: nat, notes: string, now: int)
    requires Inv(c.schema, db) && source.kind == target.kind
    ensures Create(c, db, source, target, typ, notes, now).1 == Some(WouldCycle)
       <==> source != target && typ in c.sensitive
            && exists p :: 2 <= |p| <= 7 && p[0] == target && p[|p| - 1] == source && OneKind(p) && Walk(db, typ, p)
  {
    CreateAnswers(c, db, source, target, typ, notes, now);
    CheckCycleIsReachability(db, source, target, typ);
  }

  /** The guard does its work inside one kind of node. */
  lemma CreateAddsNoShortCycle(
      c: Config, db: Db, source: Node, target: Node, typ: nat, notes: string, now: int, guarded: nat, p: seq<Node>)
    requires guarded in c.sensitive && !c.schema.Symmetric(guarded)
    requires forall q :: OneKind(q) ==> !ShortCycle(db, guarded, GUARDED_LENGTH, q)
    requires OneKind(p)
    ensures !ShortCycle(Create(c, db, source, target, typ, notes, now).0, guarded, GUARDED_LENGTH, p)
  {
    var r := Create(c, db, source, target, typ, notes, now);
    CreateKeys(c, db, source, target, typ, notes, now);
    if ShortCycle(r.0, guarded, GUARDED_LENGTH, p) {
      if r.1.None? && typ == guarded && exists i :: Uses(p, i, source, target) {
        var q := AroundTheEdge(db, r.0, typ, p, source, target);
        CheckCycleIsReachability(db, source, target, typ);
      } else {
        forall i | 0 <= i < |p| - 1 ensures EdgeKey(p[i], p[i + 1], guarded) in db.index {
          assert !(r.1.None? && typ == guarded) || !Uses(p, i, source, target);
        }
        assert ShortCycle(db, guarded, GUARDED_LENGTH, p);
      }
    }
  }

  // ---------- runs of guarded creates ----------

  /** Edges enter through the executor only; everything else may happen in between. */
  datatype Op = OpCreate(source: Node, target: Node, typ: nat, notes: string, now: int) | OpOther(st: Statement)

  ghost function Perform(c: Config, db: Db, op: Op): Db {
    match op
    case OpCreate(source, target, typ, notes, now) => Create(c, db, source, target, typ, notes, now).0
    case OpOther(st) => if st.StInsertEdge? then db else Exec(c.schema, db, st)
  }

  ghost function RunGuarded(c: Config, ops: seq<Op>): Db {
    if ops == [] then EMPTY else Perform(c, RunGuarded(c, ops[..|ops| - 1]), ops[|ops| - 1])
  }

  lemma {:induction false} UpdateEdgeKeys(schema: Schema, db: Db, id: nat, e: Edge, now: int, depth: nat)
    requires id in db.edges
    ensures Settle(db, UpdateEdge(schema, db, id, e, now, depth)).index == db.index
    decreases depth
  {
    if depth > 0 && Endpoints(db, e.key).None? {
      var one := ChangeEdge(db, id, e.(updatedAt := now));
      var twin := Find(one, e.key.Mirror());
      if twin.Some? {
        UpdateEdgeKeys(schema, one, twin.value, one.edges[twin.value].(notes := e.notes), now, depth - 1);
      }
    }
  }

  lemma OtherStatementsAddNoKeys(schema: Schema, db: Db, st: Statement)
    requires !st.StInsertEdge?
    ensures Exec(schema, db, st).index.Keys <= db.index.Keys
  {
    if st.StUpdateEdge? && st.id in db.edges {
      UpdateEdgeKeys(schema, db, st.id, Patched(db.edges[st.id], st.newNotes, st.newStatus), st.now, st.depth);
    }
  }

  lemma NothingToWalk(typ: nat, p: seq<Node>)
    requires |p| >= 2
    ensures !Walk(EMPTY, typ, p)
  {
    assert EdgeKey(p[0], p[0 + 1], typ) !in EMPTY.index;
  }

  /** Over any run of creates and other statements, a cycle-sensitive type that is not symmetric
      has no directed cycle of at most MAX_GRAPH_HOPS + 1 edges through nodes of one kind. */
  lemma {:induction false} NoShortCycleInOneKind(c: Config, ops: seq<Op>, typ: nat, p: seq<Node>)
    requires typ in c.sensitive && !c.schema.Symmetric(typ) && OneKind(p)
    ensures !ShortCycle(RunGuarded(c, ops), typ, GUARDED_LENGTH, p)
    decreases |ops|
  {
    if ops == [] {
      if 2 <= |p| {
        NothingToWalk(typ, p);
      }
    } else {
      var db, op := RunGuarded(c, ops[..|ops| - 1]), ops[|ops| - 1];
      forall q | OneKind(q) ensures !ShortCycle(db, typ, GUARDED_LENGTH, q) {
        NoShortCycleInOneKind(c, ops[..|ops| - 1], typ, q);
      }
      match op {
        case OpCreate(source, target, t, notes, now) =>
          CreateAddsNoShortCycle(c, db, source, target, t, notes, now, typ, p);
        case OpOther(st) =>
          if !st.StInsertEdge? {
            OtherStatementsAddNoKeys(c.schema, db, st);
            assert ShortCycle(RunGuarded(c, ops), typ, GUARDED_LENGTH, p) ==> ShortCycle(db, typ, GUARDED_LENGTH, p);
          }
      }
    }
  }
}
