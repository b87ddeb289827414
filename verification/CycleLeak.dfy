/** Where the cycle guard stops: the recursive query only follows edges that join the same two kinds of
    node as the new edge, so a cycle through nodes of different kinds gets past it. These lemmas say exactly
    when that can happen, and that two creates racing between check and write also get past it. */
module CycleLeak {
  import opened Common
  import opened Graph
  import opened CycleGuard

  /** Edges of the type are only ever requested between these pairs of kinds. */
  ghost predicate Permitted(ops: seq<Op>, typ: nat, pairs: set<(Kind, Kind)>) {
    forall i :: 0 <= i < |ops| && ops[i].OpCreate? && ops[i].typ == typ ==>
      (ops[i].source.kind, ops[i].target.kind) in pairs
  }

  /** A loop of permitted pairs, short enough to matter, whose last step changes kind. */
  ghost predicate KindLoop(pairs: set<(Kind, Kind)>, k: seq<Kind>) {
    && 2 <= |k| <= GUARDED_LENGTH
    && (forall i :: 0 <= i < |k| - 1 ==> (k[i], k[i + 1]) in pairs)
    && (k[|k| - 1], k[0]) in pairs && k[|k| - 1] != k[0]
  }

  ghost predicate Guards(c: Config, typ: nat, pairs: set<(Kind, Kind)>) {
    forall ops :: Permitted(ops, typ, pairs) ==> NoShortCycle(RunGuarded(c, ops), typ)
  }

  ghost predicate NoShortCycle(db: Db, typ: nat) {
    forall p :: !ShortCycle(db, typ, GUARDED_LENGTH, p)
  }

  // ---------- no loop of kinds: no short cycle at all ----------

  lemma {:induction false} EdgesArePermitted(c: Config, ops: seq<Op>, typ: nat, pairs: set<(Kind, Kind)>, key: EdgeKey)
    requires !c.schema.Symmetric(typ) && Permitted(ops, typ, pairs)
    requires key in RunGuarded(c, ops).index && key.typ == typ
    ensures (key.source.kind, key.target.kind) in pairs
  {
    var before, op := ops[..|ops| - 1], ops[|ops| - 1];
    var db := RunGuarded(c, before);
    if op.OpCreate? {
      CreateKeys(c, db, op.source, op.target, op.typ, op.notes, op.now);
    } else if !op.st.StInsertEdge? {
      OtherStatementsAddNoKeys(c.schema, db, op.st);
    }
    if key in db.index {
      EdgesArePermitted(c, before, typ, pairs, key);
    }
  }

  lemma MixedCycleGivesKindLoop(c: Config, ops: seq<Op>, typ: nat, pairs: set<(Kind, Kind)>, p: seq<Node>)
      returns (k: seq<Kind>)
    requires !c.schema.Symmetric(typ) && Permitted(ops, typ, pairs)
    requires ShortCycle(RunGuarded(c, ops), typ, GUARDED_LENGTH, p) && !OneKind(p)
    ensures KindLoop(pairs, k)
  {
    var db := RunGuarded(c, ops);
    var turn := KindChanges(p);
    var q := Round(p, turn + 1, turn);
    RoundIsWalk(db, typ, p, turn + 1, turn);
    k := seq(|q|, i requires 0 <= i < |q| => q[i].kind);
    forall i | 0 <= i < |k| - 1 ensures (k[i], k[i + 1]) in pairs {
      EdgesArePermitted(c, ops, typ, pairs, EdgeKey(q[i], q[i + 1], typ));
    }
    EdgesArePermitted(c, ops, typ, pairs, EdgeKey(p[turn], p[turn + 1], typ));
  }

  lemma KindChanges(p: seq<Node>) returns (turn: nat)
    requires |p| >= 2 && !OneKind(p)
    ensures turn < |p| - 1 && p[turn].kind != p[turn + 1].kind
  {
    turn := 0;
    while turn < |p| - 1 && p[turn].kind == p[turn + 1].kind
      invariant turn <= |p| - 1
      invariant forall i :: 0 <= i <= turn ==> p[i].kind == p[0].kind
    {
      turn := turn + 1;
    }
  }

  // ---------- a loop of kinds: a run that closes a short cycle ----------

  function Id(i: nat): string {
    seq(i, _ => 'x')
  }

  function NodeAt(k: seq<Kind>, i: nat): Node
    requires i < |k|
  {
    Node(k[i], Id(i))
  }

  const ROW := NodeRow([], "", 0, None, None, None, [], None, 0, 0)

  function Nodes(k: seq<Kind>, m: nat): seq<Op>
    requires m <= |k|
  {
    if m == 0 then [] else Nodes(k, m - 1) + [OpOther(StInsertNode(NodeAt(k, m - 1), ROW))]
  }

  /** The nodes, and the first m edges of the loop. */
  function Path(k: seq<Kind>, typ: nat, m: nat): seq<Op>
    requires m < |k|
  {
    if m == 0 then Nodes(k, |k|)
    else Path(k, typ, m - 1) + [OpCreate(NodeAt(k, m - 1), NodeAt(k, m), typ, "", 0)]
  }

  lemma RunOneMore(c: Config, ops: seq<Op>, op: Op)
    ensures RunGuarded(c, ops + [op]) == Perform(c, RunGuarded(c, ops), op)
  {
    assert (ops + [op])[..|ops|] == ops;
  }

  /** The first m nodes and no edge. */
  ghost predicate OnlyNodes(k: seq<Kind>, m: nat, db: Db)
    requires m <= |k|
  {
    db.index == map[] && forall n :: n in db.nodes <==> exists i :: 0 <= i < m && n == NodeAt(k, i)
  }

  lemma NextNode(c: Config, k: seq<Kind>, m: nat, db: Db)
    requires m < |k| && OnlyNodes(k, m, db)
    ensures OnlyNodes(k, m + 1, Perform(c, db, OpOther(StInsertNode(NodeAt(k, m), ROW))))
  {
    var n, after := NodeAt(k, m), Perform(c, db, OpOther(StInsertNode(NodeAt(k, m), ROW)));
    forall i | 0 <= i < m ensures NodeAt(k, i) != n {
      IdsDiffer(i, m);
    }
    assert n !in db.nodes;
    assert after.nodes == db.nodes[n := ROW] && after.index == db.index;
  }

  lemma {:induction false} NodesBuilt(c: Config, k: seq<Kind>, m: nat)
    requires m <= |k|
    ensures OnlyNodes(k, m, RunGuarded(c, Nodes(k, m)))
  {
    if m > 0 {
      NodesBuilt(c, k, m - 1);
      RunOneMore(c, Nodes(k, m - 1), OpOther(StInsertNode(NodeAt(k, m - 1), ROW)));
      NextNode(c, k, m - 1, RunGuarded(c, Nodes(k, m - 1)));
    }
  }

  ghost predicate OnPath(k: seq<Kind>, typ: nat, m: nat, key: EdgeKey)
    requires m < |k|
  {
    exists i :: 0 <= i < m && key == EdgeKey(NodeAt(k, i), NodeAt(k, i + 1), typ)
  }

  /** The query finds nothing when no edge leaves the target under the new edge's source kind. */
  lemma {:induction false} NothingFound(db: Db, from: Kind, to: Kind, typ: nat, start: string, depth: nat)
    requires depth > 0
    requires forall key :: key in db.index ==> key.source != Node(from, start)
    ensures Rows(db, from, to, typ, start, depth) == {}
  {
    if depth > 1 {
      NothingFound(db, from, to, typ, start, depth - 1);
    }
  }

  lemma Accepted(c: Config, db: Db, source: Node, target: Node, typ: nat)
    requires typ in c.schema.symmetric && !c.schema.symmetric[typ] && c.active in c.schema.archived
    requires source in db.nodes && target in db.nodes && source != target && EdgeKey(source, target, typ) !in db.index
    requires forall key :: key in db.index ==> key.source != Node(source.kind, target.id)
    ensures var r := Create(c, db, source, target, typ, "", 0);
            r.1.None? && r.0.index.Keys == db.index.Keys + {EdgeKey(source, target, typ)} && r.0.nodes == db.nodes
  {
    forall depth | 1 <= depth <= MAX_GRAPH_HOPS
      ensures source.id !in Rows(db, source.kind, target.kind, typ, target.id, depth)
    {
      NothingFound(db, source.kind, target.kind, typ, target.id, depth);
    }
  }

  lemma IdsDiffer(i: nat, j: nat)
    ensures Id(i) == Id(j) <==> i == j
  {
    assert |Id(i)| == i && |Id(j)| == j;
  }

  /** The state after the nodes and the first m edges. */
  ghost predicate Built(k: seq<Kind>, typ: nat, m: nat, db: Db)
    requires m < |k|
  {
    && (forall key :: key in db.index <==> OnPath(k, typ, m, key))
    && (forall i :: 0 <= i < |k| ==> NodeAt(k, i) in db.nodes)
  }

  /** From the built path the edge from its end to a node it does not leave under the same kind is accepted. */
  lemma NextAccepted(c: Config, k: seq<Kind>, typ: nat, m: nat, db: Db, to: nat)
    requires m < |k| && to < |k| && to != m && Built(k, typ, m, db)
    requires typ in c.schema.symmetric && !c.schema.symmetric[typ] && c.active in c.schema.archived
    requires to < m ==> k[m] != k[to]
    ensures var r := Create(c, db, NodeAt(k, m), NodeAt(k, to), typ, "", 0);
            r.1.None? && r.0.nodes == db.nodes
              && r.0.index.Keys == db.index.Keys + {EdgeKey(NodeAt(k, m), NodeAt(k, to), typ)}
  {
    IdsDiffer(m, to);
    forall key | key in db.index
      ensures key.source != Node(k[m], Id(to)) && key.source != NodeAt(k, m)
    {
      var i :| 0 <= i < m && key == EdgeKey(NodeAt(k, i), NodeAt(k, i + 1), typ);
      IdsDiffer(i, to);
      IdsDiffer(i, m);
    }
    Accepted(c, db, NodeAt(k, m), NodeAt(k, to), typ);
  }

  lemma {:induction false} PathBuilt(c: Config, k: seq<Kind>, typ: nat, m: nat)
    requires m < |k|
    requires typ in c.schema.symmetric && !c.schema.symmetric[typ] && c.active in c.schema.archived
    ensures Built(k, typ, m, RunGuarded(c, Path(k, typ, m)))
  {
    if m == 0 {
      NodesBuilt(c, k, |k|);
      EmptyPath(k, typ, RunGuarded(c, Nodes(k, |k|)));
    } else {
      PathBuilt(c, k, typ, m - 1);
      RunOneMore(c, Path(k, typ, m - 1), OpCreate(NodeAt(k, m - 1), NodeAt(k, m), typ, "", 0));
      NextEdge(c, k, typ, m, RunGuarded(c, Path(k, typ, m - 1)));
    }
  }

  lemma EmptyPath(k: seq<Kind>, typ: nat, db: Db)
    requires |k| > 0 && OnlyNodes(k, |k|, db)
    ensures Built(k, typ, 0, db)
  {
  }

  lemma NextEdge(c: Config, k: seq<Kind>, typ: nat, m: nat, db: Db)
    requires 0 < m < |k| && Built(k, typ, m - 1, db)
    requires typ in c.schema.symmetric && !c.schema.symmetric[typ] && c.active in c.schema.archived
    ensures Built(k, typ, m, Perform(c, db, OpCreate(NodeAt(k, m - 1), NodeAt(k, m), typ, "", 0)))
  {
    NextAccepted(c, k, typ, m - 1, db, m);
    LongerPath(k, typ, m, db, Create(c, db, NodeAt(k, m - 1), NodeAt(k, m), typ, "", 0).0);
  }

  lemma LongerPath(k: seq<Kind>, typ: nat, m: nat, db: Db, after: Db)
    requires 0 < m < |k| && Built(k, typ, m - 1, db) && after.nodes == db.nodes
    requires after.index.Keys == db.index.Keys + {EdgeKey(NodeAt(k, m - 1), NodeAt(k, m), typ)}
    ensures Built(k, typ, m, after)
  {
    forall key ensures key in after.index <==> OnPath(k, typ, m, key) {
      assert key in after.index <==> OnPath(k, typ, m - 1, key) || key == EdgeKey(NodeAt(k, m - 1), NodeAt(k, m), typ);
    }
  }

  /** The whole loop: its closing edge changes kind, so the query does not see the path. */
  lemma KindLoopGivesCycle(c: Config, k: seq<Kind>, typ: nat, pairs: set<(Kind, Kind)>)
      returns (ops: seq<Op>, p: seq<Node>)
    requires typ in c.schema.symmetric && !c.schema.symmetric[typ] && c.active in c.schema.archived
    requires KindLoop(pairs, k)
    ensures Permitted(ops, typ, pairs) && ShortCycle(RunGuarded(c, ops), typ, GUARDED_LENGTH, p)
  {
    var n := |k| - 1;
    var path := Path(k, typ, n);
    PathBuilt(c, k, typ, n);
    PathPermitted(k, typ, n, pairs);
    ops := path + [OpCreate(NodeAt(k, n), NodeAt(k, 0), typ, "", 0)];
    RunOneMore(c, path, OpCreate(NodeAt(k, n), NodeAt(k, 0), typ, "", 0));
    NextAccepted(c, k, typ, n, RunGuarded(c, path), 0);
    p := ClosedPath(k);
    PathCloses(k, typ, RunGuarded(c, path), RunGuarded(c, ops));
  }

  /** The loop's nodes, and back to the first. */
  function ClosedPath(k: seq<Kind>): seq<Node>
    requires |k| > 0
  {
    seq(|k| + 1, i requires 0 <= i < |k| + 1 => NodeAt(k, if i < |k| then i else 0))
  }

  lemma PathCloses(k: seq<Kind>, typ: nat, db: Db, after: Db)
    requires 2 <= |k| <= GUARDED_LENGTH && Built(k, typ, |k| - 1, db)
    requires after.index.Keys == db.index.Keys + {EdgeKey(NodeAt(k, |k| - 1), NodeAt(k, 0), typ)}
    ensures ShortCycle(after, typ, GUARDED_LENGTH, ClosedPath(k))
  {
    var n, p := |k| - 1, ClosedPath(k);
    forall i | 0 <= i < |p| - 1 ensures EdgeKey(p[i], p[i + 1], typ) in after.index.Keys {
      assert i < n ==> OnPath(k, typ, n, EdgeKey(p[i], p[i + 1], typ));
    }
  }

  lemma {:induction false} PathPermitted(k: seq<Kind>, typ: nat, m: nat, pairs: set<(Kind, Kind)>)
    requires m < |k| && forall i :: 0 <= i < |k| - 1 ==> (k[i], k[i + 1]) in pairs
    ensures Permitted(Path(k, typ, m), typ, pairs)
  {
    if m > 0 {
      PathPermitted(k, typ, m - 1, pairs);
    } else {
      NodesPermitted(k, |k|);
    }
  }

  lemma {:induction false} NodesPermitted(k: seq<Kind>, m: nat)
    requires m <= |k|
    ensures forall i :: 0 <= i < |Nodes(k, m)| ==> Nodes(k, m)[i].OpOther?
  {
    if m > 0 {
      NodesPermitted(k, m - 1);
    }
  }

  /** The guard keeps a type free of short cycles, whatever is requested between the permitted pairs
      of kinds, exactly when those pairs form no short loop that changes kind. */
  lemma GuardSoundIffNoKindLoop(c: Config, typ: nat, pairs: set<(Kind, Kind)>)
    requires typ in c.sensitive && typ in c.schema.symmetric && !c.schema.symmetric[typ]
             && c.active in c.schema.archived
    ensures Guards(c, typ, pairs) <==> !exists k :: KindLoop(pairs, k)
  {
    if k :| KindLoop(pairs, k) {
      var ops, p := KindLoopGivesCycle(c, k, typ, pairs);
      assert !Guards(c, typ, pairs);
    } else {
      forall ops | Permitted(ops, typ, pairs)
        ensures NoShortCycle(RunGuarded(c, ops), typ)
      {
        forall p ensures !ShortCycle(RunGuarded(c, ops), typ, GUARDED_LENGTH, p) {
          if OneKind(p) {
            NoShortCycleInOneKind(c, ops, typ, p);
          } else if ShortCycle(RunGuarded(c, ops), typ, GUARDED_LENGTH, p) {
            var k := MixedCycleGivesKindLoop(c, ops, typ, pairs, p);
          }
        }
      }
    }
  }

  /** Check and write are separate statements: when two opposite creates both check before
      either writes, both are accepted and close a cycle of two edges. */
  lemma RacingCreatesCloseCycle(c: Config, db: Db, a: Node, b: Node, typ: nat)
    requires typ in c.schema.symmetric && !c.schema.symmetric[typ] && c.active in c.schema.archived
    requires a in db.nodes && b in db.nodes && a != b
    requires forall key :: key in db.index ==> key.source.id != a.id && key.source.id != b.id
    ensures !CheckCycle(db, a, b, typ) && !CheckCycle(db, b, a, typ)
    ensures var first := InsertEdge(c.schema, db, EdgeKey(a, b, typ), Some(c.active), "", 0);
            first.Done?
            && var second := InsertEdge(c.schema, first.db, EdgeKey(b, a, typ), Some(c.active), "", 0);
               second.Done? && ShortCycle(second.db, typ, 2, [a, b, a])
  {
    forall depth | 1 <= depth <= MAX_GRAPH_HOPS
      ensures Rows(db, a.kind, b.kind, typ, b.id, depth) == {} && Rows(db, b.kind, a.kind, typ, a.id, depth) == {}
    {
      NothingFound(db, a.kind, b.kind, typ, b.id, depth);
      NothingFound(db, b.kind, a.kind, typ, a.id, depth);
    }
  }
}
