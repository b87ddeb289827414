/** The two recursive searches over the relationships taken as undirected: `graph/shortest_path.sql` and
    `graph/neighbors.sql`. They enumerate simple paths; the results below speak about all walks. */
module GraphSearch {
  import opened Common
  import opened Graph
  import Visibility

  // ---------- walks ----------

  ghost predicate Linked(db: Db, a: Node, b: Node) {
    exists k :: k in db.index && ((k.source == a && k.target == b) || (k.source == b && k.target == a))
  }

  ghost predicate Walk(db: Db, p: seq<Node>) {
    |p| >= 1 && forall i :: 0 <= i < |p| - 1 ==> Linked(db, p[i], p[i + 1])
  }

  ghost predicate Simple(p: seq<Node>) {
    forall i, j :: 0 <= i < j < |p| ==> p[i] != p[j]
  }

  function Last(p: seq<Node>): Node
    requires p != []
  {
    p[|p| - 1]
  }

  ghost predicate Joins(db: Db, p: seq<Node>, a: Node, b: Node) {
    Walk(db, p) && p[0] == a && Last(p) == b
  }

  lemma {:induction false} Shorten(db: Db, q: seq<Node>, a: Node, b: Node) returns (p: seq<Node>)
    requires Joins(db, q, a, b)
    ensures Joins(db, p, a, b) && Simple(p) && |p| <= |q|
    decreases |q|
  {
    if Simple(q) {
      p := q;
    } else {
      var i, j :| 0 <= i < j < |q| && q[i] == q[j];
      CutLoop(db, q, i, j);
      p := Shorten(db, q[..i] + q[j..], a, b);
    }
  }

  lemma CutLoop(db: Db, q: seq<Node>, i: nat, j: nat)
    requires Walk(db, q) && i < j < |q| && q[i] == q[j]
    ensures var p := q[..i] + q[j..]; Walk(db, p) && p[0] == q[0] && Last(p) == Last(q)
  {
    var p := q[..i] + q[j..];
    forall k | 0 <= k < |p| - 1 ensures Linked(db, p[k], p[k + 1]) {
      if k < i - 1 {
        assert p[k] == q[k] && p[k + 1] == q[k + 1];
      } else if k == i - 1 {
        assert p[k] == q[k] && p[k + 1] == q[j] == q[i];
      } else {
        assert p[k] == q[k - i + j] && p[k + 1] == q[k - i + j + 1];
      }
    }
  }

  // ---------- the recursive query ----------

  /** The join: a path grows along an edge, in either direction, to a node that it does not hold yet. */
  ghost predicate Extends(db: Db, q: seq<Node>, p: seq<Node>) {
    q != [] && p != [] && p == q + [Last(p)] && Last(p) !in q && Linked(db, Last(q), Last(p))
  }

  /** A path among the query's rows at one depth. */
  ghost predicate IsRow(db: Db, start: Node, depth: nat, p: seq<Node>) {
    if depth == 0 then p == [start]
    else |p| >= 2 && IsRow(db, start, depth - 1, p[..|p| - 1]) && Extends(db, p[..|p| - 1], p)
  }

  function KindName(kind: Kind): (name: string)
    ensures ':' !in name
  {
    match kind
    case Entity => "entity"
    case Context => "context"
    case Log => "log"
    case Job => "job"
    case Agent => "agent"
    case File => "file"
    case Protocol => "protocol"
  }

  function Encoded(n: Node): string {
    Visibility.Encoded(Visibility.PathNode(KindName(n.kind), n.id))
  }

  /** The query compares encoded nodes; that is the same as comparing nodes. */
  lemma EncodedTellsApart(a: Node, b: Node)
    ensures Encoded(a) == Encoded(b) <==> a == b
  {
    var x, y := KindName(a.kind), KindName(b.kind);
    Visibility.FirstColon(x, a.id);
    Visibility.FirstColon(y, b.id);
    if Encoded(a) == Encoded(b) {
      assert Encoded(a)[..|x|] == x && Encoded(b)[..|y|] == y;
      assert Encoded(a)[|x| + 1..] == a.id && Encoded(b)[|y| + 1..] == b.id;
    }
  }

  ghost predicate SimpleWalk(db: Db, start: Node, p: seq<Node>) {
    Walk(db, p) && Simple(p) && p[0] == start
  }

  lemma WalkStep(db: Db, start: Node, p: seq<Node>)
    requires |p| >= 2
    ensures SimpleWalk(db, start, p) <==> SimpleWalk(db, start, p[..|p| - 1]) && Extends(db, p[..|p| - 1], p)
  {
    var q := p[..|p| - 1];
    if SimpleWalk(db, start, p) {
      FrontIsSimpleWalk(db, start, p);
    } else if SimpleWalk(db, start, q) && Extends(db, q, p) {
      ExtendedIsSimpleWalk(db, start, q, p);
    }
  }

  /** The rows at a depth are exactly the simple walks of that length. */
  lemma {:induction false} RowIsSimpleWalk(db: Db, start: Node, depth: nat, p: seq<Node>)
    ensures IsRow(db, start, depth, p) <==> |p| == depth + 1 && SimpleWalk(db, start, p)
  {
    if depth == 0 {
      assert |p| == 1 ==> p == [p[0]];
    } else if |p| >= 2 {
      RowIsSimpleWalk(db, start, depth - 1, p[..|p| - 1]);
      WalkStep(db, start, p);
    }
  }

  lemma ExtendedIsSimpleWalk(db: Db, start: Node, q: seq<Node>, p: seq<Node>)
    requires SimpleWalk(db, start, q) && Extends(db, q, p)
    ensures |p| == |q| + 1 && SimpleWalk(db, start, p)
  {
    forall i | 0 <= i < |p| - 1 ensures Linked(db, p[i], p[i + 1]) {
      assert i < |q| - 1 ==> Linked(db, q[i], q[i + 1]);
    }
  }

  lemma FrontIsSimpleWalk(db: Db, start: Node, p: seq<Node>)
    requires SimpleWalk(db, start, p) && |p| >= 2
    ensures var q := p[..|p| - 1]; SimpleWalk(db, start, q) && Extends(db, q, p)
  {
    var q := p[..|p| - 1];
    forall i | 0 <= i < |q| - 1 ensures Linked(db, q[i], q[i + 1]) {
      assert Linked(db, p[i], p[i + 1]);
    }
    assert Linked(db, p[|q| - 1], p[|q| - 1 + 1]);
  }

  // ---------- shortest path ----------

  /** A row of the search within the hop bound that ends at a node. */
  ghost predicate Row(db: Db, start: Node, hops: nat, target: Node, p: seq<Node>) {
    1 <= |p| <= hops + 1 && IsRow(db, start, |p| - 1, p) && Last(p) == target
  }

  /** What ORDER BY depth LIMIT 1 may give: any row of least depth, or nothing if there is no row. */
  ghost predicate ShortestRow(db: Db, start: Node, target: Node, hops: nat, r: Option<seq<Node>>) {
    if r.Some? then
      Row(db, start, hops, target, r.value) && forall p :: Row(db, start, hops, target, p) ==> |r.value| <= |p|
    else forall p :: !Row(db, start, hops, target, p)
  }

  /** A walk that no other walk between its ends undercuts. */
  ghost predicate Shortest(db: Db, a: Node, b: Node, p: seq<Node>) {
    Joins(db, p, a, b) && forall q :: Joins(db, q, a, b) ==> |p| <= |q|
  }

  lemma RowJoins(db: Db, start: Node, hops: nat, target: Node, p: seq<Node>)
    ensures Row(db, start, hops, target, p)
       <==> |p| <= hops + 1 && Joins(db, p, start, target) && Simple(p)
  {
    if p != [] {
      RowIsSimpleWalk(db, start, |p| - 1, p);
    }
  }

  /** Every walk within the bound is matched by a row that is no longer. */
  lemma RowForWalk(db: Db, start: Node, hops: nat, target: Node, q: seq<Node>) returns (p: seq<Node>)
    requires Joins(db, q, start, target) && |q| <= hops + 1
    ensures Row(db, start, hops, target, p) && |p| <= |q|
  {
    p := Shorten(db, q, start, target);
    RowJoins(db, start, hops, target, p);
  }

  lemma ShortestIsRow(db: Db, start: Node, hops: nat, target: Node, p: seq<Node>)
    requires Shortest(db, start, target, p) && |p| <= hops + 1
    ensures Row(db, start, hops, target, p)
  {
    if !Simple(p) {
      var i, j :| 0 <= i < j < |p| && p[i] == p[j];
      CutLoop(db, p, i, j);
      assert Joins(db, p[..i] + p[j..], start, target);
    }
    RowJoins(db, start, hops, target, p);
  }

  /** The search gives exactly the shortest of all walks within the hop bound, and nothing iff there is none. */
  lemma ShortestPathIsShortest(db: Db, start: Node, target: Node, hops: nat, r: Option<seq<Node>>)
    ensures ShortestRow(db, start, target, hops, r)
       <==> if r.Some? then |r.value| <= hops + 1 && Shortest(db, start, target, r.value)
            else forall q :: Joins(db, q, start, target) ==> |q| > hops + 1
  {
    if ShortestRow(db, start, target, hops, r) {
      forall q | Joins(db, q, start, target)
        ensures |q| > hops + 1 || (r.Some? && |r.value| <= |q|)
      {
        if |q| <= hops + 1 {
          var p := RowForWalk(db, start, hops, target, q);
        }
      }
      if r.Some? {
        RowJoins(db, start, hops, target, r.value);
      }
    } else {
      if r.Some? && |r.value| <= hops + 1 && Shortest(db, start, target, r.value) {
        ShortestIsRow(db, start, hops, target, r.value);
      }
      forall p | Row(db, start, hops, target, p) ensures |p| <= hops + 1 && Joins(db, p, start, target) {
        RowJoins(db, start, hops, target, p);
      }
    }
  }

  // ---------- neighbours ----------

  /** What DISTINCT ON may keep for a node: any row of least depth, the start itself left out by depth > 0. */
  ghost predicate NeighbourRow(db: Db, start: Node, hops: nat, node: Node, p: seq<Node>) {
    && |p| >= 2 && Row(db, start, hops, node, p)
    && forall q :: |q| >= 2 && Row(db, start, hops, node, q) ==> |p| <= |q|
  }

  /** What ORDER BY depth LIMIT may give. */
  ghost predicate NeighbourRows(db: Db, start: Node, hops: nat, limit: nat, rows: seq<seq<Node>>) {
    |rows| <= limit && AllNearest(db, start, hops, rows) && InOrder(rows) && Complete(db, start, hops, limit, rows)
  }

  ghost predicate AllNearest(db: Db, start: Node, hops: nat, rows: seq<seq<Node>>) {
    forall i :: 0 <= i < |rows| ==> rows[i] != [] && NeighbourRow(db, start, hops, Last(rows[i]), rows[i])
  }

  /** One row a node, nearest first. */
  ghost predicate InOrder(rows: seq<seq<Node>>) {
    forall i, j :: 0 <= i < j < |rows| ==>
      rows[i] != [] && rows[j] != [] && Last(rows[i]) != Last(rows[j]) && |rows[i]| <= |rows[j]|
  }

  /** What the limit cuts off is no nearer than what it leaves. */
  ghost predicate Complete(db: Db, start: Node, hops: nat, limit: nat, rows: seq<seq<Node>>) {
    forall node, p :: NeighbourRow(db, start, hops, node, p) ==>
      Listed(rows, node) || (|rows| == limit && forall i :: 0 <= i < |rows| ==> |rows[i]| <= |p|)
  }

  ghost predicate Listed(rows: seq<seq<Node>>, node: Node) {
    exists i :: 0 <= i < |rows| && rows[i] != [] && Last(rows[i]) == node
  }

  lemma NeighbourRowIsShortest(db: Db, start: Node, hops: nat, node: Node, p: seq<Node>)
    requires NeighbourRow(db, start, hops, node, p)
    ensures node != start && Shortest(db, start, node, p)
  {
    RowJoins(db, start, hops, node, p);
    forall q | Joins(db, q, start, node) ensures |p| <= |q| {
      if |q| <= hops + 1 {
        var r := RowForWalk(db, start, hops, node, q);
        RowJoins(db, start, hops, node, r);
      }
    }
  }

  lemma LeastRow(db: Db, start: Node, hops: nat, node: Node, q: seq<Node>) returns (p: seq<Node>)
    requires |q| >= 2 && Row(db, start, hops, node, q)
    ensures NeighbourRow(db, start, hops, node, p) && |p| <= |q|
    decreases |q|
  {
    if r :| |r| >= 2 && Row(db, start, hops, node, r) && |r| < |q| {
      p := LeastRow(db, start, hops, node, r);
    } else {
      p := q;
    }
  }

  /** The rows are shortest of all walks to other nodes, within the bound. */
  ghost predicate AllShortest(db: Db, start: Node, hops: nat, rows: seq<seq<Node>>) {
    forall i :: 0 <= i < |rows| ==>
      rows[i] != [] && |rows[i]| <= hops + 1 && Last(rows[i]) != start && Shortest(db, start, Last(rows[i]), rows[i])
  }

  /** A node within reach is missing only when the limit is reached by nodes that are no farther. */
  ghost predicate NothingNearerMissing(db: Db, start: Node, hops: nat, limit: nat, rows: seq<seq<Node>>) {
    forall node, q :: node != start && Joins(db, q, start, node) && |q| <= hops + 1 ==>
      Listed(rows, node) || (|rows| == limit && forall i :: 0 <= i < |rows| ==> |rows[i]| <= |q|)
  }

  /** The answers of the search are exactly the lists, no longer than the limit, of shortest walks to other nodes, each
      node once and nearest first, that miss no node within reach but what the limit cuts off. */
  lemma NeighboursAreNearest(db: Db, start: Node, hops: nat, limit: nat, rows: seq<seq<Node>>)
    ensures NeighbourRows(db, start, hops, limit, rows)
       <==> |rows| <= limit && AllShortest(db, start, hops, rows) && InOrder(rows)
            && NothingNearerMissing(db, start, hops, limit, rows)
  {
    NearestIsShortest(db, start, hops, rows);
    if Complete(db, start, hops, limit, rows) {
      CompleteForWalks(db, start, hops, limit, rows);
    }
    if NothingNearerMissing(db, start, hops, limit, rows) {
      CompleteForRows(db, start, hops, limit, rows);
    }
  }

  lemma NearestIsShortest(db: Db, start: Node, hops: nat, rows: seq<seq<Node>>)
    ensures AllNearest(db, start, hops, rows) <==> AllShortest(db, start, hops, rows)
  {
    if AllNearest(db, start, hops, rows) {
      forall i | 0 <= i < |rows| ensures Last(rows[i]) != start && Shortest(db, start, Last(rows[i]), rows[i]) {
        NeighbourRowIsShortest(db, start, hops, Last(rows[i]), rows[i]);
      }
    }
    if AllShortest(db, start, hops, rows) {
      forall i | 0 <= i < |rows| ensures NeighbourRow(db, start, hops, Last(rows[i]), rows[i]) {
        ShortestIsNeighbourRow(db, start, hops, Last(rows[i]), rows[i]);
      }
    }
  }

  lemma ShortestIsNeighbourRow(db: Db, start: Node, hops: nat, node: Node, p: seq<Node>)
    requires Shortest(db, start, node, p) && |p| <= hops + 1 && node != start
    ensures NeighbourRow(db, start, hops, node, p)
  {
    ShortestIsRow(db, start, hops, node, p);
    forall q | |q| >= 2 && Row(db, start, hops, node, q) ensures |p| <= |q| {
      RowJoins(db, start, hops, node, q);
    }
  }

  lemma CompleteForWalks(db: Db, start: Node, hops: nat, limit: nat, rows: seq<seq<Node>>)
    requires Complete(db, start, hops, limit, rows)
    ensures NothingNearerMissing(db, start, hops, limit, rows)
  {
    forall node, q | node != start && Joins(db, q, start, node) && |q| <= hops + 1
      ensures Listed(rows, node) || (|rows| == limit && forall i :: 0 <= i < |rows| ==> |rows[i]| <= |q|)
    {
      var r := RowForWalk(db, start, hops, node, q);
      RowJoins(db, start, hops, node, r);
      var p := LeastRow(db, start, hops, node, r);
    }
  }

  lemma CompleteForRows(db: Db, start: Node, hops: nat, limit: nat, rows: seq<seq<Node>>)
    requires NothingNearerMissing(db, start, hops, limit, rows)
    ensures Complete(db, start, hops, limit, rows)
  {
    forall node, p | NeighbourRow(db, start, hops, node, p)
      ensures Listed(rows, node) || (|rows| == limit && forall i :: 0 <= i < |rows| ==> |rows[i]| <= |p|)
    {
      NeighbourRowIsShortest(db, start, hops, node, p);
    }
  }

  // ---------- walks in terms of the edges ----------

  /** An edge of some type, one way or the other. */
  ghost predicate Adjacent(db: Db, a: Node, b: Node) {
    exists typ :: EdgeKey(a, b, typ) in db.index || EdgeKey(b, a, typ) in db.index
  }

  /** A walk goes from node to node along edges of any type, in either direction. */
  lemma WalkExactly(db: Db, p: seq<Node>)
    ensures Walk(db, p) <==> p != [] && forall i :: 0 <= i < |p| - 1 ==> Adjacent(db, p[i], p[i + 1])
  {
    forall i | 0 <= i < |p| - 1 ensures Linked(db, p[i], p[i + 1]) <==> Adjacent(db, p[i], p[i + 1]) {
      LinkedExactly(db, p[i], p[i + 1]);
    }
  }

  lemma LinkedExactly(db: Db, a: Node, b: Node)
    ensures Linked(db, a, b) <==> Adjacent(db, a, b)
  {
    if Linked(db, a, b) {
      var k :| k in db.index && ((k.source == a && k.target == b) || (k.source == b && k.target == a));
      assert k == EdgeKey(a, b, k.typ) || k == EdgeKey(b, a, k.typ);
    }
    if typ :| EdgeKey(a, b, typ) in db.index || EdgeKey(b, a, typ) in db.index {
      var k := if EdgeKey(a, b, typ) in db.index then EdgeKey(a, b, typ) else EdgeKey(b, a, typ);
      assert k in db.index;
    }
  }

  /** The ends of an edge are neighbours at one hop, whichever way it points. */
  lemma EndsAreNeighbours(db: Db, key: EdgeKey, hops: nat)
    requires key in db.index && key.source != key.target && hops >= 1
    ensures NeighbourRow(db, key.source, hops, key.target, [key.source, key.target])
    ensures NeighbourRow(db, key.target, hops, key.source, [key.target, key.source])
  {
    RowJoins(db, key.source, hops, key.target, [key.source, key.target]);
    RowJoins(db, key.target, hops, key.source, [key.target, key.source]);
  }
}
