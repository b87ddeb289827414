/** `graph_neighbors` as a whole: the search keeps one shortest path for each node, and the scope filter judges the
    node by that path alone. */
module GraphVisibility {
  import opened Graph
  import opened GraphSearch
  import Visibility

  function Named(n: Node): Visibility.PathNode {
    Visibility.PathNode(KindName(n.kind), n.id)
  }

  function Names(p: seq<Node>): seq<Visibility.PathNode> {
    seq(|p|, i requires 0 <= i < |p| => Named(p[i]))
  }

  /** The row of a path as the query returns it. */
  function SearchRowOf(p: seq<Node>): Visibility.SearchRow
    requires p != []
  {
    Visibility.SearchRow(Named(Last(p)), |p| - 1, Visibility.EncodedPath(Names(p)))
  }

  function SearchRows(rows: seq<seq<Node>>): seq<Visibility.SearchRow>
    requires forall i :: 0 <= i < |rows| ==> rows[i] != []
  {
    seq(|rows|, i requires 0 <= i < |rows| => SearchRowOf(rows[i]))
  }

  ghost predicate AllowedPath(store: Visibility.Store, agent: Visibility.Agent, p: seq<Node>) {
    Visibility.PathAllowed(store, agent, Names(p))
  }

  ghost predicate Shown(store: Visibility.Store, agent: Visibility.Agent, rows: seq<seq<Node>>, node: Node)
    requires forall i :: 0 <= i < |rows| ==> rows[i] != []
  {
    exists r :: r in Visibility.Visible(store, agent, SearchRows(rows)) && r.node == Named(node)
  }

  lemma NamedTellsApart(a: Node, b: Node)
    ensures Named(a) == Named(b) <==> a == b
  {
    EncodedTellsApart(a, b);
  }

  lemma DecodedRow(p: seq<Node>)
    requires p != []
    ensures Visibility.Decoded(SearchRowOf(p).path) == Names(p)
  {
    Visibility.PathRoundTrip(Names(p));
  }

  /** A listed node is shown exactly when the path kept for it is allowed from end to end. */
  lemma ShownIffRowAllowed(store: Visibility.Store, agent: Visibility.Agent, rows: seq<seq<Node>>, i: nat)
    requires (forall j :: 0 <= j < |rows| ==> rows[j] != []) && InOrder(rows)
    requires i < |rows|
    ensures Shown(store, agent, rows, Last(rows[i])) <==> AllowedPath(store, agent, rows[i])
  {
    forall r | r in Visibility.Visible(store, agent, SearchRows(rows)) && r.node == Named(Last(rows[i]))
      ensures r == ResultOf(rows[i])
    {
      OnlyResult(store, agent, rows, i, r);
    }
    ResultIffAllowed(store, agent, rows, i);
  }

  function ResultOf(p: seq<Node>): Visibility.Neighbour
    requires p != []
  {
    Visibility.Neighbour(Named(Last(p)), |p| - 1, Names(p))
  }

  lemma ResultIffAllowed(store: Visibility.Store, agent: Visibility.Agent, rows: seq<seq<Node>>, i: nat)
    requires (forall j :: 0 <= j < |rows| ==> rows[j] != []) && i < |rows|
    ensures ResultOf(rows[i]) in Visibility.Visible(store, agent, SearchRows(rows))
       <==> AllowedPath(store, agent, rows[i])
  {
    var row := SearchRows(rows)[i];
    assert row in SearchRows(rows) && row == SearchRowOf(rows[i]);
    DecodedRow(rows[i]);
    Visibility.VisibleExactly(store, agent, SearchRows(rows), ResultOf(rows[i]));
  }

  lemma OnlyResult(
      store: Visibility.Store, agent: Visibility.Agent, rows: seq<seq<Node>>, i: nat, r: Visibility.Neighbour)
    requires (forall j :: 0 <= j < |rows| ==> rows[j] != []) && InOrder(rows)
    requires i < |rows| && r in Visibility.Visible(store, agent, SearchRows(rows)) && r.node == Named(Last(rows[i]))
    ensures r == ResultOf(rows[i])
  {
    var all := SearchRows(rows);
    Visibility.VisibleExactly(store, agent, all, r);
    var row :| row in all && row.node == r.node && row.depth == r.depth && Visibility.Decoded(row.path) == r.path;
    OnlyRow(rows, i, row);
    DecodedRow(rows[i]);
  }

  lemma OnlyRow(rows: seq<seq<Node>>, i: nat, row: Visibility.SearchRow)
    requires (forall j :: 0 <= j < |rows| ==> rows[j] != []) && InOrder(rows)
    requires i < |rows| && row in SearchRows(rows) && row.node == Named(Last(rows[i]))
    ensures row == SearchRowOf(rows[i])
  {
    var j :| 0 <= j < |rows| && SearchRowOf(rows[j]) == row;
    NamedTellsApart(Last(rows[j]), Last(rows[i]));
  }

  // ---------- the server's choice ----------

  /** Another result the search may give for the same nodes. */
  ghost predicate SameNodes(rows: seq<seq<Node>>, choice: seq<seq<Node>>) {
    |choice| == |rows|
    && forall i :: 0 <= i < |rows| ==> rows[i] != [] && choice[i] != [] && Last(choice[i]) == Last(rows[i])
  }

  lemma ShortestSameLength(db: Db, start: Node, hops: nat, node: Node, p: seq<Node>, q: seq<Node>)
    requires NeighbourRow(db, start, hops, node, p) && Shortest(db, start, node, q)
    ensures |q| == |p| && NeighbourRow(db, start, hops, node, q)
  {
    NeighbourRowIsShortest(db, start, hops, node, p);
    ShortestIsRow(db, start, hops, node, q);
  }

  /** The path kept for one node can be swapped for any other shortest one. */
  lemma Exchange(db: Db, start: Node, hops: nat, limit: nat, rows: seq<seq<Node>>, i: nat, q: seq<Node>)
    requires NeighbourRows(db, start, hops, limit, rows) && i < |rows| && Shortest(db, start, Last(rows[i]), q)
    ensures NeighbourRows(db, start, hops, limit, rows[i := q]) && SameNodes(rows, rows[i := q])
  {
    ShortestSameLength(db, start, hops, Last(rows[i]), rows[i], q);
    SameShape(db, start, hops, limit, rows, i, q);
  }

  lemma SameShape(db: Db, start: Node, hops: nat, limit: nat, rows: seq<seq<Node>>, i: nat, q: seq<Node>)
    requires NeighbourRows(db, start, hops, limit, rows) && i < |rows|
    requires NeighbourRow(db, start, hops, Last(rows[i]), q) && |q| == |rows[i]|
    ensures NeighbourRows(db, start, hops, limit, rows[i := q]) && SameNodes(rows, rows[i := q])
  {
    StillNearest(db, start, hops, rows, i, q);
    StillInOrder(rows, rows[i := q]);
    StillComplete(db, start, hops, limit, rows, rows[i := q]);
  }

  lemma StillNearest(db: Db, start: Node, hops: nat, rows: seq<seq<Node>>, i: nat, q: seq<Node>)
    requires AllNearest(db, start, hops, rows) && i < |rows|
    requires NeighbourRow(db, start, hops, Last(rows[i]), q) && |q| == |rows[i]|
    ensures AllNearest(db, start, hops, rows[i := q]) && SameNodes(rows, rows[i := q])
    ensures forall j :: 0 <= j < |rows| ==> |rows[i := q][j]| == |rows[j]|
  {
    assert Last(q) == Last(rows[i]);
    forall j | 0 <= j < |rows| ensures rows[i := q][j] == if j == i then q else rows[j] {
    }
  }

  lemma StillInOrder(rows: seq<seq<Node>>, choice: seq<seq<Node>>)
    requires InOrder(rows) && SameNodes(rows, choice) && forall j :: 0 <= j < |rows| ==> |choice[j]| == |rows[j]|
    ensures InOrder(choice)
  {
  }

  lemma StillComplete(
      db: Db, start: Node, hops: nat, limit: nat, rows: seq<seq<Node>>, choice: seq<seq<Node>>)
    requires Complete(db, start, hops, limit, rows) && SameNodes(rows, choice)
    requires forall j :: 0 <= j < |rows| ==> |choice[j]| == |rows[j]|
    ensures Complete(db, start, hops, limit, choice)
  {
    forall node, p | NeighbourRow(db, start, hops, node, p)
      ensures Listed(choice, node) || (|choice| == limit && forall j :: 0 <= j < |choice| ==> |choice[j]| <= |p|)
    {
      if Listed(rows, node) {
        SameListed(rows, choice, node);
      }
    }
  }

  lemma SameListed(rows: seq<seq<Node>>, choice: seq<seq<Node>>, node: Node)
    requires SameNodes(rows, choice) && Listed(rows, node)
    ensures Listed(choice, node)
  {
    var j :| 0 <= j < |rows| && rows[j] != [] && Last(rows[j]) == node;
    assert Last(choice[j]) == node;
  }

  ghost predicate Choice(db: Db, start: Node, hops: nat, limit: nat, rows: seq<seq<Node>>, choice: seq<seq<Node>>) {
    NeighbourRows(db, start, hops, limit, choice) && SameNodes(rows, choice)
  }

  lemma ChoiceShown(
      store: Visibility.Store, agent: Visibility.Agent, db: Db, start: Node, hops: nat, limit: nat,
      rows: seq<seq<Node>>, i: nat, choice: seq<seq<Node>>)
    requires i < |rows| && Choice(db, start, hops, limit, rows, choice)
    ensures Shortest(db, start, Last(rows[i]), choice[i])
    ensures Shown(store, agent, choice, Last(rows[i])) <==> AllowedPath(store, agent, choice[i])
  {
    NeighbourRowIsShortest(db, start, hops, Last(choice[i]), choice[i]);
    ShownIffRowAllowed(store, agent, choice, i);
  }

  lemma ChoiceWith(
      store: Visibility.Store, agent: Visibility.Agent, db: Db, start: Node, hops: nat, limit: nat,
      rows: seq<seq<Node>>, i: nat, p: seq<Node>)
    requires NeighbourRows(db, start, hops, limit, rows) && i < |rows| && Shortest(db, start, Last(rows[i]), p)
    ensures Choice(db, start, hops, limit, rows, rows[i := p])
    ensures Shown(store, agent, rows[i := p], Last(rows[i])) <==> AllowedPath(store, agent, p)
  {
    Exchange(db, start, hops, limit, rows, i, p);
    ChoiceShown(store, agent, db, start, hops, limit, rows, i, rows[i := p]);
  }

  ghost predicate EveryChoiceShows(
      store: Visibility.Store, agent: Visibility.Agent, db: Db, start: Node, hops: nat, limit: nat,
      rows: seq<seq<Node>>, node: Node)
  {
    forall choice :: Choice(db, start, hops, limit, rows, choice) ==> Shown(store, agent, choice, node)
  }

  ghost predicate SomeChoiceShows(
      store: Visibility.Store, agent: Visibility.Agent, db: Db, start: Node, hops: nat, limit: nat,
      rows: seq<seq<Node>>, node: Node)
  {
    exists choice :: Choice(db, start, hops, limit, rows, choice) && Shown(store, agent, choice, node)
  }

  ghost predicate EveryShortestAllowed(
      store: Visibility.Store, agent: Visibility.Agent, db: Db, start: Node, node: Node)
  {
    forall p :: Shortest(db, start, node, p) ==> AllowedPath(store, agent, p)
  }

  ghost predicate SomeShortestAllowed(
      store: Visibility.Store, agent: Visibility.Agent, db: Db, start: Node, node: Node)
  {
    exists p :: Shortest(db, start, node, p) && AllowedPath(store, agent, p)
  }

  /** A listed node is shown whatever path the server keeps iff all its shortest paths are allowed from end to end.
      So an agent may be denied a node that it could reach by an allowed path, of the same length even. */
  lemma SurelyShownIff(
      store: Visibility.Store, agent: Visibility.Agent, db: Db, start: Node, hops: nat, limit: nat,
      rows: seq<seq<Node>>, i: nat)
    requires NeighbourRows(db, start, hops, limit, rows) && i < |rows|
    ensures EveryChoiceShows(store, agent, db, start, hops, limit, rows, Last(rows[i]))
       <==> EveryShortestAllowed(store, agent, db, start, Last(rows[i]))
  {
    if EveryShortestAllowed(store, agent, db, start, Last(rows[i])) {
      ThenEveryChoiceShows(store, agent, db, start, hops, limit, rows, i);
    } else {
      var p :| Shortest(db, start, Last(rows[i]), p) && !AllowedPath(store, agent, p);
      ThenSomeChoiceHides(store, agent, db, start, hops, limit, rows, i, p);
    }
  }

  lemma ThenSomeChoiceHides(
      store: Visibility.Store, agent: Visibility.Agent, db: Db, start: Node, hops: nat, limit: nat,
      rows: seq<seq<Node>>, i: nat, p: seq<Node>)
    requires NeighbourRows(db, start, hops, limit, rows) && i < |rows|
    requires Shortest(db, start, Last(rows[i]), p) && !AllowedPath(store, agent, p)
    ensures !EveryChoiceShows(store, agent, db, start, hops, limit, rows, Last(rows[i]))
  {
    ChoiceWith(store, agent, db, start, hops, limit, rows, i, p);
  }

  lemma ThenEveryChoiceShows(
      store: Visibility.Store, agent: Visibility.Agent, db: Db, start: Node, hops: nat, limit: nat,
      rows: seq<seq<Node>>, i: nat)
    requires i < |rows| && rows[i] != [] && EveryShortestAllowed(store, agent, db, start, Last(rows[i]))
    ensures EveryChoiceShows(store, agent, db, start, hops, limit, rows, Last(rows[i]))
  {
    forall choice | Choice(db, start, hops, limit, rows, choice) ensures Shown(store, agent, choice, Last(rows[i])) {
      ChoiceShown(store, agent, db, start, hops, limit, rows, i, choice);
    }
  }

  /** And it may be shown at all iff some shortest path is allowed. */
  lemma PossiblyShownIff(
      store: Visibility.Store, agent: Visibility.Agent, db: Db, start: Node, hops: nat, limit: nat,
      rows: seq<seq<Node>>, i: nat)
    requires NeighbourRows(db, start, hops, limit, rows) && i < |rows|
    ensures SomeChoiceShows(store, agent, db, start, hops, limit, rows, Last(rows[i]))
       <==> SomeShortestAllowed(store, agent, db, start, Last(rows[i]))
  {
    if p :| Shortest(db, start, Last(rows[i]), p) && AllowedPath(store, agent, p) {
      ThenSomeChoiceShows(store, agent, db, start, hops, limit, rows, i, p);
    } else if SomeChoiceShows(store, agent, db, start, hops, limit, rows, Last(rows[i])) {
      var choice :| Choice(db, start, hops, limit, rows, choice) && Shown(store, agent, choice, Last(rows[i]));
      ChoiceShown(store, agent, db, start, hops, limit, rows, i, choice);
    }
  }

  lemma ThenSomeChoiceShows(
      store: Visibility.Store, agent: Visibility.Agent, db: Db, start: Node, hops: nat, limit: nat,
      rows: seq<seq<Node>>, i: nat, p: seq<Node>)
    requires NeighbourRows(db, start, hops, limit, rows) && i < |rows|
    requires Shortest(db, start, Last(rows[i]), p) && AllowedPath(store, agent, p)
    ensures SomeChoiceShows(store, agent, db, start, hops, limit, rows, Last(rows[i]))
  {
    ChoiceWith(store, agent, db, start, hops, limit, rows, i, p);
  }
}
