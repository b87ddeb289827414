/** Which rows of a graph search an agent may see: `_has_hidden_relationships`, `_node_allowed`, `graph_neighbors`. */
module Visibility {
  import opened Common

  datatype PathNode = PathNode(kind: string, id: string)

  datatype Relationship = Relationship(source: PathNode, target: PathNode, active: bool)

  /** Scope lists by id, one table a kind, and the relationships, newest first. */
  datatype Store = Store(
    entities: map<string, seq<nat>>, contexts: map<string, seq<nat>>, jobs: map<string, seq<nat>>,
    relationships: seq<Relationship>)

  datatype Agent = Agent(scopes: set<nat>, adminScopes: set<nat>) {
    predicate IsAdmin() {
      exists s :: s in scopes && s in adminScopes
    }

    predicate Overlaps(rowScopes: seq<nat>) {
      exists s :: s in rowScopes && s in scopes
    }
  }

  datatype SearchRow = SearchRow(node: PathNode, depth: nat, path: seq<string>)

  datatype Neighbour = Neighbour(node: PathNode, depth: nat, path: seq<PathNode>)

  // ---------- encoded paths ----------

  function Colon(item: string): (i: nat)
    ensures i <= |item| && (forall k :: 0 <= k < i ==> item[k] != ':') && (i < |item| ==> item[i] == ':')
  {
    if item == "" || item[0] == ':' then 0 else 1 + Colon(item[1..])
  }

  /** `type:id`, as the search query writes it. */
  function Encoded(node: PathNode): string {
    node.kind + ":" + node.id
  }

  function Decoded(path: seq<string>): seq<PathNode> {
    if path == [] then []
    else
      var item := path[|path| - 1];
      var i := Colon(item);
      Decoded(path[..|path| - 1]) + if i < |item| then [PathNode(item[..i], item[i + 1..])] else []
  }

  function EncodedPath(nodes: seq<PathNode>): seq<string> {
    seq(|nodes|, i requires 0 <= i < |nodes| => Encoded(nodes[i]))
  }

  lemma {:induction false} FirstColon(kind: string, id: string)
    requires ':' !in kind
    ensures Colon(kind + ":" + id) == |kind|
  {
    if kind == "" {
      assert (kind + ":" + id)[0] == ':';
    } else {
      FirstColon(kind[1..], id);
      assert (kind + ":" + id)[0] == kind[0] && kind[0] in kind;
      assert (kind + ":" + id)[1..] == kind[1..] + ":" + id;
    }
  }

  /** Decoding is exact when no kind holds a colon; ids may hold any. */
  lemma {:induction false} PathRoundTrip(nodes: seq<PathNode>)
    requires forall i :: 0 <= i < |nodes| ==> ':' !in nodes[i].kind
    ensures Decoded(EncodedPath(nodes)) == nodes
  {
    if nodes != [] {
      var n := |nodes| - 1;
      PathRoundTrip(nodes[..n]);
      OneNodeRoundTrip(nodes[n]);
      assert EncodedPath(nodes)[..n] == EncodedPath(nodes[..n]) && EncodedPath(nodes)[n] == Encoded(nodes[n]);
      assert nodes == nodes[..n] + [nodes[n]];
    }
  }

  lemma OneNodeRoundTrip(node: PathNode)
    requires ':' !in node.kind
    ensures var item := Encoded(node);
            var i := Colon(item);
            i < |item| && item[..i] == node.kind && item[i + 1..] == node.id
  {
    FirstColon(node.kind, node.id);
  }

  method DecodeGraphPath(path: seq<string>) returns (nodes: seq<PathNode>)
    ensures nodes == Decoded(path)
  {
    nodes := [];
    for k := 0 to |path|
      invariant nodes == Decoded(path[..k])
    {
      assert path[..k + 1][..k] == path[..k];
      var i := Colon(path[k]);
      if i == |path[k]| {
        continue;
      }
      nodes := nodes + [PathNode(path[k][..i], path[k][i + 1..])];
    }
    assert path[..|path|] == path;
  }

  // ---------- one node ----------

  /** A row without scopes is open to all; one that is missing is not. */
  predicate Open(agent: Agent, table: map<string, seq<nat>>, id: string) {
    id in table && (table[id] == [] || agent.Overlaps(table[id]))
  }

  /** One end of a relationship keeps the file or log at its other end from the agent. */
  predicate Hides(store: Store, agent: Agent, end: PathNode) {
    (end.kind == "entity" && !Open(agent, store.entities, end.id))
    || (end.kind == "context" && !Open(agent, store.contexts, end.id))
    || (end.kind == "job" && !Open(agent, store.jobs, end.id))
  }

  /** What `relationships/get` returns for a node: only rows of an active status. */
  predicate Touches(r: Relationship, node: PathNode) {
    r.active && (r.source == node || r.target == node)
  }

  ghost predicate Hidden(store: Store, agent: Agent, node: PathNode) {
    exists r :: r in store.relationships && Touches(r, node)
      && (Hides(store, agent, r.source) || Hides(store, agent, r.target))
  }

  ghost predicate Allowed(store: Store, agent: Agent, node: PathNode) {
    agent.IsAdmin()
    || match node.kind
       case "entity" => Open(agent, store.entities, node.id)
       case "context" => node.id in store.contexts && agent.Overlaps(store.contexts[node.id])
       case "job" => Open(agent, store.jobs, node.id)
       case "file" => !Hidden(store, agent, node)
       case "log" => !Hidden(store, agent, node)
       case _ => true
  }

  method HasHiddenRelationships(store: Store, agent: Agent, node: PathNode) returns (hidden: bool)
    ensures hidden == (!agent.IsAdmin() && Hidden(store, agent, node))
  {
    if agent.IsAdmin() {
      return false;
    }
    var rows := store.relationships;
    for i := 0 to |rows|
      invariant forall k :: 0 <= k < i && Touches(rows[k], node) ==>
        !Hides(store, agent, rows[k].source) && !Hides(store, agent, rows[k].target)
    {
      if Touches(rows[i], node) && (Hides(store, agent, rows[i].source) || Hides(store, agent, rows[i].target)) {
        return true;
      }
    }
    return false;
  }

  method NodeAllowed(store: Store, agent: Agent, node: PathNode) returns (allowed: bool)
    ensures allowed == Allowed(store, agent, node)
  {
    if agent.IsAdmin() {
      return true;
    }
    match node.kind
    case "entity" => return Open(agent, store.entities, node.id);
    case "context" => return node.id in store.contexts && agent.Overlaps(store.contexts[node.id]);
    case "job" => return Open(agent, store.jobs, node.id);
    case "file" =>
      var hidden := HasHiddenRelationships(store, agent, node);
      return !hidden;
    case "log" =>
      var hidden := HasHiddenRelationships(store, agent, node);
      return !hidden;
    case _ => return true;
  }

  // ---------- the search ----------

  ghost predicate PathAllowed(store: Store, agent: Agent, path: seq<PathNode>) {
    forall i :: 0 <= i < |path| ==> Allowed(store, agent, path[i])
  }

  ghost function Visible(store: Store, agent: Agent, rows: seq<SearchRow>): seq<Neighbour> {
    if rows == [] then []
    else
      var last := rows[|rows| - 1];
      Visible(store, agent, rows[..|rows| - 1])
      + if PathAllowed(store, agent, Decoded(last.path))
        then [Neighbour(last.node, last.depth, Decoded(last.path))] else []
  }

  /** None is the refusal; the rows are those of the search query, already cut to the limit. */
  method GraphNeighbors(store: Store, agent: Agent, source: PathNode, rows: seq<SearchRow>)
      returns (results: Option<seq<Neighbour>>)
    ensures results == if Allowed(store, agent, source) then Some(Visible(store, agent, rows)) else None
  {
    var permitted := NodeAllowed(store, agent, source);
    if !permitted {
      return None;
    }
    var found: seq<Neighbour> := [];
    for i := 0 to |rows|
      invariant found == Visible(store, agent, rows[..i])
    {
      assert rows[..i + 1][..i] == rows[..i];
      var path := DecodeGraphPath(rows[i].path);
      var allowed := true;
      for k := 0 to |path|
        invariant allowed && PathAllowed(store, agent, path[..k])
      {
        allowed := NodeAllowed(store, agent, path[k]);
        if !allowed {
          break;
        }
      }
      assert allowed ==> path[..|path|] == path;
      if allowed {
        found := found + [Neighbour(rows[i].node, rows[i].depth, path)];
      }
    }
    assert rows[..|rows|] == rows;
    return Some(found);
  }

  // ---------- more scopes never hide anything ----------

  ghost predicate Enlarges(more: Agent, less: Agent) {
    less.scopes <= more.scopes && less.adminScopes == more.adminScopes
  }

  lemma HidesLess(store: Store, less: Agent, more: Agent, end: PathNode)
    requires Enlarges(more, less) && Hides(store, more, end)
    ensures Hides(store, less, end)
  {
  }

  lemma AllowedGrows(store: Store, less: Agent, more: Agent, node: PathNode)
    requires Enlarges(more, less) && Allowed(store, less, node)
    ensures Allowed(store, more, node)
  {
    if less.IsAdmin() {
      assert more.IsAdmin();
    } else if Hidden(store, more, node) {
      var r :| r in store.relationships && Touches(r, node)
        && (Hides(store, more, r.source) || Hides(store, more, r.target));
      if Hides(store, more, r.source) {
        HidesLess(store, less, more, r.source);
      } else {
        HidesLess(store, less, more, r.target);
      }
      assert Hidden(store, less, node);
    }
  }

  /** The first list is the second with some elements left out. */
  ghost predicate Within<T>(a: seq<T>, b: seq<T>) {
    a == []
    || (b != [] && (Within(a, b[..|b| - 1])
                    || (a[|a| - 1] == b[|b| - 1] && Within(a[..|a| - 1], b[..|b| - 1]))))
  }

  lemma WithinNext<T>(a: seq<T>, b: seq<T>, x: T)
    requires Within(a, b)
    ensures Within(a, b + [x]) && Within(a + [x], b + [x])
  {
    assert (b + [x])[..|b|] == b && (a + [x])[..|a|] == a;
  }

  /** With more scopes the source is still allowed, and the smaller result is a subsequence of the larger one. */
  lemma {:induction false} ResultsGrow(store: Store, less: Agent, more: Agent, rows: seq<SearchRow>)
    requires Enlarges(more, less)
    ensures Within(Visible(store, less, rows), Visible(store, more, rows))
  {
    if rows != [] {
      var n := |rows| - 1;
      ResultsGrow(store, less, more, rows[..n]);
      var path := Decoded(rows[n].path);
      var a, b := Visible(store, less, rows[..n]), Visible(store, more, rows[..n]);
      assert a + [] == a && b + [] == b;
      WithinNext(a, b, Neighbour(rows[n].node, rows[n].depth, path));
      if PathAllowed(store, less, path) {
        forall i | 0 <= i < |path| ensures Allowed(store, more, path[i]) {
          AllowedGrows(store, less, more, path[i]);
        }
      }
    }
  }

  /** Nothing else is withheld: a result is exactly a row whose whole path is allowed. */
  lemma {:induction false} VisibleExactly(store: Store, agent: Agent, rows: seq<SearchRow>, result: Neighbour)
    ensures result in Visible(store, agent, rows) <==>
      PathAllowed(store, agent, result.path)
      && exists row ::
           row in rows && row.node == result.node && row.depth == result.depth && Decoded(row.path) == result.path
  {
    if rows != [] {
      var n := |rows| - 1;
      VisibleExactly(store, agent, rows[..n], result);
      assert rows == rows[..n] + [rows[n]];
    }
  }

  // ---------- what is open, in terms of the rows ----------

  /** What a node must be to show, for an agent with these scopes that is not an admin: entities and jobs must be there,
      without scopes or with one of the agent's; contexts with one of the agent's; and a file or log must have no
      active relationship with an end that is not open. Other kinds are open. */
  ghost predicate OpenNode(store: Store, scopes: set<nat>, node: PathNode) {
    && (node.kind == "entity" ==>
          node.id in store.entities
          && (store.entities[node.id] == [] || exists s :: s in store.entities[node.id] && s in scopes))
    && (node.kind == "context" ==>
          node.id in store.contexts && exists s :: s in store.contexts[node.id] && s in scopes)
    && (node.kind == "job" ==>
          node.id in store.jobs
          && (store.jobs[node.id] == [] || exists s :: s in store.jobs[node.id] && s in scopes))
    && (node.kind == "file" || node.kind == "log" ==>
          forall r, end ::
            r in store.relationships && r.active && (r.source == node || r.target == node)
            && (end == r.source || end == r.target) ==>
            OpenEnd(store, scopes, end))
  }

  /** The decision for one node, in terms of the rows: open to its scopes, or to an admin. */
  lemma AllowedExactly(store: Store, agent: Agent, node: PathNode)
    ensures Allowed(store, agent, node)
       <==> (exists s :: s in agent.scopes && s in agent.adminScopes) || OpenNode(store, agent.scopes, node)
  {
    if node.kind == "file" || node.kind == "log" {
      HiddenExactly(store, agent, node);
    }
  }

  /** What an end of a relationship must be for the file or log at the other end to show. */
  ghost predicate OpenEnd(store: Store, scopes: set<nat>, end: PathNode) {
    && (end.kind == "entity" ==>
          end.id in store.entities
          && (store.entities[end.id] == [] || exists s :: s in store.entities[end.id] && s in scopes))
    && (end.kind == "context" ==>
          end.id in store.contexts
          && (store.contexts[end.id] == [] || exists s :: s in store.contexts[end.id] && s in scopes))
    && (end.kind == "job" ==>
          end.id in store.jobs
          && (store.jobs[end.id] == [] || exists s :: s in store.jobs[end.id] && s in scopes))
  }

  lemma HiddenExactly(store: Store, agent: Agent, node: PathNode)
    ensures Hidden(store, agent, node) <==>
      exists r, end :: r in store.relationships && r.active && (r.source == node || r.target == node)
                       && (end == r.source || end == r.target) && !OpenEnd(store, agent.scopes, end)
  {
    forall end ensures Hides(store, agent, end) <==> !OpenEnd(store, agent.scopes, end) {
    }
    if Hidden(store, agent, node) {
      var r :| r in store.relationships && Touches(r, node)
               && (Hides(store, agent, r.source) || Hides(store, agent, r.target));
      assert !OpenEnd(store, agent.scopes, if Hides(store, agent, r.source) then r.source else r.target);
    }
    if r, end :| r in store.relationships && r.active && (r.source == node || r.target == node)
                 && (end == r.source || end == r.target) && !OpenEnd(store, agent.scopes, end) {
      assert Touches(r, node) && Hides(store, agent, end);
    }
  }

  /** For an agent without an admin scope a row is a result exactly when every node of its path is open to the agent's
      scopes; contexts without scopes are not, though they do not hide a file or log. */
  lemma ResultsAreOpen(store: Store, agent: Agent, rows: seq<SearchRow>, row: SearchRow)
    requires (forall s :: s in agent.scopes ==> s !in agent.adminScopes) && row in rows
    ensures Neighbour(row.node, row.depth, Decoded(row.path)) in Visible(store, agent, rows)
       <==> forall i :: 0 <= i < |Decoded(row.path)| ==> OpenNode(store, agent.scopes, Decoded(row.path)[i])
  {
    VisibleExactly(store, agent, rows, Neighbour(row.node, row.depth, Decoded(row.path)));
    var path := Decoded(row.path);
    forall i | 0 <= i < |path| ensures Allowed(store, agent, path[i]) <==> OpenNode(store, agent.scopes, path[i]) {
      AllowedExactly(store, agent, path[i]);
    }
  }

  /** The results are the rows with an allowed path, each once and in their order. */
  lemma {:induction false} VisibleInOrder(store: Store, agent: Agent, rows: seq<SearchRow>, kept: seq<nat>)
    requires AllowedNumbers(store, agent, rows, kept)
    ensures Visible(store, agent, rows) == ResultsOf(rows, kept)
  {
    if rows == [] {
      NumbersBelow(kept, |rows|);
    } else {
      var n := |rows| - 1;
      if PathAllowed(store, agent, Decoded(rows[n].path)) {
        LastNumber(store, agent, rows, kept);
        VisibleInOrder(store, agent, rows[..n], kept[..|kept| - 1]);
        OneMoreResult(rows, kept);
      } else {
        NoLastNumber(store, agent, rows, kept);
        VisibleInOrder(store, agent, rows[..n], kept);
        SameResults(rows, kept);
      }
    }
  }

  /** The numbers of the rows whose path is allowed, in order. */
  ghost predicate AllowedNumbers(store: Store, agent: Agent, rows: seq<SearchRow>, kept: seq<nat>) {
    && (forall k :: 0 <= k < |kept| ==> kept[k] < |rows|)
    && (forall k, l :: 0 <= k < l < |kept| ==> kept[k] < kept[l])
    && forall i :: 0 <= i < |rows| ==> (i in kept <==> PathAllowed(store, agent, Decoded(rows[i].path)))
  }

  function ResultsOf(rows: seq<SearchRow>, kept: seq<nat>): seq<Neighbour>
    requires forall k :: 0 <= k < |kept| ==> kept[k] < |rows|
  {
    seq(|kept|, k requires 0 <= k < |kept| =>
      Neighbour(rows[kept[k]].node, rows[kept[k]].depth, Decoded(rows[kept[k]].path)))
  }

  lemma NoLastNumber(store: Store, agent: Agent, rows: seq<SearchRow>, kept: seq<nat>)
    requires rows != [] && AllowedNumbers(store, agent, rows, kept)
    requires !PathAllowed(store, agent, Decoded(rows[|rows| - 1].path))
    ensures AllowedNumbers(store, agent, rows[..|rows| - 1], kept)
  {
    forall k | 0 <= k < |kept| ensures kept[k] < |rows| - 1 {
      assert kept[k] in kept;
    }
  }

  lemma OneMoreResult(rows: seq<SearchRow>, kept: seq<nat>)
    requires rows != [] && kept != [] && kept[|kept| - 1] == |rows| - 1
    requires forall k :: 0 <= k < |kept| - 1 ==> kept[k] < |rows| - 1
    ensures var n := |rows| - 1;
            ResultsOf(rows, kept)
            == ResultsOf(rows[..n], kept[..|kept| - 1])
               + [Neighbour(rows[n].node, rows[n].depth, Decoded(rows[n].path))]
  {
  }

  lemma SameResults(rows: seq<SearchRow>, kept: seq<nat>)
    requires rows != [] && forall k :: 0 <= k < |kept| ==> kept[k] < |rows| - 1
    ensures ResultsOf(rows, kept) == ResultsOf(rows[..|rows| - 1], kept)
  {
  }

  lemma NumbersBelow(kept: seq<nat>, bound: nat)
    requires forall k :: 0 <= k < |kept| ==> kept[k] < bound
    ensures bound == 0 ==> kept == []
  {
    if kept != [] {
      assert kept[0] < bound;
    }
  }

  lemma LastNumber(store: Store, agent: Agent, rows: seq<SearchRow>, kept: seq<nat>)
    requires rows != [] && AllowedNumbers(store, agent, rows, kept)
    requires PathAllowed(store, agent, Decoded(rows[|rows| - 1].path))
    ensures kept != [] && kept[|kept| - 1] == |rows| - 1
    ensures AllowedNumbers(store, agent, rows[..|rows| - 1], kept[..|kept| - 1])
  {
    var n: nat, m := |rows| - 1, |kept| - 1;
    assert n in kept;
    var k :| 0 <= k < |kept| && kept[k] == n;
    NumbersGrow(kept, k, m);
    forall j | 0 <= j < m ensures kept[j] < n {
      assert kept[j] < kept[m];
    }
    forall i | 0 <= i < n ensures i in kept[..m] <==> i in kept {
      if i in kept {
        var j :| 0 <= j < |kept| && kept[j] == i;
        assert kept[..m][j] == i;
      }
    }
  }

  lemma NumbersGrow(kept: seq<nat>, k: nat, l: nat)
    requires k <= l < |kept| && forall k, l :: 0 <= k < l < |kept| ==> kept[k] < kept[l]
    ensures kept[k] <= kept[l]
  {
  }

  /** One more item of a path: dropped when it holds no colon, and else split at its first one. */
  lemma DecodedItem(path: seq<string>, item: string, i: nat)
    requires i <= |item| && (forall k :: 0 <= k < i ==> item[k] != ':') && (i < |item| ==> item[i] == ':')
    ensures Decoded(path + [item])
         == if i == |item| then Decoded(path) else Decoded(path) + [PathNode(item[..i], item[i + 1..])]
  {
    assert (path + [item])[..|path|] == path;
    FirstColonAt(item, i);
  }

  lemma {:induction false} FirstColonAt(item: string, i: nat)
    requires i <= |item| && (forall k :: 0 <= k < i ==> item[k] != ':') && (i < |item| ==> item[i] == ':')
    ensures Colon(item) == i
  {
    if i > 0 {
      forall k | 0 <= k < i - 1 ensures item[1..][k] != ':' {
        assert item[k + 1] != ':';
      }
      FirstColonAt(item[1..], i - 1);
    }
  }
}
