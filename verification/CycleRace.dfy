/** Guarded creates whose two statements, the cycle check and the insert, are steps of their own: other statements
    may come between them, and other creates too if overlapping is allowed. */
module CycleRace {
  import opened Common
  import opened Graph
  import opened CycleGuard

  /** One call of the executor. */
  datatype Request = Request(source: Node, target: Node, typ: nat, notes: string)

  /** `passed` holds the calls that are past their check and have yet to insert. */
  datatype State = State(db: Db, passed: map<nat, Request>)

  const START := State(EMPTY, map[])

  datatype Action =
    | Check(call: nat, request: Request)
    | Write(call: nat, now: int)
    | Other(st: Statement)

  predicate Refused(c: Config, db: Db, r: Request) {
    r.source == r.target || (r.typ in c.sensitive && CheckCycle(db, r.source, r.target, r.typ))
  }

  ghost function Step(c: Config, s: State, a: Action): State {
    match a
    case Check(call, r) =>
      if call in s.passed || Refused(c, s.db, r) then s else s.(passed := s.passed[call := r])
    case Write(call, now) =>
      if call !in s.passed then s
      else
        var r := s.passed[call];
        var done := InsertEdge(c.schema, s.db, EdgeKey(r.source, r.target, r.typ), Some(c.active), r.notes, now);
        State(Settle(s.db, done), s.passed - {call})
    case Other(st) => if st.StInsertEdge? then s else s.(db := Exec(c.schema, s.db, st))
  }

  /** Without overlap a call checks only when no other stands between its check and its insert. */
  predicate Allowed(s: State, a: Action, overlap: bool) {
    a.Check? && s.passed != map[] ==> overlap
  }

  ghost function RunRacing(c: Config, actions: seq<Action>, overlap: bool): State {
    if actions == [] then START
    else
      var s := RunRacing(c, actions[..|actions| - 1], overlap);
      if Allowed(s, actions[|actions| - 1], overlap) then Step(c, s, actions[|actions| - 1]) else s
  }

  // ---------- without overlap ----------

  /** With fewer edges the query finds less. */
  lemma {:induction false} RowsShrink(db: Db, fewer: Db, from: Kind, to: Kind, typ: nat, start: string, depth: nat)
    requires depth > 0 && fewer.index.Keys <= db.index.Keys
    ensures Rows(fewer, from, to, typ, start, depth) <= Rows(db, from, to, typ, start, depth)
  {
    if depth > 1 {
      RowsShrink(db, fewer, from, to, typ, start, depth - 1);
    }
    forall id | id in Rows(fewer, from, to, typ, start, depth) ensures id in Rows(db, from, to, typ, start, depth) {
      RowStays(db, fewer, from, to, typ, start, depth, id);
    }
  }

  lemma RowStays(db: Db, fewer: Db, from: Kind, to: Kind, typ: nat, start: string, depth: nat, id: string)
    requires depth > 0 && fewer.index.Keys <= db.index.Keys && id in Rows(fewer, from, to, typ, start, depth)
    requires depth > 1 ==> Rows(fewer, from, to, typ, start, depth - 1) <= Rows(db, from, to, typ, start, depth - 1)
    ensures id in Rows(db, from, to, typ, start, depth)
  {
    var k :| k in fewer.index.Keys && k.target == Node(to, id) && k.typ == typ && k.source.kind == from
             && if depth == 1 then k.source.id == start
                else k.source.id in Rows(fewer, from, to, typ, start, depth - 1);
    assert k in db.index.Keys;
  }

  lemma StillPasses(c: Config, db: Db, fewer: Db, r: Request)
    requires fewer.index.Keys <= db.index.Keys && !Refused(c, db, r)
    ensures !Refused(c, fewer, r)
  {
    forall depth | 1 <= depth <= MAX_GRAPH_HOPS
      ensures Rows(fewer, r.source.kind, r.target.kind, r.typ, r.target.id, depth)
           <= Rows(db, r.source.kind, r.target.kind, r.typ, r.target.id, depth)
    {
      RowsShrink(db, fewer, r.source.kind, r.target.kind, r.typ, r.target.id, depth);
    }
  }

  /** No directed cycle of at most MAX_GRAPH_HOPS + 1 edges of the type within one kind. */
  ghost predicate NoCycle(db: Db, typ: nat) {
    forall p :: OneKind(p) ==> !ShortCycle(db, typ, GUARDED_LENGTH, p)
  }

  /** At most one call is between its statements, and its check still holds. */
  ghost predicate Inv(c: Config, s: State, typ: nat) {
    && NoCycle(s.db, typ)
    && (forall a, b :: a in s.passed && b in s.passed ==> a == b)
    && (forall a :: a in s.passed ==> !Refused(c, s.db, s.passed[a]))
  }

  lemma InsertKeepsInv(c: Config, s: State, call: nat, now: int, typ: nat)
    requires Inv(c, s, typ) && call in s.passed && typ in c.sensitive && !c.schema.Symmetric(typ)
    ensures Inv(c, Step(c, s, Write(call, now)), typ)
  {
    var r := s.passed[call];
    var after := Step(c, s, Write(call, now));
    assert after.db == Create(c, s.db, r.source, r.target, r.typ, r.notes, now).0;
    forall p | OneKind(p) ensures !ShortCycle(after.db, typ, GUARDED_LENGTH, p) {
      CreateAddsNoShortCycle(c, s.db, r.source, r.target, r.typ, r.notes, now, typ, p);
    }
    assert after.passed.Keys == {};
  }

  lemma NoNewKeysNoCycle(db: Db, fewer: Db, typ: nat)
    requires NoCycle(db, typ) && fewer.index.Keys <= db.index.Keys
    ensures NoCycle(fewer, typ)
  {
    forall p | OneKind(p) ensures !ShortCycle(fewer, typ, GUARDED_LENGTH, p) {
      CycleWasThere(db, fewer, typ, p);
    }
  }

  lemma CycleWasThere(db: Db, fewer: Db, typ: nat, p: seq<Node>)
    requires fewer.index.Keys <= db.index.Keys
    ensures ShortCycle(fewer, typ, GUARDED_LENGTH, p) ==> ShortCycle(db, typ, GUARDED_LENGTH, p)
  {
    assert forall k :: k in fewer.index ==> k in fewer.index.Keys && k in db.index.Keys;
  }

  lemma OtherKeepsInv(c: Config, s: State, st: Statement, typ: nat)
    requires Inv(c, s, typ) && !st.StInsertEdge?
    ensures Inv(c, Step(c, s, Other(st)), typ)
  {
    var after := Exec(c.schema, s.db, st);
    OtherStatementsAddNoKeys(c.schema, s.db, st);
    NoNewKeysNoCycle(s.db, after, typ);
    forall a | a in s.passed ensures !Refused(c, after, s.passed[a]) {
      StillPasses(c, s.db, after, s.passed[a]);
    }
  }

  lemma {:induction false} AloneInv(c: Config, actions: seq<Action>, typ: nat)
    requires typ in c.sensitive && !c.schema.Symmetric(typ)
    ensures Inv(c, RunRacing(c, actions, false), typ)
  {
    if actions == [] {
      forall p | OneKind(p) ensures !ShortCycle(EMPTY, typ, GUARDED_LENGTH, p) {
        if 2 <= |p| {
          NothingToWalk(typ, p);
        }
      }
    } else {
      AloneInv(c, actions[..|actions| - 1], typ);
      var s, a := RunRacing(c, actions[..|actions| - 1], false), actions[|actions| - 1];
      match a {
        case Check(call, r) =>
        case Write(call, now) =>
          if call in s.passed {
            InsertKeepsInv(c, s, call, now, typ);
          }
        case Other(st) =>
          if !st.StInsertEdge? {
            OtherKeepsInv(c, s, st, typ);
          }
      }
    }
  }

  // ---------- with overlap ----------

  const A := Node(Entity, "a")
  const B := Node(Entity, "b")
  const ROW := NodeRow([], "", 0, None, None, None, [], None, 0, 0)
  const TWO_NODES := EMPTY.(nodes := map[A := ROW, B := ROW],
    log := [Entry(NodeRecord(A), None, Some(NodeData(ROW)))] + [Entry(NodeRecord(B), None, Some(NodeData(ROW)))])

  lemma Then(c: Config, before: seq<Action>, a: Action)
    ensures RunRacing(c, before + [a], true) == Step(c, RunRacing(c, before, true), a)
  {
    assert (before + [a])[..|before|] == before;
  }

  lemma TwoNodes(c: Config) returns (actions: seq<Action>)
    ensures RunRacing(c, actions, true) == State(TWO_NODES, map[])
  {
    var one := [Other(StInsertNode(A, ROW))];
    actions := one + [Other(StInsertNode(B, ROW))];
    Then(c, [], one[0]);
    assert [] + one == one;
    assert RunRacing(c, one, true).db.nodes == map[A := ROW];
    Then(c, one, Other(StInsertNode(B, ROW)));
  }

  lemma NothingRefused(c: Config, r: Request)
    requires r.source != r.target
    ensures !Refused(c, TWO_NODES, r)
  {
    forall depth | 1 <= depth <= MAX_GRAPH_HOPS
      ensures Rows(TWO_NODES, r.source.kind, r.target.kind, r.typ, r.target.id, depth) == {}
    {
      NoEdgesNoRows(r, depth);
    }
  }

  lemma {:induction false} NoEdgesNoRows(r: Request, depth: nat)
    requires depth > 0
    ensures Rows(TWO_NODES, r.source.kind, r.target.kind, r.typ, r.target.id, depth) == {}
  {
    if depth > 1 {
      NoEdgesNoRows(r, depth - 1);
    }
  }

  /** Two opposite calls that are past their checks close a cycle of two edges. */
  lemma BothInsert(c: Config, typ: nat)
    requires typ in c.schema.symmetric && !c.schema.symmetric[typ] && c.active in c.schema.archived
    ensures var s := State(TWO_NODES, map[0 := Request(A, B, typ, ""), 1 := Request(B, A, typ, "")]);
            ShortCycle(Step(c, Step(c, s, Write(0, 0)), Write(1, 0)).db, typ, GUARDED_LENGTH, [A, B, A])
  {
    var s := State(TWO_NODES, map[0 := Request(A, B, typ, ""), 1 := Request(B, A, typ, "")]);
    var one := Step(c, s, Write(0, 0));
    var two := Step(c, one, Write(1, 0));
    assert one.db.index.Keys == {EdgeKey(A, B, typ)} && one.db.nodes == TWO_NODES.nodes;
    assert two.db.index.Keys == {EdgeKey(A, B, typ), EdgeKey(B, A, typ)};
    assert EdgeKey(A, B, typ) in two.db.index.Keys && EdgeKey(B, A, typ) in two.db.index.Keys;
  }

  lemma RacingRun(c: Config, typ: nat) returns (actions: seq<Action>)
    requires typ in c.schema.symmetric && !c.schema.symmetric[typ] && c.active in c.schema.archived
    ensures ShortCycle(RunRacing(c, actions, true).db, typ, GUARDED_LENGTH, [A, B, A])
  {
    var nodes := TwoNodes(c);
    var ab, ba := Request(A, B, typ, ""), Request(B, A, typ, "");
    NothingRefused(c, ab);
    NothingRefused(c, ba);
    Then(c, nodes, Check(0, ab));
    var one := nodes + [Check(0, ab)];
    Then(c, one, Check(1, ba));
    var both := one + [Check(1, ba)];
    assert RunRacing(c, both, true) == State(TWO_NODES, map[0 := ab, 1 := ba]);
    Then(c, both, Write(0, 0));
    Then(c, both + [Write(0, 0)], Write(1, 0));
    BothInsert(c, typ);
    actions := both + [Write(0, 0)] + [Write(1, 0)];
  }

  /** Whatever happens between the check and the insert, creates keep a guarded type free of short cycles within
      one kind in every run exactly when no two of them overlap. */
  lemma SafeIffNoOverlap(c: Config, typ: nat, overlap: bool)
    requires typ in c.sensitive && typ in c.schema.symmetric && !c.schema.symmetric[typ]
    requires c.active in c.schema.archived
    ensures (forall actions :: NoCycle(RunRacing(c, actions, overlap).db, typ)) <==> !overlap
  {
    if overlap {
      var actions := RacingRun(c, typ);
      assert OneKind([A, B, A]);
      assert !NoCycle(RunRacing(c, actions, overlap).db, typ);
    } else {
      forall actions ensures NoCycle(RunRacing(c, actions, false).db, typ) {
        AloneInv(c, actions, typ);
      }
    }
  }
}
