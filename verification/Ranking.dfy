/** `rank_semantic_candidates`: filter by score, stable sort by (-score, kind, id), slice. */
module Ranking {

  datatype Candidate = Candidate(id: string, kind: string, text: string)
  datatype Row = Row(item: Candidate, score: real)

  /** What the ranking needs from outside: `str.strip`, the similarity to the query, and `round(_, 4)`. */
  datatype Scoring = Scoring(strip: string -> string, similarity: string -> real, round: real -> real, minScore: real) {
    function Score(c: Candidate): real {
      similarity(strip(c.text))
    }

    predicate Qualifies(c: Candidate) {
      strip(c.text) != "" && Score(c) >= minScore
    }

    /** The row that is returned for a candidate; its score is the rounded one. */
    function RowOf(c: Candidate): Row {
      Row(c, round(Score(c)))
    }
  }

  // ---------- the order ----------

  predicate TextLe(a: string, b: string) {
    a == "" || (b != "" && (a[0] < b[0] || (a[0] == b[0] && TextLe(a[1..], b[1..]))))
  }

  /** Tuple comparison of the sort keys. */
  predicate Le(a: Row, b: Row) {
    a.score > b.score
    || (a.score == b.score
        && if a.item.kind == b.item.kind then TextLe(a.item.id, b.item.id) else TextLe(a.item.kind, b.item.kind))
  }

  predicate SameKey(a: Row, b: Row) {
    a.score == b.score && a.item.kind == b.item.kind && a.item.id == b.item.id
  }

  ghost predicate Sorted(rows: seq<Row>) {
    forall i, j :: 0 <= i < j < |rows| ==> Le(rows[i], rows[j])
  }

  lemma {:induction false} TextOrder(a: string, b: string, c: string)
    ensures TextLe(a, b) || TextLe(b, a)
    ensures TextLe(a, b) && TextLe(b, a) ==> a == b
    ensures TextLe(a, b) && TextLe(b, c) ==> TextLe(a, c)
  {
    if a != "" && b != "" {
      TextOrder(a[1..], b[1..], if c != "" then c[1..] else "");
      assert a == [a[0]] + a[1..] && b == [b[0]] + b[1..];
    }
  }

  /** The keys are totally ordered. */
  lemma Order(a: Row, b: Row, c: Row)
    ensures Le(a, b) || Le(b, a)
    ensures Le(a, b) && Le(b, a) <==> SameKey(a, b)
    ensures Le(a, b) && Le(b, c) ==> Le(a, c)
  {
    TextOrder(a.item.id, b.item.id, c.item.id);
    TextOrder(a.item.kind, b.item.kind, c.item.kind);
    TextOrder(b.item.kind, a.item.kind, c.item.kind);
  }

  // ---------- the stable sort ----------

  function Insert(rows: seq<Row>, row: Row): seq<Row> {
    if rows == [] then [row]
    else
      var n := |rows| - 1;
      if Le(rows[n], row) then rows + [row] else Insert(rows[..n], row) + [rows[n]]
  }

  function StableSort(rows: seq<Row>): seq<Row> {
    if rows == [] then [] else Insert(StableSort(rows[..|rows| - 1]), rows[|rows| - 1])
  }

  /** The rows with the key of a given one, in order. */
  function Ties(rows: seq<Row>, key: Row): seq<Row> {
    if rows == [] then []
    else
      var n := |rows| - 1;
      Ties(rows[..n], key) + if SameKey(rows[n], key) then [rows[n]] else []
  }

  lemma {:induction false} InsertKeepsAll(rows: seq<Row>, row: Row)
    ensures multiset(Insert(rows, row)) == multiset(rows) + multiset{row}
  {
    if rows != [] {
      var n := |rows| - 1;
      assert rows == rows[..n] + [rows[n]];
      InsertKeepsAll(rows[..n], row);
    }
  }

  lemma SortedAfter(rows: seq<Row>, last: Row)
    requires Sorted(rows) && forall x :: x in rows ==> Le(x, last)
    ensures Sorted(rows + [last])
  {
    forall i, j | 0 <= i < j <= |rows| ensures Le((rows + [last])[i], (rows + [last])[j]) {
      assert rows[i] in rows;
    }
  }

  lemma {:induction false} InsertSorts(rows: seq<Row>, row: Row)
    requires Sorted(rows)
    ensures Sorted(Insert(rows, row))
  {
    if rows != [] {
      var n := |rows| - 1;
      var last := rows[n];
      Order(last, row, row);
      if Le(last, row) {
        forall x | x in rows ensures Le(x, row) {
          Order(x, last, row);
          Order(last, last, last);
        }
        SortedAfter(rows, row);
      } else {
        InsertSorts(rows[..n], row);
        var before := Insert(rows[..n], row);
        InsertKeepsAll(rows[..n], row);
        forall x | x in before ensures Le(x, last) {
          assert x in multiset(before);
        }
        SortedAfter(before, last);
      }
    }
  }

  lemma {:induction false} InsertKeepsTies(rows: seq<Row>, row: Row, key: Row)
    requires Sorted(rows)
    ensures Ties(Insert(rows, row), key) == Ties(rows, key) + if SameKey(row, key) then [row] else []
  {
    if rows != [] {
      var n := |rows| - 1;
      if Le(rows[n], row) {
        assert (rows + [row])[..n + 1] == rows;
      } else {
        InsertKeepsTies(rows[..n], row, key);
        var before := Insert(rows[..n], row);
        assert (before + [rows[n]])[..|before|] == before;
        Order(rows[n], row, row);
        Order(row, rows[n], row);
      }
    }
  }

  ghost predicate SameTies(a: seq<Row>, b: seq<Row>) {
    forall key :: Ties(a, key) == Ties(b, key)
  }

  lemma TiesOfNext(sorted: seq<Row>, rows: seq<Row>, row: Row)
    requires Sorted(sorted) && SameTies(sorted, rows)
    ensures SameTies(Insert(sorted, row), rows + [row])
  {
    forall key ensures Ties(Insert(sorted, row), key) == Ties(rows + [row], key) {
      InsertKeepsTies(sorted, row, key);
      assert (rows + [row])[..|rows|] == rows;
    }
  }

  lemma {:induction false} SortKeepsAll(rows: seq<Row>)
    ensures multiset(StableSort(rows)) == multiset(rows)
  {
    if rows != [] {
      var n := |rows| - 1;
      assert rows == rows[..n] + [rows[n]];
      SortKeepsAll(rows[..n]);
      InsertKeepsAll(StableSort(rows[..n]), rows[n]);
    }
  }

  /** The sort orders the rows and keeps rows with one key in their order. */
  lemma {:induction false} SortIsStable(rows: seq<Row>)
    ensures Sorted(StableSort(rows))
    ensures SameTies(StableSort(rows), rows)
  {
    if rows != [] {
      var n := |rows| - 1;
      SortIsStable(rows[..n]);
      InsertSorts(StableSort(rows[..n]), rows[n]);
      TiesOfNext(StableSort(rows[..n]), rows[..n], rows[n]);
      assert rows == rows[..n] + [rows[n]];
    }
  }

  lemma {:induction false} NoTies(rows: seq<Row>, key: Row)
    ensures Ties(rows, key) == [] <==> forall i :: 0 <= i < |rows| ==> !SameKey(rows[i], key)
  {
    if rows != [] {
      NoTies(rows[..|rows| - 1], key);
    }
  }

  /** Some row has the key of the other list's last row, so the last row does not come before it. */
  lemma LastNotBefore(a: seq<Row>, b: seq<Row>)
    requires Sorted(a) && a != [] && b != [] && SameTies(a, b)
    ensures Le(b[|b| - 1], a[|a| - 1])
  {
    var x, y := a[|a| - 1], b[|b| - 1];
    assert Ties(a, y) == Ties(b, y);
    NoTies(a, y);
    Order(y, y, y);
    var i :| 0 <= i < |a| && SameKey(a[i], y);
    Order(a[i], y, y);
    Order(y, a[i], x);
    Order(x, x, x);
  }

  /** The last rows of two sorted lists with the same ties are the same row. */
  lemma SameLast(a: seq<Row>, b: seq<Row>)
    requires Sorted(a) && Sorted(b) && a != [] && b != [] && SameTies(a, b)
    ensures a[|a| - 1] == b[|b| - 1]
  {
    var x, y := a[|a| - 1], b[|b| - 1];
    LastNotBefore(a, b);
    LastNotBefore(b, a);
    Order(x, y, y);
    var s, t := Ties(a, x), Ties(b, x);
    assert s == t && s[|s| - 1] == x && t[|t| - 1] == y;
  }

  lemma FewerTies(a: seq<Row>, b: seq<Row>)
    requires a != [] && b != [] && a[|a| - 1] == b[|b| - 1] && SameTies(a, b)
    ensures SameTies(a[..|a| - 1], b[..|b| - 1])
  {
    var x, y := a[..|a| - 1], b[..|b| - 1];
    forall key ensures Ties(x, key) == Ties(y, key) {
      var last := a[|a| - 1];
      var tail := if SameKey(last, key) then [last] else [];
      assert Ties(a, key) == Ties(x, key) + tail && Ties(b, key) == Ties(y, key) + tail;
      assert Ties(a, key) == Ties(b, key);
      SameFront(Ties(x, key), Ties(y, key), tail);
    }
  }

  lemma SameFront(a: seq<Row>, b: seq<Row>, tail: seq<Row>)
    requires a + tail == b + tail
    ensures a == b
  {
    assert |a| == |b|;
    assert a == (a + tail)[..|a|] && b == (b + tail)[..|b|];
  }

  lemma HasTies(a: seq<Row>, b: seq<Row>)
    requires a != [] && SameTies(a, b)
    ensures b != []
  {
    assert Ties(a, a[|a| - 1]) == Ties(b, a[|a| - 1]);
    assert |Ties(a, a[|a| - 1])| > 0;
  }

  /** Any stable sort gives this very list. */
  lemma {:induction false} SortIsUnique(a: seq<Row>, b: seq<Row>)
    requires Sorted(a) && Sorted(b) && SameTies(a, b)
    ensures a == b
  {
    if b != [] {
      HasTies(b, a);
    }
    if a != [] {
      HasTies(a, b);
      SameLast(a, b);
      FewerTies(a, b);
      SortIsUnique(a[..|a| - 1], b[..|b| - 1]);
      assert a == a[..|a| - 1] + [a[|a| - 1]] && b == b[..|b| - 1] + [b[|b| - 1]];
    }
  }

  // ---------- ranking ----------

  function Qualifying(s: Scoring, candidates: seq<Candidate>): seq<Row> {
    if candidates == [] then []
    else
      var last := candidates[|candidates| - 1];
      Qualifying(s, candidates[..|candidates| - 1]) + if s.Qualifies(last) then [s.RowOf(last)] else []
  }

  /** `scored[:limit]`: a negative limit drops that many rows from the end. */
  function Kept(limit: int, n: nat): nat {
    if limit >= 0 then (if limit < n then limit else n) else if n + limit > 0 then n + limit else 0
  }

  method Rank(s: Scoring, candidates: seq<Candidate>, limit: int) returns (ranked: seq<Row>)
    ensures ranked == StableSort(Qualifying(s, candidates))[..Kept(limit, |StableSort(Qualifying(s, candidates))|)]
  {
    var scored: seq<Row> := [];
    for i := 0 to |candidates|
      invariant scored == Qualifying(s, candidates[..i])
    {
      assert candidates[..i + 1][..i] == candidates[..i];
      var text := s.strip(candidates[i].text);
      if text == "" {
        continue;
      }
      var score := s.similarity(text);
      if score < s.minScore {
        continue;
      }
      scored := scored + [Row(candidates[i], s.round(score))];
    }
    assert candidates[..|candidates|] == candidates;
    scored := StableSort(scored);
    ranked := scored[..Kept(limit, |scored|)];
  }

  /**
   * Exactly the qualifying candidates are rows before the cut; the result is sorted, has the size the limit
   * asks for, and nothing that was cut off sorts before anything that was kept.
   */
  lemma TopRanked(s: Scoring, candidates: seq<Candidate>, limit: int, ranked: seq<Row>, cut: seq<Row>)
    requires ranked + cut == StableSort(Qualifying(s, candidates))
    requires |ranked| == Kept(limit, |ranked + cut|)
    ensures multiset(ranked) + multiset(cut) == multiset(Qualifying(s, candidates))
    ensures Sorted(ranked)
    ensures |ranked| == Kept(limit, |Qualifying(s, candidates)|)
    ensures forall x, y :: x in ranked && y in cut ==> Le(x, y)
  {
    var all := ranked + cut;
    SortIsStable(Qualifying(s, candidates));
    SortKeepsAll(Qualifying(s, candidates));
    assert |multiset(all)| == |all| && |multiset(Qualifying(s, candidates))| == |Qualifying(s, candidates)|;
    forall i, j | 0 <= i < j < |ranked| ensures Le(ranked[i], ranked[j]) {
      assert all[i] == ranked[i] && all[j] == ranked[j];
    }
    forall x, y | x in ranked && y in cut ensures Le(x, y) {
      var i :| 0 <= i < |ranked| && ranked[i] == x;
      var j :| 0 <= j < |cut| && cut[j] == y;
      assert all[i] == x && all[|ranked| + j] == y;
    }
  }

  ghost predicate Monotone(round: real -> real) {
    forall x, y :: x <= y ==> round(x) <= round(y)
  }

  /** A candidate with a higher exact score than a returned one is cut off only if the two scores round alike. */
  lemma HigherScoreCutOnlyOnTie(
      s: Scoring, candidates: seq<Candidate>, limit: int, ranked: seq<Row>, cut: seq<Row>, x: Candidate, y: Candidate)
    requires Monotone(s.round)
    requires ranked + cut == StableSort(Qualifying(s, candidates)) && |ranked| == Kept(limit, |ranked + cut|)
    requires s.RowOf(x) in ranked && s.RowOf(y) in cut && s.Score(y) > s.Score(x)
    ensures s.RowOf(x).score == s.RowOf(y).score
  {
    TopRanked(s, candidates, limit, ranked, cut);
  }

  // ---------- the result in terms of the candidates ----------

  /** The two texts agree up to k, where the first ends or has the smaller character. */
  ghost predicate DecidedAt(a: string, b: string, k: nat) {
    && k <= |a| && k <= |b| && (forall i :: 0 <= i < k ==> a[i] == b[i])
    && (k == |a| || (k < |b| && a[k] < b[k]))
  }

  /** Code point order. */
  ghost predicate TextBefore(a: string, b: string) {
    exists k :: DecidedAt(a, b, k)
  }

  lemma {:induction false} LeIsDecided(a: string, b: string) returns (k: nat)
    requires TextLe(a, b)
    ensures DecidedAt(a, b, k)
  {
    if a == "" || a[0] < b[0] {
      k := 0;
    } else {
      var rest := LeIsDecided(a[1..], b[1..]);
      k := rest + 1;
      DecidedLater(a, b, rest);
    }
  }

  lemma DecidedLater(a: string, b: string, k: nat)
    requires a != "" && b != "" && a[0] == b[0]
    ensures DecidedAt(a[1..], b[1..], k) <==> DecidedAt(a, b, k + 1)
  {
    if DecidedAt(a, b, k + 1) {
      forall i | 0 <= i < k ensures a[1..][i] == b[1..][i] {
        assert a[i + 1] == b[i + 1];
      }
    }
    if DecidedAt(a[1..], b[1..], k) {
      forall i | 0 <= i < k + 1 ensures a[i] == b[i] {
        assert i == 0 || a[1..][i - 1] == b[1..][i - 1];
      }
    }
  }

  lemma {:induction false} DecidedIsLe(a: string, b: string, k: nat)
    requires DecidedAt(a, b, k)
    ensures TextLe(a, b)
  {
    if k > 0 {
      assert a[0] == b[0];
      DecidedLater(a, b, k - 1);
      DecidedIsLe(a[1..], b[1..], k - 1);
    }
  }

  lemma TextLeExactly(a: string, b: string)
    ensures TextLe(a, b) <==> TextBefore(a, b)
  {
    if TextLe(a, b) {
      var k := LeIsDecided(a, b);
    }
    if k :| DecidedAt(a, b, k) {
      DecidedIsLe(a, b, k);
    }
  }

  /** One row may stand before another: a higher score, or the same score and then kind and id in code point order. */
  ghost predicate MayPrecede(a: Row, b: Row) {
    a.score > b.score
    || (a.score == b.score
        && if a.item.kind == b.item.kind then TextBefore(a.item.id, b.item.id)
           else TextBefore(a.item.kind, b.item.kind))
  }

  ghost predicate Wanted(s: Scoring, c: Candidate) {
    s.strip(c.text) != "" && s.similarity(s.strip(c.text)) >= s.minScore
  }

  /** The numbers of the candidates with text and a high enough score. */
  ghost function WantedNumbers(s: Scoring, candidates: seq<Candidate>): set<nat> {
    set i: nat | i < |candidates| && Wanted(s, candidates[i])
  }

  /** The row of the i-th candidate. */
  ghost predicate IsRowOf(s: Scoring, candidates: seq<Candidate>, i: int, row: Row) {
    0 <= i < |candidates| && Wanted(s, candidates[i])
    && row == Row(candidates[i], s.round(s.similarity(s.strip(candidates[i].text))))
  }

  lemma {:induction false} QualifyingExactly(s: Scoring, candidates: seq<Candidate>)
    ensures forall row :: row in Qualifying(s, candidates) <==> exists i :: IsRowOf(s, candidates, i, row)
    ensures |Qualifying(s, candidates)| == |WantedNumbers(s, candidates)|
  {
    if candidates != [] {
      var n := |candidates| - 1;
      QualifyingExactly(s, candidates[..n]);
      OneMoreWanted(s, candidates);
      forall row ensures row in Qualifying(s, candidates) <==> exists i :: IsRowOf(s, candidates, i, row) {
        OneMoreCandidate(s, candidates, row);
      }
    }
  }

  lemma OneMoreWanted(s: Scoring, candidates: seq<Candidate>)
    requires candidates != []
    ensures var n := |candidates| - 1;
            |WantedNumbers(s, candidates)|
            == |WantedNumbers(s, candidates[..n])| + if Wanted(s, candidates[n]) then 1 else 0
  {
    var n: nat := |candidates| - 1;
    var front := candidates[..n];
    assert forall i :: 0 <= i < n ==> front[i] == candidates[i];
    assert WantedNumbers(s, candidates) == WantedNumbers(s, front) + if Wanted(s, candidates[n]) then {n} else {};
  }

  lemma OneMoreCandidate(s: Scoring, candidates: seq<Candidate>, row: Row)
    requires candidates != []
    ensures var n := |candidates| - 1;
            (exists i :: IsRowOf(s, candidates, i, row))
            <==> (exists i :: IsRowOf(s, candidates[..n], i, row)) || IsRowOf(s, candidates, n, row)
  {
    var n := |candidates| - 1;
    forall i ensures IsRowOf(s, candidates, i, row) <==>
                       IsRowOf(s, candidates[..n], i, row) || (i == n && IsRowOf(s, candidates, n, row)) {
    }
  }

  /** The whole ranking, without the helpers of its definition: kept and cut rows are those of the wanted candidates,
      each once; the limit decides how many are kept; the result is in order, and nothing cut may stand before
      anything kept unless they tie. */
  lemma RankedExactly(s: Scoring, candidates: seq<Candidate>, limit: int, ranked: seq<Row>, cut: seq<Row>)
    requires ranked + cut == StableSort(Qualifying(s, candidates)) && |ranked| == Kept(limit, |ranked + cut|)
    ensures forall row :: row in ranked || row in cut <==> exists i :: IsRowOf(s, candidates, i, row)
    ensures var n := |WantedNumbers(s, candidates)|;
            && |ranked| + |cut| == n
            && (0 <= limit <= n ==> |ranked| == limit) && (limit > n ==> |ranked| == n)
            && (-n <= limit < 0 ==> |ranked| == n + limit) && (limit < -n ==> |ranked| == 0)
    ensures forall i, j :: 0 <= i < j < |ranked| ==> MayPrecede(ranked[i], ranked[j])
    ensures forall x, y :: x in ranked && y in cut ==> MayPrecede(x, y)
  {
    TopRanked(s, candidates, limit, ranked, cut);
    QualifyingExactly(s, candidates);
    forall x, y ensures Le(x, y) <==> MayPrecede(x, y) {
      TextLeExactly(x.item.id, y.item.id);
      TextLeExactly(x.item.kind, y.item.kind);
    }
    SameRows(ranked, cut, Qualifying(s, candidates));
  }

  lemma SameRows(ranked: seq<Row>, cut: seq<Row>, all: seq<Row>)
    requires multiset(ranked) + multiset(cut) == multiset(all)
    ensures forall row :: row in all <==> row in ranked || row in cut
    ensures |ranked| + |cut| == |all|
  {
    forall row ensures row in all <==> row in ranked || row in cut {
      assert row in all <==> row in multiset(all);
      assert row in ranked <==> row in multiset(ranked);
      assert row in cut <==> row in multiset(cut);
    }
    assert |multiset(all)| == |multiset(ranked)| + |multiset(cut)|;
  }
}
