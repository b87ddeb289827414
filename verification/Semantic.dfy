/** Deterministic embeddings and ranking, in exact arithmetic: vector entries count in units of 0.2. */
module Semantic {
  import opened Products

  // ---------- accumulation ----------

  /** The BLAKE2 digest of a token as an unbounded index and a sign bit; nothing is assumed about it. */
  type Digest = string -> (nat, bool)

  datatype Term = Term(index: nat, weight: int)

  function HashIndex(digest: Digest, token: string, dims: nat): (nat, int)
    requires dims > 0
  {
    (digest(token).0 % dims, if digest(token).1 then 1 else -1)
  }

  /** A token weighs 1.0, or 1.2 from eight characters on. */
  function TokenTerm(digest: Digest, token: string, dims: nat): Term
    requires dims > 0
  {
    var (index, sign) := HashIndex(digest, token, dims);
    Term(index, sign * if |token| >= 8 then 6 else 5)
  }

  function TokenTerms(digest: Digest, tokens: seq<string>, dims: nat): seq<Term>
    requires dims > 0
  {
    seq(|tokens|, i requires 0 <= i < |tokens| => TokenTerm(digest, tokens[i], dims))
  }

  /** The character trigrams of the normalised text, without those that span a space; each weighs 0.2. */
  function TrigramTerms(digest: Digest, text: string, dims: nat): seq<Term>
    requires dims > 0
  {
    if |text| < 3 then []
    else
      var last := text[|text| - 3..];
      var before := TrigramTerms(digest, text[..|text| - 1], dims);
      if ' ' in last then before
      else
        var (index, sign) := HashIndex(digest, "tri:" + last, dims);
        before + [Term(index, sign)]
  }

  /** The entry of the vector at one index: the sum of the terms that hash there. */
  function Entry(terms: seq<Term>, index: nat): int {
    if terms == [] then 0
    else
      var last := terms[|terms| - 1];
      Entry(terms[..|terms| - 1], index) + if last.index == index then last.weight else 0
  }

  function Vector(terms: seq<Term>, dims: nat): seq<int> {
    seq(dims, i requires 0 <= i < dims => Entry(terms, i))
  }

  /** The expansion sets have no order: any arrangement of the tokens and their expansions will do. */
  function Expansion(tokens: seq<string>, expansions: map<string, set<string>>): multiset<string> {
    if tokens == [] then multiset{}
    else
      var last := tokens[|tokens| - 1];
      Expansion(tokens[..|tokens| - 1], expansions) + multiset{last}
      + (if last in expansions then multiset(expansions[last]) else multiset{})
  }

  ghost predicate Holds(vec: seq<int>, terms: seq<Term>) {
    forall k :: 0 <= k < |vec| ==> vec[k] == Entry(terms, k)
  }

  lemma Added(vec: seq<int>, terms: seq<Term>, term: Term)
    requires term.index < |vec| && Holds(vec, terms)
    ensures Holds(vec[term.index := vec[term.index] + term.weight], terms + [term])
  {
    assert (terms + [term])[..|terms|] == terms;
  }

  lemma NextToken(digest: Digest, tokens: seq<string>, i: nat, dims: nat)
    requires dims > 0 && i < |tokens|
    ensures TokenTerms(digest, tokens[..i + 1], dims) == TokenTerms(digest, tokens[..i], dims)
            + [TokenTerm(digest, tokens[i], dims)]
  {
  }

  /** The trigrams that start before position i. */
  function TrigramsBefore(digest: Digest, text: string, i: nat, dims: nat): seq<Term>
    requires dims > 0 && (i == 0 || i + 2 <= |text|)
  {
    if i == 0 then [] else TrigramTerms(digest, text[..i + 2], dims)
  }

  lemma NextTrigram(digest: Digest, text: string, i: nat, dims: nat)
    requires dims > 0 && i + 3 <= |text|
    ensures TrigramsBefore(digest, text, i + 1, dims) == TrigramsBefore(digest, text, i, dims)
         + if ' ' in text[i..i + 3] then []
           else var (index, sign) := HashIndex(digest, "tri:" + text[i..i + 3], dims); [Term(index, sign)]
  {
    var now, before, last := text[..i + 3], text[..i + 2], text[i..i + 3];
    assert now[..|now| - 1] == before && now[|now| - 3..] == last;
    var (index, sign) := HashIndex(digest, "tri:" + last, dims);
    assert TrigramTerms(digest, now, dims)
        == TrigramTerms(digest, before, dims) + if ' ' in last then [] else [Term(index, sign)];
    assert i == 0 ==> TrigramTerms(digest, before, dims) == [];
  }

  /** The raw vector, accumulated in place. */
  method Accumulate(digest: Digest, tokens: seq<string>, text: string, dims: nat) returns (vec: array<int>)
    requires dims > 0
    ensures fresh(vec) && vec[..] == Vector(TokenTerms(digest, tokens, dims) + TrigramTerms(digest, text, dims), dims)
  {
    vec := new int[dims](_ => 0);
    for i := 0 to |tokens|
      invariant Holds(vec[..], TokenTerms(digest, tokens[..i], dims))
    {
      var (index, sign) := HashIndex(digest, tokens[i], dims);
      var weight := 5;
      if |tokens[i]| >= 8 {
        weight := weight + 1;
      }
      ghost var before := vec[..];
      vec[index] := vec[index] + sign * weight;
      Added(before, TokenTerms(digest, tokens[..i], dims), TokenTerm(digest, tokens[i], dims));
      NextToken(digest, tokens, i, dims);
      assert vec[..] == before[index := before[index] + sign * weight];
    }
    assert tokens[..|tokens|] == tokens;
    AddTrigrams(digest, text, vec, TokenTerms(digest, tokens, dims));
  }

  /** The second half of the accumulation. */
  method AddTrigrams(digest: Digest, text: string, vec: array<int>, ghost terms: seq<Term>)
    requires vec.Length > 0 && Holds(vec[..], terms)
    modifies vec
    ensures Holds(vec[..], terms + TrigramTerms(digest, text, vec.Length))
  {
    var dims := vec.Length;
    var last := if |text| < 2 then 0 else |text| - 2;
    assert terms + [] == terms;
    for i := 0 to last
      invariant Holds(vec[..], terms + TrigramsBefore(digest, text, i, dims))
    {
      var trigram := text[i..i + 3];
      ghost var before := vec[..];
      ghost var done := terms + TrigramsBefore(digest, text, i, dims);
      NextTrigram(digest, text, i, dims);
      if ' ' !in trigram {
        var (index, sign) := HashIndex(digest, "tri:" + trigram, dims);
        vec[index] := vec[index] + sign;
        Added(before, done, Term(index, sign));
        assert vec[..] == before[index := before[index] + sign];
        assert done + [Term(index, sign)] == terms + TrigramsBefore(digest, text, i + 1, dims);
      } else {
        assert done == terms + TrigramsBefore(digest, text, i + 1, dims);
      }
    }
    assert text[..|text|] == text;
  }

  // ---------- the order of tokens does not matter ----------

  lemma {:induction false} EntryConcat(a: seq<Term>, b: seq<Term>, index: nat)
    ensures Entry(a + b, index) == Entry(a, index) + Entry(b, index)
  {
    if b == [] {
      assert a + b == a;
    } else {
      assert (a + b)[..|a + b| - 1] == a + b[..|b| - 1];
      EntryConcat(a, b[..|b| - 1], index);
    }
  }

  function Without(a: seq<string>, j: nat): seq<string>
    requires j < |a|
  {
    a[..j] + a[j + 1..]
  }

  lemma TokensWithout(a: seq<string>, j: nat)
    requires j < |a|
    ensures multiset(Without(a, j)) == multiset(a) - multiset{a[j]}
  {
    assert a == a[..j] + [a[j]] + a[j + 1..];
  }

  lemma EntryWithout(digest: Digest, a: seq<string>, j: nat, dims: nat, index: nat)
    requires dims > 0 && j < |a|
    ensures Entry(TokenTerms(digest, a, dims), index)
         == Entry(TokenTerms(digest, Without(a, j), dims), index) + Entry([TokenTerm(digest, a[j], dims)], index)
  {
    var x, y := TokenTerms(digest, a[..j], dims), TokenTerms(digest, a[j + 1..], dims);
    var t := [TokenTerm(digest, a[j], dims)];
    assert TokenTerms(digest, a, dims) == x + t + y;
    assert TokenTerms(digest, Without(a, j), dims) == x + y;
    EntryConcat(x + t, y, index);
    EntryConcat(x, t, index);
    EntryConcat(x, y, index);
  }

  lemma Occurrence(a: seq<string>, token: string) returns (j: nat)
    requires token in multiset(a)
    ensures j < |a| && a[j] == token
  {
    j :| 0 <= j < |a| && a[j] == token;
  }

  lemma {:induction false} EntryOrderFree(digest: Digest, a: seq<string>, b: seq<string>, dims: nat, index: nat)
    requires dims > 0 && multiset(a) == multiset(b)
    ensures Entry(TokenTerms(digest, a, dims), index) == Entry(TokenTerms(digest, b, dims), index)
    decreases |a|
  {
    if |a| == 0 {
      assert |multiset(b)| == 0;
    } else {
      var j := Occurrence(b, a[0]);
      TokensWithout(a, 0);
      TokensWithout(b, j);
      EntryOrderFree(digest, Without(a, 0), Without(b, j), dims, index);
      EntryWithout(digest, a, 0, dims, index);
      EntryWithout(digest, b, j, dims, index);
    }
  }

  /** Whatever order the expansion sets are walked in, the vector is the same. */
  lemma EmbeddingIsDeterministic(digest: Digest, tokens: seq<string>, expansions: map<string, set<string>>,
                                 a: seq<string>, b: seq<string>, text: string, dims: nat)
    requires dims > 0 && multiset(a) == Expansion(tokens, expansions) == multiset(b)
    ensures Vector(TokenTerms(digest, a, dims) + TrigramTerms(digest, text, dims), dims)
         == Vector(TokenTerms(digest, b, dims) + TrigramTerms(digest, text, dims), dims)
  {
    var x, y, t := TokenTerms(digest, a, dims), TokenTerms(digest, b, dims), TrigramTerms(digest, text, dims);
    forall i | 0 <= i < dims ensures Entry(x + t, i) == Entry(y + t, i) {
      EntryOrderFree(digest, a, b, dims, i);
      EntryConcat(x, t, i);
      EntryConcat(y, t, i);
    }
  }

  // ---------- cosine similarity ----------

  function Dot(a: seq<int>, b: seq<int>): int
    requires |a| == |b|
  {
    if a == [] then 0
    else
      var n := |a| - 1;
      Dot(a[..n], b[..n]) + a[n] * b[n]
  }

  function RealDot(a: seq<real>, b: seq<real>): real
    requires |a| == |b|
  {
    if a == [] then 0.0
    else
      var n := |a| - 1;
      RealDot(a[..n], b[..n]) + Times(a[n], b[n])
  }

  /** n is the square root of the sum of squares. */
  ghost predicate IsNorm(v: seq<int>, n: real) {
    n >= 0.0 && Times(n, n) == Dot(v, v) as real
  }

  /** A zero vector is returned as it is. */
  function Normalised(v: seq<int>, norm: real): seq<real> {
    seq(|v|, i requires 0 <= i < |v| => if norm == 0.0 then v[i] as real else v[i] as real / norm)
  }

  /** `semantic_similarity` of two texts with raw vectors q and t. */
  function Similarity(q: seq<int>, qNorm: real, t: seq<int>, tNorm: real): real
    requires |q| == |t|
  {
    RealDot(Normalised(q, qNorm), Normalised(t, tNorm))
  }

  lemma {:induction false} DotSymmetric(a: seq<int>, b: seq<int>)
    requires |a| == |b|
    ensures Dot(a, b) == Dot(b, a)
  {
    if a != [] {
      DotSymmetric(a[..|a| - 1], b[..|a| - 1]);
    }
  }

  lemma SquareNonNegative(x: int)
    ensures x * x >= 0 && (x != 0 ==> x * x > 0)
  {
  }

  lemma NonNegativeFactor(p: int, x: int)
    requires p > 0 && p * x >= 0
    ensures x >= 0
  {
  }

  lemma {:induction false} SquaresNonNegative(a: seq<int>)
    ensures Dot(a, a) >= 0
    ensures Dot(a, a) == 0 ==> forall i :: 0 <= i < |a| ==> a[i] == 0
  {
    if a != [] {
      var n := |a| - 1;
      SquaresNonNegative(a[..n]);
      SquareNonNegative(a[n]);
    }
  }

  /** The step of Cauchy-Schwarz: with s*s <= p*q, twice s*(a*b) is at most p*(b*b) + q*(a*a). */
  lemma CauchyStep(s: int, p: int, q: int, a: int, b: int)
    requires p >= 0 && q >= 0 && s * s <= p * q
    ensures 2 * (s * (a * b)) <= p * (b * b) + q * (a * a)
  {
    SquareNonNegative(a);
    if p == 0 {
      SquareNonNegative(s);
      NonNegativeProduct(q, a * a);
    } else {
      SquareNonNegative(p * b - s * a);
      NonNegativeProduct(p * q - s * s, a * a);
      ExpandSquare(s, p, q, a, b);
      NonNegativeFactor(p, p * (b * b) + q * (a * a) - 2 * (s * (a * b)));
    }
  }

  lemma NonNegativeProduct(x: int, y: int)
    requires x >= 0 && y >= 0
    ensures x * y >= 0
  {
  }

  lemma ExpandSquare(s: int, p: int, q: int, a: int, b: int)
    ensures p * (p * (b * b) + q * (a * a) - 2 * (s * (a * b))) == (p * b - s * a) * (p * b - s * a)
            + (p * q - s * s) * (a * a)
  {
    var x, y, u, v, w := p * b, s * a, b * b, a * a, s * (a * b);
    assert (x - y) * (x - y) == x * x - 2 * (x * y) + y * y;
    CrossProduct(p, b, p, b);
    CrossProduct(s, a, s, a);
    assert x * y == p * w;
    assert (p * p) * u == p * (p * u);
    assert (p * q - s * s) * v == p * (q * v) - (s * s) * v;
    assert p * (p * u + q * v - 2 * w) == p * (p * u) + p * (q * v) - 2 * (p * w);
  }

  lemma CrossProduct(a: int, b: int, c: int, d: int)
    ensures (a * b) * (c * d) == (a * c) * (b * d)
  {
    assert (a * b) * (c * d) == a * (b * c) * d;
  }

  lemma {:induction false} CauchySchwarz(a: seq<int>, b: seq<int>)
    requires |a| == |b|
    ensures Dot(a, b) * Dot(a, b) <= Dot(a, a) * Dot(b, b)
  {
    if a != [] {
      var n := |a| - 1;
      var s, p, q, x, y := Dot(a[..n], b[..n]), Dot(a[..n], a[..n]), Dot(b[..n], b[..n]), a[n], b[n];
      CauchySchwarz(a[..n], b[..n]);
      SquaresNonNegative(a[..n]);
      SquaresNonNegative(b[..n]);
      CauchyStep(s, p, q, x, y);
      CrossProduct(x, y, x, y);
      ExpandProducts(s, x * y, p, x * x, q, y * y);
    }
  }

  lemma ExpandProducts(s: int, m: int, p: int, x: int, q: int, y: int)
    ensures (s + m) * (s + m) == s * s + 2 * (s * m) + m * m
    ensures (p + x) * (q + y) == p * q + p * y + q * x + x * y
  {
  }

  lemma {:induction false} ScaledDot(a: seq<int>, m: real, b: seq<int>, n: real)
    requires |a| == |b| && m > 0.0 && n > 0.0
    ensures Times(RealDot(Normalised(a, m), Normalised(b, n)), Times(m, n)) == Dot(a, b) as real
  {
    if a != [] {
      var k := |a| - 1;
      ScaledDot(a[..k], m, b[..k], n);
      assert Normalised(a, m)[..k] == Normalised(a[..k], m) && Normalised(b, n)[..k] == Normalised(b[..k], n);
      var x, y := a[k] as real / m, b[k] as real / n;
      Cross(x, y, m, n);
      Quotient(a[k] as real, m);
      Quotient(b[k] as real, n);
      OfInts(a[k], b[k]);
      Distributes(RealDot(Normalised(a[..k], m), Normalised(b[..k], n)), Times(x, y), Times(m, n));
    }
  }

  lemma {:induction false} ZeroDot(a: seq<real>, b: seq<real>)
    requires |a| == |b| && ((forall i :: 0 <= i < |a| ==> a[i] == 0.0) || (forall i :: 0 <= i < |b| ==> b[i] == 0.0))
    ensures RealDot(a, b) == 0.0
  {
    if a != [] {
      ZeroDot(a[..|a| - 1], b[..|a| - 1]);
    }
  }

  lemma {:induction false} ZeroSquares(v: seq<int>)
    requires forall i :: 0 <= i < |v| ==> v[i] == 0
    ensures Dot(v, v) == 0
  {
    if v != [] {
      ZeroSquares(v[..|v| - 1]);
    }
  }

  ghost predicate IsZero(v: seq<int>) {
    forall i :: 0 <= i < |v| ==> v[i] == 0
  }

  lemma ZeroNorm(v: seq<int>, n: real)
    requires IsNorm(v, n)
    ensures n == 0.0 <==> IsZero(v)
  {
    SquaresNonNegative(v);
    if IsZero(v) {
      ZeroSquares(v);
      NoRoot(n);
    }
  }

  /** The square of the dot product is at most the square of the scale. */
  lemma ScaledCauchy(q: seq<int>, qNorm: real, t: seq<int>, tNorm: real)
    requires |q| == |t| && IsNorm(q, qNorm) && IsNorm(t, tNorm)
    ensures Times(Dot(q, t) as real, Dot(q, t) as real) <= Times(Times(qNorm, tNorm), Times(qNorm, tNorm))
  {
    CauchySchwarz(q, t);
    Cross(qNorm, tNorm, qNorm, tNorm);
    OfInts(Dot(q, t), Dot(q, t));
    OfInts(Dot(q, q), Dot(t, t));
  }

  /** Symmetry and the bounds, for norms that are not zero. */
  lemma ScaledBounds(q: seq<int>, qNorm: real, t: seq<int>, tNorm: real)
    requires |q| == |t| && IsNorm(q, qNorm) && IsNorm(t, tNorm) && qNorm > 0.0 && tNorm > 0.0
    ensures Similarity(q, qNorm, t, tNorm) == Similarity(t, tNorm, q, qNorm)
    ensures -1.0 <= Similarity(q, qNorm, t, tNorm) <= 1.0
  {
    var x, y, scale := Similarity(q, qNorm, t, tNorm), Similarity(t, tNorm, q, qNorm), Times(qNorm, tNorm);
    Positive(qNorm, tNorm);
    ScaledDot(q, qNorm, t, tNorm);
    ScaledDot(t, tNorm, q, qNorm);
    DotSymmetric(q, t);
    Commutes(qNorm, tNorm);
    SameScaled(x, y, scale);
    ScaledCauchy(q, qNorm, t, tNorm);
    AtMostScale(x, scale);
    NegatedSquare(x, scale);
    AtMostScale(-x, scale);
  }

  /** Similarity is symmetric, lies in [-1, 1], is 1 for equal non-zero vectors and 0 when either is zero. */
  lemma SimilarityBounds(q: seq<int>, qNorm: real, t: seq<int>, tNorm: real)
    requires |q| == |t| && IsNorm(q, qNorm) && IsNorm(t, tNorm)
    ensures Similarity(q, qNorm, t, tNorm) == Similarity(t, tNorm, q, qNorm)
    ensures -1.0 <= Similarity(q, qNorm, t, tNorm) <= 1.0
    ensures q == t && !IsZero(q) ==> Similarity(q, qNorm, t, tNorm) == 1.0
    ensures IsZero(q) || IsZero(t) ==> Similarity(q, qNorm, t, tNorm) == 0.0
  {
    ZeroNorm(q, qNorm);
    ZeroNorm(t, tNorm);
    if IsZero(q) || IsZero(t) {
      ZeroDot(Normalised(q, qNorm), Normalised(t, tNorm));
      ZeroDot(Normalised(t, tNorm), Normalised(q, qNorm));
    } else {
      ScaledBounds(q, qNorm, t, tNorm);
      if q == t {
        SameNorm(qNorm, tNorm);
        ScaledDot(q, qNorm, t, tNorm);
        Positive(qNorm, tNorm);
        SameScaled(Similarity(q, qNorm, t, tNorm), 1.0, Times(qNorm, tNorm));
      }
    }
  }

  // ---------- what each token and each trigram weighs ----------

  /** The raw vector of a text with these expanded tokens. */
  function RawVector(digest: Digest, tokens: seq<string>, text: string, dims: nat): seq<int>
    requires dims > 0
  {
    Vector(TokenTerms(digest, tokens, dims) + TrigramTerms(digest, text, dims), dims)
  }

  /** Nothing gives the zero vector; one token more adds 5 units at its index, or 6 from eight characters on, with the
      sign of its digest; one character more adds one unit for its trigram, unless that holds a space. These determine
      every vector. */
  lemma WeightsExactly(digest: Digest, tokens: seq<string>, token: string, text: string, c: char, dims: nat, i: nat)
    requires dims > 0 && i < dims
    ensures RawVector(digest, [], "", dims)[i] == 0
    ensures var sign := if digest(token).1 then 1 else -1;
            RawVector(digest, tokens + [token], text, dims)[i]
            == RawVector(digest, tokens, text, dims)[i]
               + if digest(token).0 % dims == i then sign * (if |token| < 8 then 5 else 6) else 0
    ensures |text| < 2 ==> RawVector(digest, tokens, text + [c], dims)[i] == RawVector(digest, tokens, text, dims)[i]
    ensures |text| >= 2 ==>
              var trigram := [text[|text| - 2], text[|text| - 1], c];
              var sign := if digest("tri:" + trigram).1 then 1 else -1;
              RawVector(digest, tokens, text + [c], dims)[i]
              == RawVector(digest, tokens, text, dims)[i]
                 + if ' ' !in trigram && digest("tri:" + trigram).0 % dims == i then sign else 0
  {
    EntryConcat(TokenTerms(digest, [], dims), TrigramTerms(digest, "", dims), i);
    OneMoreToken(digest, tokens, token, text, dims, i);
    OneMoreCharacter(digest, tokens, text, c, dims, i);
  }

  lemma OneMoreToken(digest: Digest, tokens: seq<string>, token: string, text: string, dims: nat, i: nat)
    requires dims > 0 && i < dims
    ensures RawVector(digest, tokens + [token], text, dims)[i]
         == RawVector(digest, tokens, text, dims)[i] + Entry([TokenTerm(digest, token, dims)], i)
  {
    var all := tokens + [token];
    assert all[..|tokens| + 1] == all && all[..|tokens|] == tokens && all[|tokens|] == token;
    NextToken(digest, all, |tokens|, dims);
    EntryConcat(TokenTerms(digest, all, dims), TrigramTerms(digest, text, dims), i);
    EntryConcat(TokenTerms(digest, tokens, dims), TrigramTerms(digest, text, dims), i);
    EntryConcat(TokenTerms(digest, tokens, dims), [TokenTerm(digest, token, dims)], i);
  }

  lemma OneMoreCharacter(digest: Digest, tokens: seq<string>, text: string, c: char, dims: nat, i: nat)
    requires dims > 0 && i < dims
    ensures |text| < 2 ==> RawVector(digest, tokens, text + [c], dims)[i] == RawVector(digest, tokens, text, dims)[i]
    ensures |text| >= 2 ==>
              var trigram := [text[|text| - 2], text[|text| - 1], c];
              RawVector(digest, tokens, text + [c], dims)[i]
              == RawVector(digest, tokens, text, dims)[i]
                 + if ' ' in trigram then 0
                   else var d := digest("tri:" + trigram); Entry([Term(d.0 % dims, if d.1 then 1 else -1)], i)
  {
    var all := text + [c];
    var t := TokenTerms(digest, tokens, dims);
    var before, after := TrigramTerms(digest, text, dims), TrigramTerms(digest, all, dims);
    EntryConcat(t, before, i);
    EntryConcat(t, after, i);
    if |text| >= 2 {
      var trigram := [text[|text| - 2], text[|text| - 1], c];
      assert all[..|all| - 1] == text && all[|all| - 3..] == trigram;
      var (index, sign) := HashIndex(digest, "tri:" + trigram, dims);
      EntryConcat(before, [Term(index, sign)], i);
    }
  }

  /** The similarity of two texts with non-zero vectors is the cosine: their dot product over the product of the
      norms. */
  lemma SimilarityIsCosine(q: seq<int>, qNorm: real, t: seq<int>, tNorm: real)
    requires |q| == |t| && IsNorm(q, qNorm) && IsNorm(t, tNorm) && !IsZero(q) && !IsZero(t)
    ensures Times(Similarity(q, qNorm, t, tNorm), Times(qNorm, tNorm)) == Dot(q, t) as real
  {
    ZeroNorm(q, qNorm);
    ZeroNorm(t, tNorm);
    ScaledDot(q, qNorm, t, tNorm);
  }

  /** How often a token stands in the expanded list: once for each time it is itself a token, and once for each token
      that it expands. */
  lemma {:induction false} ExpansionCounts(tokens: seq<string>, expansions: map<string, set<string>>, x: string)
    ensures Expansion(tokens, expansions)[x] == |Being(tokens, x)| + |Expanding(tokens, expansions, x)|
  {
    if tokens != [] {
      var n := |tokens| - 1;
      ExpansionCounts(tokens[..n], expansions, x);
      OneMoreBeing(tokens, x);
      OneMoreExpanding(tokens, expansions, x);
    }
  }

  /** Where the token itself stands. */
  function Being(tokens: seq<string>, x: string): set<nat> {
    set i: nat | i < |tokens| && tokens[i] == x
  }

  /** Where a token stands that it expands. */
  function Expanding(tokens: seq<string>, expansions: map<string, set<string>>, x: string): set<nat> {
    set i: nat | i < |tokens| && tokens[i] in expansions && x in expansions[tokens[i]]
  }

  lemma OneMoreBeing(tokens: seq<string>, x: string)
    requires tokens != []
    ensures var n := |tokens| - 1; |Being(tokens, x)| == |Being(tokens[..n], x)| + if tokens[n] == x then 1 else 0
  {
    var n: nat := |tokens| - 1;
    assert forall i :: 0 <= i < n ==> tokens[..n][i] == tokens[i];
    assert Being(tokens, x) == Being(tokens[..n], x) + if tokens[n] == x then {n} else {};
  }

  lemma OneMoreExpanding(tokens: seq<string>, expansions: map<string, set<string>>, x: string)
    requires tokens != []
    ensures var n := |tokens| - 1;
            |Expanding(tokens, expansions, x)|
            == |Expanding(tokens[..n], expansions, x)|
               + if tokens[n] in expansions && x in expansions[tokens[n]] then 1 else 0
  {
    var n: nat := |tokens| - 1;
    assert forall i :: 0 <= i < n ==> tokens[..n][i] == tokens[i];
    assert Expanding(tokens, expansions, x)
        == Expanding(tokens[..n], expansions, x)
           + if tokens[n] in expansions && x in expansions[tokens[n]] then {n} else {};
  }
}
