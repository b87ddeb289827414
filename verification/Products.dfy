/** Products of reals under a name, so that a proof can treat one as a single term, and their laws. */
module Products {
  function Times(a: real, b: real): real { a * b }

  lemma Positive(a: real, b: real)
    requires a > 0.0 && b > 0.0
    ensures Times(a, b) > 0.0
  {
  }

  lemma Commutes(a: real, b: real)
    ensures Times(a, b) == Times(b, a)
  {
  }

  lemma Distributes(a: real, b: real, c: real)
    ensures Times(a + b, c) == Times(a, c) + Times(b, c)
  {
  }

  lemma Associates(a: real, b: real, c: real)
    ensures Times(Times(a, b), c) == Times(a, Times(b, c))
  {
  }

  lemma Cross(a: real, b: real, c: real, d: real)
    ensures Times(Times(a, b), Times(c, d)) == Times(Times(a, c), Times(b, d))
  {
    Associates(a, b, Times(c, d));
    Associates(b, c, d);
    Commutes(b, c);
    Associates(c, b, d);
    Associates(a, c, Times(b, d));
  }

  lemma NoRoot(n: real)
    requires n >= 0.0 && Times(n, n) == 0.0
    ensures n == 0.0
  {
    if n > 0.0 {
      Positive(n, n);
    }
  }

  lemma Order(a: real, b: real, c: real)
    requires a < b && c > 0.0
    ensures Times(a, c) < Times(b, c)
  {
    Positive(b - a, c);
    Distributes(b - a, a, c);
  }

  lemma SquareOrder(m: real, n: real)
    requires 0.0 <= m < n
    ensures Times(m, m) < Times(n, n)
  {
    Order(m, n, n);
    Commutes(m, n);
    if m > 0.0 {
      Order(m, n, m);
    }
  }

  lemma Quotient(x: real, n: real)
    requires n > 0.0
    ensures Times(x / n, n) == x
  {
  }

  lemma OfInts(a: int, b: int)
    ensures (a * b) as real == Times(a as real, b as real)
  {
  }

  lemma AtMostScale(x: real, scale: real)
    requires scale > 0.0 && Times(Times(x, scale), Times(x, scale)) <= Times(scale, scale)
    ensures x <= 1.0
  {
    if x > 1.0 {
      Order(1.0, x, scale);
      assert Times(1.0, scale) == scale;
      SquareOrder(scale, Times(x, scale));
    }
  }

  lemma NegatedSquare(x: real, scale: real)
    ensures Times(Times(-x, scale), Times(-x, scale)) == Times(Times(x, scale), Times(x, scale))
  {
    var y := Times(x, scale);
    assert Times(-x, scale) == -y;
    assert Times(-y, -y) == Times(y, y);
  }

  lemma SameScaled(x: real, y: real, scale: real)
    requires scale > 0.0 && Times(x, scale) == Times(y, scale)
    ensures x == y
  {
    if x < y {
      Order(x, y, scale);
    }
    if y < x {
      Order(y, x, scale);
    }
  }

  lemma SameNorm(m: real, n: real)
    requires m >= 0.0 && n >= 0.0 && Times(m, m) == Times(n, n)
    ensures m == n
  {
    if m < n {
      SquareOrder(m, n);
    }
    if n < m {
      SquareOrder(n, m);
    }
  }
}
