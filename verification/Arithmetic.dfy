/** Facts about remainders and products that the solver does not find by itself. */
module Arithmetic {

  function Min(a: nat, b: nat): nat {
    if a <= b then a else b
  }

  lemma ProductIsNat(a: nat, b: nat)
    ensures a * b >= 0
  {}

  lemma MultipleIsFar(size: nat, d: int)
    ensures d >= 1 ==> size * d >= size
    ensures d <= -1 ==> size * d + size <= 0
  {
    if d >= 1 {
      ProductIsNat(size, d - 1);
      assert size * (d - 1) == size * d - size;
    }
    if d <= -1 {
      ProductIsNat(size, -d - 1);
      assert size * (-d - 1) == -(size * d) - size;
    }
  }

  /** Division with remainder has one answer. */
  lemma Residue(a: int, size: nat, q: int, r: nat)
    requires r < size && a == size * q + r
    ensures a % size == r && a / size == q
  {
    var d := a / size - q;
    assert size * d == r - a % size by {
      assert a == size * (a / size) + a % size;
      assert size * d == size * (a / size) - size * q;
    }
    MultipleIsFar(size, d);
  }

  lemma Distribute(a: int, b: int, c: int)
    ensures a * (b + c) == a * b + a * c
  {
  }

  lemma Associate(a: int, b: int, c: int)
    ensures a * (b * c) == a * b * c
  {
  }

  lemma Monotone(a: nat, b: int, c: int)
    requires b <= c
    ensures a * b <= a * c
  {
  }

  /** Dividing twice is dividing by the product. */
  lemma DividedTwice(x: nat, a: nat, b: nat)
    requires a > 0 && b > 0
    ensures a * b > 0 && x / a / b == x / (a * b)
  {
    var q, r := x / a, x % a;
    var p, s := q / b, q % b;
    Composed(x, a, b, q, r, p, s);
    Residue(x, a * b, p, a * s + r);
  }

  lemma QuotientShrinks(x: nat, d: nat)
    requires 2 <= d <= x
    ensures 0 < x / d < x
  {
    Monotone(x / d, 2, d);
    assert x == d * (x / d) + x % d;
    PositiveFactor(d, x / d);
  }

  lemma PositiveFactor(a: nat, b: int)
    requires a * b > 0
    ensures b > 0
  {
    if b <= 0 {
      Monotone(a, b, 0);
    }
  }

  lemma Composed(x: nat, a: nat, b: nat, q: nat, r: nat, p: nat, s: nat)
    requires x == a * q + r && q == b * p + s && r < a && s < b
    ensures a * b > 0 && x == a * b * p + (a * s + r) && 0 <= a * s + r < a * b
  {
    Distribute(a, b * p, s);
    Associate(a, b, p);
    Monotone(a, s, b - 1);
    Distribute(a, b - 1, 1);
    Monotone(a, 0, s);
  }

  lemma NextResidue(a: nat, size: nat)
    requires size > 0
    ensures (a + 1) % size == (a % size + 1) % size
    ensures (a + 1) % size == if a % size + 1 == size then 0 else a % size + 1
  {
    AddResidue(a, 1, size);
    if a % size + 1 == size {
      Residue(size, size, 1, 0);
    } else {
      Residue(a % size + 1, size, 0, a % size + 1);
    }
  }

  lemma FullTurn(a: nat, size: nat)
    requires size > 0
    ensures (a + size) % size == a % size
  {
    assert a + size == size * (a / size + 1) + a % size;
    Residue(a + size, size, a / size + 1, a % size);
  }

  lemma AddResidue(a: nat, b: nat, size: nat)
    requires size > 0
    ensures (a + b) % size == (a % size + b) % size
  {
    var q, r := a / size, a % size;
    var q', r' := (r + b) / size, (r + b) % size;
    assert a + b == size * (q + q') + r' by {
      assert a == size * q + r;
      assert r + b == size * q' + r';
      assert size * (q + q') == size * q + size * q';
    }
    Residue(a + b, size, q + q', r');
  }

  /** Two numbers less than a modulus apart have different remainders. */
  lemma DistinctResidue(t: nat, u: nat, size: nat)
    requires size > 0 && t < u < t + size
    ensures t % size != u % size
  {
    var d := u / size - t / size;
    assert u - t == size * d + (u % size - t % size) by {
      assert t == size * (t / size) + t % size;
      assert u == size * (u / size) + u % size;
      assert size * d == size * (u / size) - size * (t / size);
    }
    MultipleIsFar(size, d);
  }

  lemma EqualResidues(t: nat, u: nat, size: nat)
    requires size > 0 && t <= u && t % size == u % size
    ensures (u - t) % size == 0
  {
    var d := u / size - t / size;
    assert u - t == size * d by {
      assert t == size * (t / size) + t % size;
      assert u == size * (u / size) + u % size;
      assert size * d == size * (u / size) - size * (t / size);
    }
    Residue(u - t, size, d, 0);
  }

  /** How far t is ahead of h, told from their remainders only. */
  lemma ResidueOfDistance(h: nat, t: nat, size: nat)
    requires size > 0 && h <= t < h + size
    ensures (size + h % size - t % size - 1) % size == size - 1 - (t - h)
  {
    var d := t / size - h / size;
    assert size + h % size - t % size - 1 == size * d + (size - 1 - (t - h)) by {
      assert t == size * (t / size) + t % size;
      assert h == size * (h / size) + h % size;
      assert size * d == size * (t / size) - size * (h / size);
    }
    Residue(size + h % size - t % size - 1, size, d, size - 1 - (t - h));
  }
}
