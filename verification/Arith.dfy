/** The few facts of non-linear arithmetic and cardinality the models need, stated one at a time. */
module Arith {

  function AbsDiff(x: int, y: int): nat { if x < y then y - x else x - y }

  lemma MulAssoc(x: int, y: int, z: int)
    ensures (x * y) * z == x * (y * z)
  {
  }

  lemma MulCommute(x: int, y: int)
    ensures x * y == y * x
  {
  }

  lemma Distribute(x: int, y: int, z: int)
    ensures (x + y) * z == x * z + y * z
    ensures (x - y) * z == x * z - y * z
  {
  }

  lemma MulMonotone(c: nat, x: int, y: int)
    requires x <= y
    ensures c * x <= c * y && x * c <= y * c
    ensures c > 0 && x < y ==> c * x < c * y && x * c < y * c
  {
    Product(y - x, c);
    Distribute(y, x, c);
    MulCommute(c, x);
    MulCommute(c, y);
  }

  lemma Product(x: nat, y: nat)
    ensures x * y >= 0 && (x * y == 0 <==> x == 0 || y == 0)
  {
  }

  lemma MulAbs(c: nat, x: int, y: int)
    ensures AbsDiff(c * x, c * y) == c * AbsDiff(x, y)
  {
    if x < y { MulMonotone(c, x, y); Distribute(y, x, c); }
    else { MulMonotone(c, y, x); Distribute(x, y, c); }
    MulCommute(c, x);
    MulCommute(c, y);
    MulCommute(c, AbsDiff(x, y));
  }

  lemma DivBounds(x: nat, d: nat)
    requires d > 0
    ensures x / d * d <= x < (x / d + 1) * d
  {
    assert x == x / d * d + x % d;
    Distribute(x / d, 1, d);
  }

  lemma DivBelow(x: nat, d: nat, q: nat)
    requires d > 0
    ensures x < q * d <==> x / d < q
  {
    var r := x / d;
    DivBounds(x, d);
    if r < q { MulMonotone(d, r + 1, q); } else { MulMonotone(d, q, r); }
  }

  lemma DivCancel(x: nat, d: nat, c: nat)
    requires d > 0 && c > 0
    ensures c * d > 0 && c * x / (c * d) == x / d
  {
    var q := x / d;
    DivBounds(x, d);
    MulMonotone(c, 0, d);
    MulMonotone(c, q * d, x);
    MulMonotone(c, x, (q + 1) * d);
    MulAssoc(q, c, d);
    MulAssoc(c, q, d);
    MulAssoc(q + 1, c, d);
    MulAssoc(c, q + 1, d);
    MulCommute(c, q);
    MulCommute(c, q + 1);
    DivBelow(c * x, c * d, q);
    DivBelow(c * x, c * d, q + 1);
  }

  lemma DivOfDiv(n: nat, d: nat, p: nat)
    requires d > 0 && p > 0
    ensures d * p > 0 && n / (d * p) == n / d / p
  {
    var q := n / d / p;
    DivBounds(n, d);
    DivBounds(n / d, p);
    DivBelow(n / d, p, q);
    DivBelow(n / d, p, q + 1);
    MulAssoc(q, p, d);
    MulAssoc(q + 1, p, d);
    DivBelow(n, d, q * p);
    DivBelow(n, d, (q + 1) * p);
    MulCommute(p, d);
    Product(d, p);
    DivBelow(n, d * p, q);
    DivBelow(n, d * p, q + 1);
  }

  lemma DivMonotone(x: nat, y: nat, d: nat)
    requires d > 0 && x <= y
    ensures x / d <= y / d
  {
    DivBounds(y, d);
    DivBelow(x, d, y / d + 1);
  }

  lemma ModSucc(i: nat, m: nat)
    requires m > 0
    ensures (i + 1) % m == if i % m + 1 == m then 0 else i % m + 1
  {
    var q := i / m;
    assert i == q * m + i % m;
    if i % m + 1 == m {
      Distribute(q, 1, m);
      ModUnique(i + 1, m, q + 1, 0);
    } else {
      ModUnique(i + 1, m, q, i % m + 1);
    }
  }

  lemma ModUnique(x: nat, m: nat, q: nat, r: nat)
    requires 0 <= r < m && x == q * m + r
    ensures x % m == r
  {
    DivBounds(x, m);
    Distribute(q, 1, m);
    DivBelow(x, m, q + 1);
    DivBelow(x, m, q);
  }

  lemma DivUnique(x: nat, d: nat, q: nat, r: nat)
    requires 0 <= r < d && x == q * d + r
    ensures x / d == q
  {
    Distribute(q, 1, d);
    DivBelow(x, d, q + 1);
    DivBelow(x, d, q);
  }

  /** Reducing a summand first changes nothing. */
  lemma ModAdd(t: nat, k: nat, n: nat)
    requires n > 0
    ensures (t % n + k) % n == (t + k) % n
  {
    var s := t % n;
    assert t == t / n * n + s;
    ModAddTo(t, k, n, t / n, s);
  }

  lemma ModAddTo(t: nat, k: nat, n: nat, q: nat, s: nat)
    requires n > 0 && t == q * n + s
    ensures (s + k) % n == (t + k) % n
  {
    var q', r := (s + k) / n, (s + k) % n;
    assert s + k == q' * n + r;
    Distribute(q, q', n);
    ModUnique(t + k, n, q + q', r);
  }

  lemma {:induction false} CardLe<T>(a: set<T>, b: set<T>)
    requires a <= b
    ensures |a| <= |b|
  {
    if a != {} {
      var x :| x in a;
      CardLe(a - {x}, b - {x});
    }
  }
}
