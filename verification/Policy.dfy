/** The reporting policy's state: the shape-distance detector and the decimator. */
module Policy {
  import opened Arith
  import opened Bytes

  const SAMPLED: nat := 32
  /** A full-scale amplitude, |imag| + |real| with four fraction bits. */
  const AMP_MAX: nat := 4096

  // ----- profiles -----

  function Abs(x: int): nat { if x < 0 then -x else x }

  function Sum(p: seq<nat>): nat {
    if p == [] then 0 else p[0] + Sum(p[1..])
  }

  /** Subcarriers sampled from a buffer, and the distance between them. */
  function Taken(len: nat): nat { if len / 2 < SAMPLED then len / 2 else SAMPLED }

  function Stride(len: nat): nat
    requires len >= 2
  {
    len / 2 / Taken(len)
  }

  lemma StrideInside(len: nat, k: nat)
    requires len >= 2 && k < Taken(len)
    ensures 0 <= 2 * (k * Stride(len)) && 2 * (k * Stride(len)) + 1 < len
  {
    var n, s := Taken(len), Stride(len);
    DivBounds(len / 2, n);
    DivBelow(len / 2, n, 1);
    MulMonotone(s, 0, k);
    MulMonotone(s, k + 1, n);
    Distribute(k, 1, s);
    MulCommute(n, s);
  }

  function Amplitude(buf: seq<i8>, k: nat): (a: nat)
    requires |buf| >= 2 && k < Taken(|buf|)
    ensures a <= AMP_MAX
  {
    StrideInside(|buf|, k);
    var i := 2 * (k * Stride(|buf|));
    (Abs(buf[i]) + Abs(buf[i + 1])) * 16
  }

  function Profile(buf: seq<i8>): (p: seq<nat>)
    requires |buf| >= 2
    ensures |p| == Taken(|buf|)
  {
    seq(Taken(|buf|), k requires 0 <= k < Taken(|buf|) => Amplitude(buf, k))
  }

  /** Which pairs are sampled: pair 0 and every `Stride`-th after it, as many as there are up to 32, spread so
      wide that no further step would leave room for as many. */
  lemma SampledPairs(len: nat)
    requires len >= 2
    ensures var n, s := Taken(len), Stride(len);
            && 0 < n <= 32 && n <= len / 2 && (n < 32 ==> n == len / 2)
            && s > 0 && n * s <= len / 2 < n * s + n
  {
    var n := Taken(len);
    DivBounds(len / 2, n);
    DivBelow(len / 2, n, 1);
    MulCommute(n, Stride(len));
    Distribute(Stride(len), 1, n);
  }

  /** The profile of silence. */
  lemma ProfileOfZeros(buf: seq<i8>, k: nat)
    requires |buf| >= 2 && k < Taken(|buf|) && forall i | 0 <= i < |buf| :: buf[i] == 0
    ensures Profile(buf)[k] == 0
  {
    hide Stride;
    StrideInside(|buf|, k);
    var p := k * Stride(|buf|);
    assert buf[2 * p] == 0 && buf[2 * p + 1] == 0;
  }

  /** What a profile is: changing one byte of a buffer moves the cell of the pair it belongs to by 16 times the
      change of its absolute value, if that pair is sampled, and moves nothing else. */
  lemma ProfileMoves(buf: seq<i8>, j: nat, v: i8, k: nat)
    requires |buf| >= 2 && j < |buf| && k < Taken(|buf|)
    ensures var x: int := v; var y: int := buf[j];
            var moved := (if x < 0 then -x else x) - (if y < 0 then -y else y);
            Profile(buf[j := v])[k] ==
            Profile(buf)[k] + if j / 2 == k * Stride(|buf|) then 16 * moved else 0
  {
    hide Stride;
    StrideInside(|buf|, k);
    PairOf(k * Stride(|buf|), j);
    AmplitudeMoves(buf, j, v, k * Stride(|buf|));
  }

  lemma AmplitudeMoves(buf: seq<i8>, j: nat, v: i8, p: nat)
    requires j < |buf| && 2 * p + 1 < |buf|
    ensures var after := buf[j := v];
            Abs(after[2 * p]) + Abs(after[2 * p + 1]) - Abs(buf[2 * p]) - Abs(buf[2 * p + 1]) ==
            if j == 2 * p || j == 2 * p + 1 then Abs(v) - Abs(buf[j]) else 0
  {
  }

  lemma PairOf(p: nat, j: nat)
    ensures j / 2 == p <==> j == 2 * p || j == 2 * p + 1
  {
  }

  lemma ProfileAt(buf: seq<i8>, k: nat)
    requires |buf| >= 2 && k < Taken(|buf|)
    ensures var i := 2 * (k * Stride(|buf|));
            0 <= i && i + 1 < |buf| && Profile(buf)[k] == (Abs(buf[i]) + Abs(buf[i + 1])) * 16
    ensures Profile(buf)[k] <= AMP_MAX
  {
    hide Stride;
    StrideInside(|buf|, k);
  }

  // ----- the score -----

  /** Sum of |a_k * bTot - b_k * aTot|. */
  function Distance(a: seq<nat>, b: seq<nat>, aTot: nat, bTot: nat): nat
    requires |a| == |b|
  {
    if a == [] then 0
    else AbsDiff(a[0] * bTot, b[0] * aTot) + Distance(a[1..], b[1..], aTot, bTot)
  }

  /** Half the L1 distance between the two profiles, each normalised by its own total, on a scale
      of 32767 per unit of L1 distance. */
  function ShapeScore(a: seq<nat>, b: seq<nat>): nat
    requires |a| == |b|
  {
    var aTot, bTot := Sum(a), Sum(b);
    if aTot * bTot == 0 then 0 else 32767 * Distance(a, b, aTot, bTot) / (aTot * bTot)
  }

  /** How far two cells are apart, each as a share of its own total. */
  ghost function Gap(x: nat, y: nat, aTot: real, bTot: real): real
    requires aTot > 0.0 && bTot > 0.0
  {
    var d := x as real / aTot - y as real / bTot;
    if d < 0.0 then -d else d
  }

  /** The L1 distance of two profiles, each divided by its own total. */
  ghost function L1(a: seq<nat>, b: seq<nat>, aTot: real, bTot: real): real
    requires |a| == |b| && aTot > 0.0 && bTot > 0.0
  {
    if a == [] then 0.0 else Gap(a[0], b[0], aTot, bTot) + L1(a[1..], b[1..], aTot, bTot)
  }

  lemma TermIsShare(x: nat, y: nat, aTot: nat, bTot: nat)
    requires aTot > 0 && bTot > 0
    ensures Gap(x, y, aTot as real, bTot as real) * ((aTot * bTot) as real) == AbsDiff(x * bTot, y * aTot) as real
  {
    var p, q, m := x as real / aTot as real, y as real / bTot as real, (aTot * bTot) as real;
    ShareTimes(x as real, aTot as real, bTot as real);
    ShareTimes(y as real, bTot as real, aTot as real);
    assert m == aTot as real * bTot as real == bTot as real * aTot as real;
    assert p * m == (x * bTot) as real;
    assert q * m == (y * aTot) as real;
    Signed(p, q, m);
  }

  lemma ShareTimes(x: real, d: real, e: real)
    requires d > 0.0
    ensures x / d * (d * e) == x * e
  {
    assert x / d * d == x;
  }

  lemma Signed(p: real, q: real, m: real)
    requires m > 0.0
    ensures p - q < 0.0 <==> p * m < q * m
    ensures (p - q) * m == p * m - q * m
  {
  }

  lemma {:induction false} DistanceIsL1(a: seq<nat>, b: seq<nat>, aTot: nat, bTot: nat)
    requires |a| == |b| && aTot > 0 && bTot > 0
    ensures L1(a, b, aTot as real, bTot as real) * ((aTot * bTot) as real) == Distance(a, b, aTot, bTot) as real
  {
    hide Gap;
    hide AbsDiff;
    if a != [] {
      TermIsShare(a[0], b[0], aTot, bTot);
      DistanceIsL1(a[1..], b[1..], aTot, bTot);
      AddScaled(Gap(a[0], b[0], aTot as real, bTot as real), L1(a[1..], b[1..], aTot as real, bTot as real),
                (aTot * bTot) as real,
                AbsDiff(a[0] * bTot, b[0] * aTot), Distance(a[1..], b[1..], aTot, bTot));
    }
  }

  lemma AddScaled(x: real, y: real, m: real, p: nat, q: nat)
    requires x * m == p as real && y * m == q as real
    ensures (x + y) * m == (p + q) as real
  {
  }

  /** The score is 32767 times the L1 distance of the normalised profiles, rounded down; with nothing on
      either side it is 0. */
  lemma ScoreIsL1(a: seq<nat>, b: seq<nat>)
    requires |a| == |b|
    ensures Sum(a) == 0 || Sum(b) == 0 ==> ShapeScore(a, b) == 0
    ensures Sum(a) > 0 && Sum(b) > 0 ==>
              var d := L1(a, b, Sum(a) as real, Sum(b) as real);
              ShapeScore(a, b) as real <= 32767.0 * d < ShapeScore(a, b) as real + 1.0
  {
    hide Sum;
    hide L1;
    hide Distance;
    var aTot, bTot := Sum(a), Sum(b);
    Product(aTot, bTot);
    if aTot > 0 && bTot > 0 {
      DistanceIsL1(a, b, aTot, bTot);
      DivBounds(32767 * Distance(a, b, aTot, bTot), aTot * bTot);
      ScaledFloor(ShapeScore(a, b), Distance(a, b, aTot, bTot), aTot * bTot, L1(a, b, aTot as real, bTot as real));
    }
  }

  lemma ScaledFloor(r: nat, d: nat, m: nat, l: real)
    requires m > 0 && l * (m as real) == d as real && r * m <= 32767 * d < (r + 1) * m
    ensures r as real <= 32767.0 * l < r as real + 1.0
  {
    Rescale(d, m as real, l);
    Floor(r, 32767 * d, m, 32767.0 * l);
  }

  lemma Rescale(d: nat, m: real, l: real)
    requires l * m == d as real
    ensures 32767.0 * l * m == (32767 * d) as real
  {
  }

  lemma Floor(r: nat, n: nat, m: nat, q: real)
    requires m > 0 && r * m <= n < (r + 1) * m && q * m as real == n as real
    ensures r as real <= q < r as real + 1.0
  {
    assert (r * m) as real == r as real * m as real;
    assert ((r + 1) * m) as real == (r + 1) as real * m as real;
    Signed(q, r as real, m as real);
    Signed(q, (r + 1) as real, m as real);
  }

  /** No subcarrier carries both profiles. */
  predicate Disjoint(a: seq<nat>, b: seq<nat>)
    requires |a| == |b|
  {
    forall k | 0 <= k < |a| :: a[k] == 0 || b[k] == 0
  }

  lemma TermBound(x: nat, y: nat, aTot: nat, bTot: nat)
    requires aTot > 0 && bTot > 0
    ensures AbsDiff(x * bTot, y * aTot) <= x * bTot + y * aTot
    ensures AbsDiff(x * bTot, y * aTot) == x * bTot + y * aTot <==> x == 0 || y == 0
  {
    MulMonotone(bTot, 0, x);
    MulMonotone(aTot, 0, y);
  }

  lemma {:induction false} DistanceBound(a: seq<nat>, b: seq<nat>, aTot: nat, bTot: nat)
    requires |a| == |b| && aTot > 0 && bTot > 0
    ensures Distance(a, b, aTot, bTot) <= Sum(a) * bTot + Sum(b) * aTot
    ensures Distance(a, b, aTot, bTot) == Sum(a) * bTot + Sum(b) * aTot <==> Disjoint(a, b)
  {
    if a != [] {
      TermBound(a[0], b[0], aTot, bTot);
      DistanceBound(a[1..], b[1..], aTot, bTot);
      Distribute(a[0], Sum(a[1..]), bTot);
      Distribute(b[0], Sum(b[1..]), aTot);
      assert Disjoint(a, b) <==> (a[0] == 0 || b[0] == 0) && Disjoint(a[1..], b[1..]) by {
        assert forall k | 1 <= k < |a| :: a[k] == a[1..][k - 1] && b[k] == b[1..][k - 1];
        assert forall k | 0 <= k < |a| - 1 :: a[1..][k] == a[k + 1] && b[1..][k] == b[k + 1];
      }
    }
  }

  lemma HalfScale(d: nat, m: nat)
    requires m > 0 && d <= 2 * m
    ensures 32767 * d / m <= 65534 && (32767 * d / m == 65534 <==> d == 2 * m)
  {
    DivBelow(32767 * d, m, 65534);
    DivBelow(32767 * d, m, 65535);
  }

  /** The score never exceeds 65534, and reaches it exactly for profiles with no overlap. (The
      scale is `u16::MAX / 2`, which is 32767, so 65535 is out of reach.) */
  lemma ScoreRange(a: seq<nat>, b: seq<nat>)
    requires |a| == |b|
    ensures ShapeScore(a, b) <= 65534
    ensures ShapeScore(a, b) == 65534 <==> Sum(a) > 0 && Sum(b) > 0 && Disjoint(a, b)
  {
    var aTot, bTot := Sum(a), Sum(b);
    if aTot > 0 && bTot > 0 {
      MulMonotone(aTot, 0, bTot);
      MulCommute(aTot, bTot);
      DistanceBound(a, b, aTot, bTot);
      HalfScale(Distance(a, b, aTot, bTot), aTot * bTot);
    }
  }

  // ----- gain -----

  function Scaled(p: seq<nat>, c: nat): (q: seq<nat>)
    ensures |q| == |p|
  {
    seq(|p|, k requires 0 <= k < |p| => c * p[k])
  }

  lemma {:induction false} SumScaled(p: seq<nat>, c: nat)
    ensures Sum(Scaled(p, c)) == c * Sum(p)
  {
    if p != [] {
      assert Scaled(p, c)[1..] == Scaled(p[1..], c);
      SumScaled(p[1..], c);
      var x, rest := p[0], Sum(p[1..]);
      Distribute(x, rest, c);
      MulCommute(c, x);
      MulCommute(c, rest);
      MulCommute(c, x + rest);
    }
  }

  lemma {:induction false} DistanceScaled(a: seq<nat>, b: seq<nat>, aTot: nat, bTot: nat, c: nat)
    requires |a| == |b|
    ensures Distance(Scaled(a, c), b, c * aTot, bTot) == c * Distance(a, b, aTot, bTot)
  {
    if a != [] {
      assert Scaled(a, c)[1..] == Scaled(a[1..], c);
      DistanceScaled(a[1..], b[1..], aTot, bTot, c);
      MulAssoc(c, a[0], bTot);
      MulCommute(b[0], c * aTot);
      MulAssoc(c, aTot, b[0]);
      MulCommute(aTot, b[0]);
      var x, y := a[0] * bTot, b[0] * aTot;
      MulAbs(c, x, y);
      var t, rest := AbsDiff(x, y), Distance(a[1..], b[1..], aTot, bTot);
      Distribute(t, rest, c);
      MulCommute(c, t);
      MulCommute(c, rest);
      MulCommute(c, t + rest);
    }
  }

  /** The receiver's gain does not score: multiplying every amplitude by one positive factor leaves
      the score against any average unchanged. */
  lemma GainScoresNothing(a: seq<nat>, b: seq<nat>, c: nat)
    requires |a| == |b| && c > 0
    ensures ShapeScore(Scaled(a, c), b) == ShapeScore(a, b)
  {
    var aTot, bTot := Sum(a), Sum(b);
    SumScaled(a, c);
    MulAssoc(c, aTot, bTot);
    Product(c, aTot * bTot);
    if aTot * bTot > 0 {
      var d := Distance(a, b, aTot, bTot);
      DistanceScaled(a, b, aTot, bTot, c);
      MulAssoc(32767, c, d);
      MulAssoc(c, 32767, d);
      DivCancel(32767 * d, aTot * bTot, c);
    }
  }

  // ----- the running average -----

  /** One step of 1/16 towards `a`. */
  function Ewma(b: nat, a: nat): nat {
    if a >= b then b + (a - b) / 16 else b - (b - a) / 16
  }

  /** A step never overshoots, and shortens the distance by a sixteenth of it, rounded down. */
  lemma EwmaStep(b: nat, a: nat)
    ensures b <= a ==> b <= Ewma(b, a) <= a
    ensures a <= b ==> a <= Ewma(b, a) <= b
    ensures AbsDiff(a, Ewma(b, a)) == AbsDiff(a, b) - AbsDiff(a, b) / 16
    ensures Ewma(b, a) == b <==> AbsDiff(a, b) < 16
  {
  }

  function EwmaMany(b: nat, a: nat, steps: nat): nat
    decreases steps
  {
    if steps == 0 then b else EwmaMany(Ewma(b, a), a, steps - 1)
  }

  /** Steps until a cell `d` units away is at rest. */
  function StepsToRest(d: nat): nat {
    if d < 16 then 0 else 1 + StepsToRest(d - d / 16)
  }

  /** A cell is within 15 units of a repeated amplitude after exactly `StepsToRest` steps, moves no
      further, and is never further away than it started. */
  lemma {:induction false} EwmaConverges(b: nat, a: nat, steps: nat)
    ensures steps >= StepsToRest(AbsDiff(a, b)) <==> AbsDiff(a, EwmaMany(b, a, steps)) <= 15
    ensures AbsDiff(a, EwmaMany(b, a, steps)) <= AbsDiff(a, b)
    ensures b <= a ==> b <= EwmaMany(b, a, steps) <= a
    ensures a <= b ==> a <= EwmaMany(b, a, steps) <= b
    decreases steps
  {
    EwmaStep(b, a);
    if steps > 0 { EwmaConverges(Ewma(b, a), a, steps - 1); }
  }

  lemma {:induction false} RestIsMonotone(d: nat, e: nat)
    requires d <= e
    ensures StepsToRest(d) <= StepsToRest(e)
  {
    if d >= 16 { RestIsMonotone(d - d / 16, e - e / 16); }
  }

  /** `e` is what one step leaves of a distance `d`. */
  predicate Step(d: nat, e: nat) { 16 <= d && 16 * (d - e) <= d < 16 * (d - e) + 16 }

  lemma OneStep(d: nat, e: nat)
    requires Step(d, e)
    ensures StepsToRest(d) == 1 + StepsToRest(e)
  {
    assert d / 16 == d - e;
  }

  lemma EightSteps(a: nat, b: nat, c: nat, d: nat, e: nat, f: nat, g: nat, h: nat, i: nat)
    requires Step(a, b) && Step(b, c) && Step(c, d) && Step(d, e)
    requires Step(e, f) && Step(f, g) && Step(g, h) && Step(h, i)
    ensures StepsToRest(a) == 8 + StepsToRest(i)
  {
    hide StepsToRest;
    hide Step;
    OneStep(a, b);
    OneStep(b, c);
    OneStep(c, d);
    OneStep(d, e);
    OneStep(e, f);
    OneStep(f, g);
    OneStep(g, h);
    OneStep(h, i);
  }

  lemma AtRest(d: nat)
    requires d < 16
    ensures StepsToRest(d) == 0
  {
  }

  lemma FullScaleRests()
    ensures StepsToRest(AMP_MAX) == 96
  {
    hide StepsToRest;
    EightSteps(4096, 3840, 3600, 3375, 3165, 2968, 2783, 2610, 2447);
    EightSteps(2447, 2295, 2152, 2018, 1892, 1774, 1664, 1560, 1463);
    EightSteps(1463, 1372, 1287, 1207, 1132, 1062, 996, 934, 876);
    EightSteps(876, 822, 771, 723, 678, 636, 597, 560, 525);
    EightSteps(525, 493, 463, 435, 408, 383, 360, 338, 317);
    EightSteps(317, 298, 280, 263, 247, 232, 218, 205, 193);
    EightSteps(193, 181, 170, 160, 150, 141, 133, 125, 118);
    EightSteps(118, 111, 105, 99, 93, 88, 83, 78, 74);
    EightSteps(74, 70, 66, 62, 59, 56, 53, 50, 47);
    EightSteps(47, 45, 43, 41, 39, 37, 35, 33, 31);
    EightSteps(31, 30, 29, 28, 27, 26, 25, 24, 23);
    EightSteps(23, 22, 21, 20, 19, 18, 17, 16, 15);
    AtRest(15);
  }

  /** Any cell, whatever it and its target are, is at rest within 96 measurements. */
  lemma RestsWithin96(b: nat, a: nat)
    requires a <= AMP_MAX && b <= AMP_MAX
    ensures StepsToRest(AbsDiff(a, b)) <= 96
  {
    FullScaleRests();
    RestIsMonotone(AbsDiff(a, b), AMP_MAX);
  }

  function Averaged(b: seq<nat>, a: seq<nat>): (r: seq<nat>)
    requires |a| == |b|
    ensures |r| == |b|
  {
    seq(|b|, k requires 0 <= k < |b| => Ewma(b[k], a[k]))
  }

  function AveragedMany(b: seq<nat>, a: seq<nat>, steps: nat): (r: seq<nat>)
    requires |a| == |b|
    ensures |r| == |b|
    decreases steps
  {
    if steps == 0 then b else AveragedMany(Averaged(b, a), a, steps - 1)
  }

  lemma {:induction false} AveragedManyAt(b: seq<nat>, a: seq<nat>, steps: nat, k: nat)
    requires |a| == |b| && k < |b|
    ensures AveragedMany(b, a, steps)[k] == EwmaMany(b[k], a[k], steps)
    decreases steps
  {
    if steps > 0 { AveragedManyAt(Averaged(b, a), a, steps - 1, k); }
  }

  /** Every cell within `e` of its target. */
  predicate Within(a: seq<nat>, b: seq<nat>, e: nat)
    requires |a| == |b|
  {
    forall k | 0 <= k < |a| :: AbsDiff(a[k], b[k]) <= e
  }

  lemma {:induction false} SumWithin(a: seq<nat>, b: seq<nat>, e: nat)
    requires |a| == |b| && Within(a, b, e)
    ensures AbsDiff(Sum(a), Sum(b)) <= e * |a|
  {
    if a != [] {
      assert AbsDiff(a[0], b[0]) <= e;
      forall k | 0 <= k < |a| - 1 ensures AbsDiff(a[1..][k], b[1..][k]) <= e {
        assert AbsDiff(a[k + 1], b[k + 1]) <= e;
      }
      SumWithin(a[1..], b[1..], e);
      Distribute(1, |a| - 1, e);
      MulCommute(e, |a|);
      MulCommute(e, |a| - 1);
    }
  }

  /** a_k * bTot - b_k * aTot == a_k * (bTot - aTot) + aTot * (a_k - b_k). */
  lemma TermWithin(x: nat, y: nat, aTot: nat, bTot: nat, e: nat, s: nat)
    requires AbsDiff(x, y) <= e && AbsDiff(aTot, bTot) <= s
    ensures AbsDiff(x * bTot, y * aTot) <= x * s + aTot * e
  {
    MulAbs(x, bTot, aTot);
    MulMonotone(x, AbsDiff(bTot, aTot), s);
    MulAbs(aTot, x, y);
    MulMonotone(aTot, AbsDiff(x, y), e);
    MulCommute(x, aTot);
    MulCommute(y, aTot);
  }

  lemma {:induction false} DistanceWithin(a: seq<nat>, b: seq<nat>, aTot: nat, bTot: nat, e: nat, s: nat)
    requires |a| == |b| && Within(a, b, e) && AbsDiff(aTot, bTot) <= s
    ensures Distance(a, b, aTot, bTot) <= Sum(a) * s + |a| * (aTot * e)
  {
    if a != [] {
      assert AbsDiff(a[0], b[0]) <= e;
      forall k | 0 <= k < |a| - 1 ensures AbsDiff(a[1..][k], b[1..][k]) <= e {
        assert AbsDiff(a[k + 1], b[k + 1]) <= e;
      }
      TermWithin(a[0], b[0], aTot, bTot, e, s);
      DistanceWithin(a[1..], b[1..], aTot, bTot, e, s);
      Distribute(a[0], Sum(a[1..]), s);
      Distribute(1, |a| - 1, aTot * e);
    }
  }

  lemma QuotientOfProducts(d: nat, aTot: nat, bTot: nat, w: nat)
    requires aTot > 0 && bTot > 0 && d <= aTot * w
    ensures aTot * bTot > 0 && 32767 * d / (aTot * bTot) <= 32767 * w / bTot
  {
    MulMonotone(aTot, 0, bTot);
    MulAssoc(aTot, 32767, w);
    MulAssoc(32767, aTot, w);
    DivCancel(32767 * w, bTot, aTot);
    DivMonotone(32767 * d, aTot * (32767 * w), aTot * bTot);
  }

  /** An average within 15 units of a buffer scores it at most 32767 * 30 * n / bTot. */
  lemma SettledScore(a: seq<nat>, b: seq<nat>)
    requires |a| == |b| && Within(a, b, 15) && Sum(b) > 0
    ensures ShapeScore(a, b) <= 32767 * (30 * |a|) / Sum(b)
  {
    hide Sum;
    hide Distance;
    hide Within;
    var aTot, bTot, n := Sum(a), Sum(b), |a|;
    if aTot > 0 {
      var d := Distance(a, b, aTot, bTot);
      SumWithin(a, b, 15);
      DistanceWithin(a, b, aTot, bTot, 15, 15 * n);
      MulAssoc(aTot, 15, n);
      MulAssoc(n, aTot, 15);
      MulCommute(n, aTot);
      QuotientOfProducts(d, aTot, bTot, 30 * n);
    }
  }

  /** A repeated buffer: once every cell has had the steps its distance needs, the score stays at or
      below 32767 * 30 * n / bTot, whatever the average was before. */
  lemma RepeatedBufferSettles(b: seq<nat>, a: seq<nat>, steps: nat)
    requires |a| == |b|
    requires forall k | 0 <= k < |a| :: StepsToRest(AbsDiff(a[k], b[k])) <= steps
    ensures var r := AveragedMany(b, a, steps);
            Within(a, r, 15) && (Sum(r) > 0 ==> ShapeScore(a, r) <= 32767 * (30 * |a|) / Sum(r))
  {
    var r := AveragedMany(b, a, steps);
    forall k | 0 <= k < |a| ensures AbsDiff(a[k], r[k]) <= 15 {
      AveragedManyAt(b, a, steps, k);
      EwmaConverges(b[k], a[k], steps);
    }
    if Sum(r) > 0 { SettledScore(a, r); }
  }

  /** So any buffer, repeated 96 times against any average in range, is settled. */
  lemma SettledAfter96(b: seq<nat>, a: seq<nat>, steps: nat)
    requires |a| == |b| && steps >= 96
    requires forall k | 0 <= k < |a| :: a[k] <= AMP_MAX && b[k] <= AMP_MAX
    ensures var r := AveragedMany(b, a, steps);
            Within(a, r, 15) && (Sum(r) > 0 ==> ShapeScore(a, r) <= 32767 * (30 * |a|) / Sum(r))
  {
    forall k | 0 <= k < |a| ensures StepsToRest(AbsDiff(a[k], b[k])) <= steps { RestsWithin96(b[k], a[k]); }
    RepeatedBufferSettles(b, a, steps);
  }

  lemma {:induction false} SameScoresZero(a: seq<nat>, b: seq<nat>, t: nat)
    requires a == b
    ensures Distance(a, b, t, t) == 0
  {
    if a != [] { SameScoresZero(a[1..], b[1..], t); }
  }

  /** Repeated from a restart, a buffer scores 0 forever. */
  lemma RepeatFromRestart(a: seq<nat>, steps: nat)
    ensures AveragedMany(a, a, steps) == a && ShapeScore(a, a) == 0
    decreases steps
  {
    SameScoresZero(a, a, Sum(a));
    assert Averaged(a, a) == a;
    if steps > 0 { RepeatFromRestart(a, steps - 1); }
  }

  // ----- the detector -----

  lemma {:induction false} SumAtMost(p: seq<nat>, c: nat)
    requires forall k | 0 <= k < |p| :: p[k] <= c
    ensures Sum(p) <= |p| * c
  {
    if p != [] {
      SumAtMost(p[1..], c);
      Distribute(1, |p| - 1, c);
    }
  }

  function SaturatingMul(x: u64, y: u64): u64 {
    if x * y > 0xFFFF_FFFF_FFFF_FFFF then 0xFFFF_FFFF_FFFF_FFFF else x * y
  }

  function ClampU16(x: nat): u16 { if x < 0xFFFF then x else 0xFFFF }

  /** What 64-bit arithmetic computes is the score: nothing overflows or saturates. */
  lemma NothingSaturates(a: seq<nat>, b: seq<nat>)
    requires |a| == |b| <= SAMPLED
    requires forall k | 0 <= k < |a| :: a[k] <= AMP_MAX && b[k] <= AMP_MAX
    requires Sum(a) > 0 && Sum(b) > 0
    ensures Sum(a) <= 131072 && Sum(b) <= 131072 && 0 < Sum(a) * Sum(b) <= 0x4_0000_0000
    ensures Distance(a, b, Sum(a), Sum(b)) <= 0x8_0000_0000
    ensures SaturatingMul(Distance(a, b, Sum(a), Sum(b)), 32767) / (Sum(a) * Sum(b)) == ShapeScore(a, b)
  {
    var aTot, bTot := Sum(a), Sum(b);
    SumAtMost(a, AMP_MAX);
    SumAtMost(b, AMP_MAX);
    DistanceBound(a, b, aTot, bTot);
    Product(aTot, bTot);
    MulCommute(aTot, bTot);
    MulMonotone(aTot, bTot, 131072);
    MulMonotone(131072, aTot, 131072);
    MulCommute(Distance(a, b, aTot, bTot), 32767);
  }

  /** Everything the policy remembers between measurements. */
  datatype Detector = Detector(base: seq<nat>, bufLen: nat, hold: nat, count: nat)

  function FreshDetector(): Detector { Detector(seq(SAMPLED, k => 0), 0, 0, 0) }

  /** A buffer is scored against the average and folded into it; the first of a length restarts it. */
  function Scored(d: Detector, buf: seq<i8>): (r: (Detector, u16))
    requires |d.base| == SAMPLED
    ensures |r.0.base| == SAMPLED && r.0.hold == d.hold && r.0.count == d.count
  {
    if |buf| < 2 then (d, 0)
    else
      var n, a := Taken(|buf|), Profile(buf);
      if d.bufLen != |buf| then (d.(base := a + d.base[n..], bufLen := |buf|), 0)
      else
        ScoreRange(a, d.base[..n]);
        (d.(base := Averaged(d.base[..n], a) + d.base[n..]), ShapeScore(a, d.base[..n]))
  }

  lemma SumFrom(p: seq<nat>, k: nat)
    requires k < |p|
    ensures Sum(p[k..]) == p[k] + Sum(p[k + 1..])
  {
    assert p[k..][1..] == p[k + 1..];
  }

  lemma SumEnds(p: seq<nat>)
    ensures Sum(p[0..]) == Sum(p) && Sum(p[|p|..]) == 0
  {
    assert p[0..] == p;
  }

  class ThresholdState {
    const base: array<nat>
    var bufLen: nat
    var holdUntilUs: u64

    constructor ()
      ensures Valid() && fresh(base) && bufLen == 0 && holdUntilUs == 0
      ensures forall k | 0 <= k < SAMPLED :: base[k] == 0
    {
      base := new nat[SAMPLED](_ => 0);
      bufLen, holdUntilUs := 0, 0;
    }

    ghost predicate Valid()
      reads this, base
    {
      base.Length == SAMPLED && forall k | 0 <= k < SAMPLED :: base[k] <= AMP_MAX
    }

    method Reset()
      requires Valid()
      modifies this, base
      ensures Valid() && bufLen == 0 && holdUntilUs == 0
      ensures forall k | 0 <= k < SAMPLED :: base[k] == 0
    {
      forall k | 0 <= k < SAMPLED { base[k] := 0; }
      bufLen, holdUntilUs := 0, 0;
    }

    /** The amplitude of one sampled pair. */
    static method SampleAt(buf: seq<i8>, k: nat, step: nat) returns (a: nat)
      requires |buf| >= 2 && k < Taken(|buf|) && step == Stride(|buf|)
      ensures a == Profile(buf)[k] <= AMP_MAX
    {
      ProfileAt(buf, k);
      hide Stride;
      hide Profile;
      var i := 2 * (k * step);
      a := (Abs(buf[i]) + Abs(buf[i + 1])) * 16;
    }

    /** The sampled amplitudes and the totals of both sides. */
    method Measure(buf: seq<i8>) returns (amp: array<nat>, aTot: u64, bTot: u64)
      requires Valid() && |buf| >= 2
      ensures fresh(amp) && amp.Length == SAMPLED && amp[..Taken(|buf|)] == Profile(buf)
      ensures aTot == Sum(Profile(buf)) && bTot == Sum(base[..Taken(|buf|)])
    {
      var n := Taken(|buf|);
      var step := Stride(|buf|);
      ghost var p, b := Profile(buf), base[..n];
      SumEnds(p);
      SumEnds(b);
      forall k | 0 <= k < n ensures p[k] <= AMP_MAX { ProfileAt(buf, k); }
      hide Sum;
      hide Stride;
      hide Profile;
      amp := new nat[SAMPLED](_ => 0);
      aTot, bTot := 0, 0;
      SumAtMost(p, AMP_MAX);
      SumAtMost(b, AMP_MAX);
      var k := 0;
      while k < n
        invariant 0 <= k <= n
        invariant forall j | 0 <= j < k :: amp[j] == p[j]
        invariant aTot + Sum(p[k..]) == Sum(p) && bTot + Sum(b[k..]) == Sum(b)
      {
        amp[k] := SampleAt(buf, k, step);
        assert amp[k] == p[k] && base[k] == b[k];
        SumFrom(p, k);
        SumFrom(b, k);
        aTot, bTot := aTot + amp[k], bTot + base[k];
        k := k + 1;
      }
    }

    /** Compare with the average and fold into it. */
    method Fold(amp: array<nat>, n: nat, aTot: u64, bTot: u64, restart: bool) returns (dist: u64)
      requires Valid() && n <= SAMPLED && amp.Length == SAMPLED && amp != base
      requires aTot <= 131072 && bTot <= 131072
      requires forall k | 0 <= k < n :: amp[k] <= AMP_MAX
      modifies base
      ensures Valid() && base[n..] == old(base[n..])
      ensures restart ==> base[..n] == amp[..n] && dist == 0
      ensures !restart ==>
                && base[..n] == Averaged(old(base[..n]), amp[..n])
                && dist == Distance(amp[..n], old(base[..n]), aTot, bTot)
    {
      ghost var a, b := amp[..n], base[..n];
      dist := 0;
      var k := 0;
      while k < n
        invariant 0 <= k <= n && Valid() && a == amp[..n]
        invariant forall j | k <= j < SAMPLED :: base[j] == old(base[j])
        invariant forall j | 0 <= j < k :: base[j] == if restart then a[j] else Ewma(b[j], a[j])
        invariant restart ==> dist == 0
        invariant !restart ==> dist + Distance(a[k..], b[k..], aTot, bTot) == Distance(a, b, aTot, bTot)
        invariant dist <= k * 0x2000_0000
      {
        assert amp[k] == a[k];
        if restart {
          base[k] := amp[k];
        } else {
          assert base[k] == b[k];
          assert a[k..][1..] == a[k + 1..] && b[k..][1..] == b[k + 1..];
          TermAtMost(amp[k], base[k], aTot, bTot);
          dist := dist + AbsDiff(amp[k] * bTot, base[k] * aTot);
          if amp[k] >= base[k] {
            base[k] := base[k] + (amp[k] - base[k]) / 16;
          } else {
            base[k] := base[k] - (base[k] - amp[k]) / 16;
          }
        }
        k := k + 1;
      }
    }

    /** Score a buffer against the average and fold it in. The first buffer of a length restarts
        the average and scores 0; one with no pair of samples changes nothing. */
    method Score(buf: seq<i8>) returns (r: u16)
      requires Valid()
      modifies this`bufLen, base
      ensures Valid()
      ensures |buf| < 2 ==> r == 0 && bufLen == old(bufLen) && base[..] == old(base[..])
      ensures |buf| >= 2 ==>
                var n, a := Taken(|buf|), Profile(buf);
                && bufLen == |buf| && base[n..] == old(base[n..])
                && if old(bufLen) != |buf| then r == 0 && base[..n] == a
                   else r == ShapeScore(a, old(base[..n])) && base[..n] == Averaged(old(base[..n]), a)
    {
      if |buf| / 2 == 0 { return 0; }
      var n := Taken(|buf|);
      ghost var a, b := Profile(buf), base[..n];
      ghost var was := base[..];
      hide Profile;
      hide Distance;
      hide Sum;
      hide ShapeScore;
      var restart := |buf| != bufLen;
      bufLen := |buf|;
      var amp, aTot, bTot := Measure(buf);
      SumAtMost(a, AMP_MAX);
      SumAtMost(b, AMP_MAX);
      forall k | 0 <= k < n ensures amp[k] <= AMP_MAX { assert amp[k] == a[k]; }
      var dist := Fold(amp, n, aTot, bTot, restart);
      if restart || aTot == 0 || bTot == 0 { return 0; }
      NothingSaturates(a, b);
      ScoreRange(a, b);
      var denom: u64 := aTot * bTot;
      var scaled: u64 := SaturatingMul(dist, 0xFFFF / 2) as int / denom;
      r := ClampU16(scaled);
    }

    /** Report a crossing and open a hold window; inside the window report everything. */
    method Decide(score: u16, level: u16, holdMs: u16, nowUs: u64) returns (report: bool)
      requires nowUs + holdMs * 1000 < 0x1_0000_0000_0000_0000
      modifies this`holdUntilUs
      ensures (holdUntilUs, report) ==
              Decided(old(holdUntilUs), Sample(score, nowUs), level, holdMs)
    {
      if score >= level {
        holdUntilUs := nowUs + holdMs * 1000;
        return true;
      }
      report := nowUs < holdUntilUs;
    }
  }

  lemma TermAtMost(x: nat, y: nat, aTot: nat, bTot: nat)
    requires x <= AMP_MAX && y <= AMP_MAX && aTot <= 131072 && bTot <= 131072
    ensures AbsDiff(x * bTot, y * aTot) <= 0x2000_0000
  {
    MulMonotone(x, bTot, 131072);
    MulMonotone(y, aTot, 131072);
    Product(x, bTot);
    Product(y, aTot);
  }

  // ----- the hold window over a run -----

  datatype Sample = Sample(score: u16, nowUs: u64)

  function Decided(hold: nat, s: Sample, level: u16, holdMs: u16): (nat, bool) {
    if s.score >= level then (s.nowUs + holdMs * 1000, true) else (hold, s.nowUs < hold)
  }

  function HoldAfter(ss: seq<Sample>, level: u16, holdMs: u16): nat {
    if ss == [] then 0
    else Decided(HoldAfter(ss[..|ss| - 1], level, holdMs), ss[|ss| - 1], level, holdMs).0
  }

  predicate Ordered(ss: seq<Sample>) {
    forall i, j | 0 <= i < j < |ss| :: ss[i].nowUs <= ss[j].nowUs
  }

  /** Measurement `j` crossed the level and its window still covers time `t`. */
  predicate Holds(ss: seq<Sample>, j: nat, level: u16, holdMs: u16, t: u64)
    requires j < |ss|
  {
    ss[j].score >= level && t < ss[j].nowUs + holdMs * 1000
  }

  lemma {:induction false} HoldCovers(ss: seq<Sample>, level: u16, holdMs: u16, t: u64)
    requires Ordered(ss)
    ensures t < HoldAfter(ss, level, holdMs) <==> exists j | 0 <= j < |ss| :: Holds(ss, j, level, holdMs, t)
  {
    if ss != [] {
      var n := |ss| - 1;
      var before := ss[..n];
      HoldCovers(before, level, holdMs, t);
      if Holds(ss, n, level, holdMs, t) {
      } else if j :| 0 <= j < |before| && Holds(before, j, level, holdMs, t) {
        assert Holds(ss, j, level, holdMs, t);
        assert ss[j].nowUs <= ss[n].nowUs;
      } else {
        forall j | 0 <= j < |ss| ensures !Holds(ss, j, level, holdMs, t) {
          if j < n && Holds(ss, j, level, holdMs, t) { assert Holds(before, j, level, holdMs, t); }
        }
      }
    }
  }

  /** Over a run in time order, a measurement is reported if and only if it crosses the level or
      lies in the hold window of some earlier crossing. */
  lemma ReportedIff(ss: seq<Sample>, level: u16, holdMs: u16)
    requires ss != [] && Ordered(ss)
    ensures var n := |ss| - 1;
            Decided(HoldAfter(ss[..n], level, holdMs), ss[n], level, holdMs).1 <==>
            ss[n].score >= level
            || exists j | 0 <= j < n :: ss[j].score >= level && ss[n].nowUs < ss[j].nowUs + holdMs * 1000
  {
    var n := |ss| - 1;
    HoldCovers(ss[..n], level, holdMs, ss[n].nowUs);
    if j :| 0 <= j < n && Holds(ss[..n], j, level, holdMs, ss[n].nowUs) { assert ss[j] == ss[..n][j]; }
    if j :| 0 <= j < n && ss[j].score >= level && ss[n].nowUs < ss[j].nowUs + holdMs * 1000 {
      assert Holds(ss[..n], j, level, holdMs, ss[n].nowUs);
    }
  }

  // ----- the decimator -----

  /** The counter after one measurement, and whether it is kept. */
  function Ticked(count: nat, n: u16): (nat, bool) {
    var m := if n > 1 then n else 1;
    (if count + 1 >= m then 0 else count + 1, count == 0)
  }

  function CountAfter(n: u16, i: nat): nat {
    if i == 0 then 0 else Ticked(CountAfter(n, i - 1), n).0
  }

  /** Of every `n` measurements exactly the first is kept; 0 is treated as 1. */
  lemma {:induction false} KeepsOneInN(n: u16, i: nat)
    ensures var m := if n > 1 then n else 1;
            CountAfter(n, i) == i % m && (Ticked(CountAfter(n, i), n).1 <==> i % m == 0)
  {
    var m := if n > 1 then n else 1;
    if i > 0 {
      KeepsOneInN(n, i - 1);
      ModSucc(i - 1, m);
    }
  }

  class Decimator {
    var count: u16

    constructor ()
      ensures count == 0
    {
      count := 0;
    }

    method Reset()
      modifies this
      ensures count == 0
    {
      count := 0;
    }

    /** The counter stays below the largest factor, so it does not overflow. */
    method Tick(n: u16) returns (keep: bool)
      requires count < 0xFFFF
      modifies this
      ensures (count, keep) == Ticked(old(count), n) && count < 0xFFFF
    {
      keep := count == 0;
      count := count + 1;
      if count >= (if n > 1 then n else 1) { count := 0; }
    }
  }
}
