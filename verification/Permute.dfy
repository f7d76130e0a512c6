/** The in-place block exchange of the option parser: `gcd` and `permute_args`.
  *
  * The exchange walks gcd(n, m) cycles of (n + m) / gcd(n, m) slots each.  A slot of the
  * i-th cycle is written `start + i + t * g`; in the coordinate `t` one step of the walk adds
  * `m / g` modulo `(n + m) / g`, which is invertible because n / g and m / g are coprime. */
module Permute {
  import opened Arith

  // ---- greatest common divisor ----

  ghost predicate IsGcd(g: int, a: int, b: int) {
    && g > 0 && a % g == 0 && b % g == 0
    && forall d: int {:trigger a % d} :: d > 0 && a % d == 0 && b % d == 0 ==> d <= g
  }

  ghost predicate BezoutWitness(g: int, a: int, b: int, qa: int, qb: int, u: int, v: int) {
    g > 0 && a == qa * g && b == qb * g && u * a + v * b == g
  }

  /** A Bezout combination that is a common divisor is the greatest one. */
  lemma BezoutIsGcd(g: int, a: int, b: int, qa: int, qb: int, u: int, v: int)
    requires BezoutWitness(g, a, b, qa, qb, u, v)
    ensures IsGcd(g, a, b)
  {
    ModUnique(a, qa, 0, g);
    ModUnique(b, qb, 0, g);
    forall d: int {:trigger a % d} | d > 0 && a % d == 0 && b % d == 0
      ensures d <= g
    {
      CommonDivisorAtMost(d, g, a, b, u, v);
    }
  }

  lemma CommonDivisorAtMost(d: int, g: int, a: int, b: int, u: int, v: int)
    requires d > 0 && g > 0 && a % d == 0 && b % d == 0 && u * a + v * b == g
    ensures d <= g
  {
    var x, y := a / d, b / d;
    DivMod(a, d);
    DivMod(b, d);
    MulAssoc(u, x, d);
    MulAssoc(v, y, d);
    var k := u * x + v * y;
    MulDistrib(u * x, v * y, d);
    assert g == k * d;
    if k <= 0 {
      MulMonotone(k, 0, d);
    } else {
      MulAtLeast(k, d);
    }
  }

  /** Euclid's loop.  The ghost results are the quotients and the Bezout coefficients. */
  method Gcd(a: int, b: int) returns (g: int, ghost qa: int, ghost qb: int, ghost u: int, ghost v: int)
    requires a >= 0 && b > 0
    ensures IsGcd(g, a, b)
    ensures BezoutWitness(g, a, b, qa, qb, u, v)
  {
    var x, y := a, b;
    var c := x % y;
    // x == ux*a + vx*b, y == uy*a + vy*b, and back: a == ax*x + ay*y, b == bx*x + by_*y
    ghost var ux, vx, uy, vy := 1, 0, 0, 1;
    ghost var ax, ay, bx, by_ := 1, 0, 0, 1;
    while c != 0
      invariant x >= 0 && y > 0 && c == x % y
      invariant x == ux * a + vx * b && y == uy * a + vy * b
      invariant a == ax * x + ay * y && b == bx * x + by_ * y
      decreases c
    {
      ghost var k := x / y;
      DivMod(x, y);
      EuclidStep(a, b, x, y, c, k, ux, vx, uy, vy, ax, ay, bx, by_);
      ux, vx, uy, vy := uy, vy, ux - k * uy, vx - k * vy;
      ax, ay, bx, by_ := ax * k + ay, ax, bx * k + by_, bx;
      x := y;
      y := c;
      c := x % y;
    }
    g := y;
    ghost var k := x / y;
    DivMod(x, y);
    EuclidStep(a, b, x, y, c, k, ux, vx, uy, vy, ax, ay, bx, by_);
    qa, qb, u, v := ax * k + ay, bx * k + by_, uy, vy;
    BezoutIsGcd(g, a, b, qa, qb, u, v);
  }

  lemma EuclidStep(a: int, b: int, x: int, y: int, c: int, k: int, ux: int, vx: int, uy: int, vy: int,
                   ax: int, ay: int, bx: int, by_: int)
    requires x == k * y + c
    requires x == ux * a + vx * b && y == uy * a + vy * b
    requires a == ax * x + ay * y && b == bx * x + by_ * y
    ensures c == (ux - k * uy) * a + (vx - k * vy) * b
    ensures a == (ax * k + ay) * y + ax * c && b == (bx * k + by_) * y + bx * c
  {
    Remainder(a, b, x, y, c, k, ux, vx, uy, vy);
    Substitute(a, x, y, c, k, ax, ay);
    Substitute(b, x, y, c, k, bx, by_);
  }

  lemma Remainder(a: int, b: int, x: int, y: int, c: int, k: int, ux: int, vx: int, uy: int, vy: int)
    requires x == k * y + c && x == ux * a + vx * b && y == uy * a + vy * b
    ensures c == (ux - k * uy) * a + (vx - k * vy) * b
  {
    MulDistrib(ux, k * uy, a);
    MulDistrib(vx, k * vy, b);
    MulAssoc(k, uy, a);
    MulAssoc(k, vy, b);
    MulDistrib(uy * a, vy * b, k);
  }

  lemma Substitute(a: int, x: int, y: int, c: int, k: int, ax: int, ay: int)
    requires x == k * y + c && a == ax * x + ay * y
    ensures a == (ax * k + ay) * y + ax * c
  {
    MulDistrib(k * y, c, ax);
    MulAssoc(ax, k, y);
    MulDistrib(ax * k, ay, y);
  }

  // ---- modular arithmetic of one cycle ----

  /** How many steps after slot 0 the walk reaches slot `t`: division by m' modulo l. */
  ghost function When(t: int, inv: int, l: int): int
    requires l > 0
  {
    (t * inv) % l
  }

  ghost predicate Inverse(inv: int, m: int, l: int) {
    l > 0 && exists k :: inv * m == 1 + k * l
  }

  lemma WhenNext(t: int, inv: int, m: int, l: int)
    requires Inverse(inv, m, l) && l > 0
    ensures When((t + m) % l, inv, l) == (When(t, inv, l) + 1) % l
  {
    var k :| inv * m == 1 + k * l;
    var q, r := (t + m) / l, (t + m) % l;
    var q2, w := (t * inv) / l, (t * inv) % l;
    DivMod(t + m, l);
    DivMod(t * inv, l);
    MulDistrib(t + m, q * l, inv);
    MulDistrib(t, m, inv);
    SwapFactors(q, l, inv);
    MulDistrib(q2, k, l);
    MulDistrib(q2 + k, q * inv, l);
    assert r * inv == (w + 1) + (q2 + k - q * inv) * l;
    ModMultiple(w + 1, q2 + k - q * inv, l);
  }

  lemma WhenInjective(t: int, t': int, inv: int, m: int, l: int)
    requires Inverse(inv, m, l) && 0 <= t < l && 0 <= t' < l
    requires When(t, inv, l) == When(t', inv, l)
    ensures t == t'
  {
    WhenInverse(t, inv, m, l);
    WhenInverse(t', inv, m, l);
  }

  lemma WhenInverse(t: int, inv: int, m: int, l: int)
    requires Inverse(inv, m, l) && 0 <= t < l
    ensures (When(t, inv, l) * m) % l == t
  {
    var k :| inv * m == 1 + k * l;
    var q, w := (t * inv) / l, (t * inv) % l;
    DivMod(t * inv, l);
    MulDistrib(t * inv, q * l, m);
    MulAssoc(t, inv, m);
    MulDistrib(1, k * l, t);
    MulAssoc(t, k, l);
    SwapFactors(q, l, m);
    MulDistrib(t * k, q * m, l);
    assert w * m == t + (t * k - q * m) * l;
    ModMultiple(t, t * k - q * m, l);
    ModUnique(t, 0, t, l);
  }

  /** The geometry of one run: block sizes n and m, their gcd g, and the inverse used by When. */
  datatype Geometry = Geometry(start: int, n: int, m: int, g: int, n': int, m': int, inv: int) {
    ghost predicate Valid() {
      && start >= 0 && n >= 0 && m > 0 && g > 0
      && n == n' * g && m == m' * g && n' >= 0 && m' > 0
      && Inverse(inv, m', n' + m')
    }

    ghost function Len(): int { n' + m' }

    /** The slot with coordinate t on cycle i. */
    ghost function Slot(i: int, t: int): int { start + i + t * g }

    ghost function Next(t: int): int { if t >= n' then t - n' else t + m' }

    ghost function Prev(t: int): int { if t >= m' then t - m' else t + n' }
  }

  /** t < k exactly when i + t * g < k * g, for an offset i below g. */
  lemma ScaleBelow(i: int, t: int, k: int, g: int)
    requires 0 <= i < g
    ensures t < k <==> i + t * g < k * g
  {
    if t < k {
      MulMonotone(t + 1, k, g);
      MulDistrib(t, 1, g);
    } else {
      MulMonotone(k, t, g);
    }
  }

  lemma SlotBounds(gm: Geometry, i: int, t: int)
    requires gm.Valid() && 0 <= i < gm.g && 0 <= t < gm.Len()
    ensures gm.start <= gm.Slot(i, t) < gm.start + gm.n + gm.m
    ensures gm.Slot(i, t) >= gm.start + gm.n <==> t >= gm.n'
    ensures gm.Slot(i, t) >= gm.start + gm.m <==> t >= gm.m'
  {
    MulNonneg(t, gm.g);
    ScaleBelow(i, t, gm.n', gm.g);
    ScaleBelow(i, t, gm.m', gm.g);
    ScaleBelow(i, t, gm.Len(), gm.g);
    MulDistrib(gm.n', gm.m', gm.g);
  }

  lemma NextSlot(gm: Geometry, i: int, t: int)
    requires gm.Valid() && 0 <= i < gm.g && 0 <= t < gm.Len()
    ensures 0 <= gm.Next(t) < gm.Len() && gm.Prev(gm.Next(t)) == t
    ensures gm.Slot(i, t) >= gm.start + gm.n <==> t >= gm.n'
    ensures gm.Slot(i, gm.Next(t)) == if t >= gm.n' then gm.Slot(i, t) - gm.n else gm.Slot(i, t) + gm.m
    ensures gm.start <= gm.Slot(i, t) < gm.start + gm.n + gm.m
    ensures When(gm.Next(t), gm.inv, gm.Len()) == (When(t, gm.inv, gm.Len()) + 1) % gm.Len()
  {
    SlotBounds(gm, i, t);
    MulDistrib(t, gm.n', gm.g);
    MulDistrib(t, gm.m', gm.g);
    NextWhen(gm, t);
  }

  lemma NextWhen(gm: Geometry, t: int)
    requires gm.Valid() && 0 <= t < gm.Len()
    ensures When(gm.Next(t), gm.inv, gm.Len()) == (When(t, gm.inv, gm.Len()) + 1) % gm.Len()
  {
    hide When, Inverse;
    var l := gm.Len();
    if t < gm.n' {
      ModUnique(t + gm.m', 0, t + gm.m', l);
    } else {
      ModUnique(t + gm.m', 1, t - gm.n', l);
    }
    WhenNext(t, gm.inv, gm.m', l);
  }

  lemma SlotInjective(gm: Geometry, i: int, t: int, t': int)
    requires gm.Valid() && gm.Slot(i, t) == gm.Slot(i, t')
    ensures t == t'
  {
    MulDistrib(t, t', gm.g);
    MulDistrib(t', t, gm.g);
    if t > t' { MulAtLeast(t - t', gm.g); }
    if t < t' { MulAtLeast(t' - t, gm.g); }
  }

  /** Slot n' is the start of each cycle, and the last one its walk writes. */
  lemma StartIsLast(gm: Geometry)
    requires gm.Valid()
    ensures 0 <= gm.n' < gm.Len()
    ensures When(gm.n', gm.inv, gm.Len()) == gm.Len() - 1
    ensures When(0, gm.inv, gm.Len()) == 0
  {
    NextWhen(gm, gm.n');
    var l, w := gm.Len(), When(gm.n', gm.inv, gm.Len());
    ModUnique(0, 0, 0, l);
    if w + 1 < l { ModUnique(w + 1, 0, w + 1, l); }
  }

  /** What has been written after j steps on cycle i: `s0` is the array before this cycle, `s` now. */
  ghost predicate CycleState<T>(gm: Geometry, i: int, j: int, t: int, s0: seq<T>, s: seq<T>)
    requires gm.Valid() && 0 <= i < gm.g && |s| == |s0| && gm.start + gm.n + gm.m <= |s|
  {
    var l := gm.Len();
    && 0 <= j <= l && 0 <= t < l
    && (When(t, gm.inv, l) + 1) % l == j % l
    && (forall t' | 0 <= t' < l && When(t', gm.inv, l) < j :: SlotHolds(gm, i, s, t', s0, gm.Prev(t')))
    && (j < l ==> SlotHolds(gm, i, s, gm.n', s0, t))
    && (forall t' | 0 <= t' < l && t' != gm.n' && When(t', gm.inv, l) >= j :: SlotHolds(gm, i, s, t', s0, t'))
    && SameOutsideCycle(gm, i, s0, s)
  }

  ghost predicate SlotHolds<T>(gm: Geometry, i: int, s: seq<T>, t: int, s0: seq<T>, t0: int) {
    && 0 <= gm.Slot(i, t) < |s| && 0 <= gm.Slot(i, t0) < |s0|
    && s[gm.Slot(i, t)] == s0[gm.Slot(i, t0)]
  }

  ghost predicate OnCycle(gm: Geometry, i: int, q: int)
    requires gm.g > 0
  {
    gm.start <= q < gm.start + gm.n + gm.m && (q - gm.start) % gm.g == i
  }

  ghost predicate SameOutsideCycle<T>(gm: Geometry, i: int, s0: seq<T>, s: seq<T>)
    requires gm.g > 0 && |s| == |s0|
  {
    forall q | 0 <= q < |s| && !OnCycle(gm, i, q) :: s[q] == s0[q]
  }

  lemma SlotOnCycle(gm: Geometry, i: int, t: int)
    requires gm.Valid() && 0 <= i < gm.g && 0 <= t < gm.Len()
    ensures OnCycle(gm, i, gm.Slot(i, t))
  {
    NextSlot(gm, i, t);
    ModMultiple(i, t, gm.g);
    ModUnique(i, 0, i, gm.g);
  }

  lemma CycleBegins<T>(gm: Geometry, i: int, s: seq<T>)
    requires gm.Valid() && 0 <= i < gm.g && gm.start + gm.n + gm.m <= |s|
    ensures CycleState(gm, i, 0, gm.n', s, s)
  {
    StartIsLast(gm);
    ModUnique(gm.Len(), 1, 0, gm.Len());
    ModUnique(0, 0, 0, gm.Len());
    forall t' | 0 <= t' < gm.Len()
      ensures SlotHolds(gm, i, s, t', s, t')
    {
      NextSlot(gm, i, t');
    }
  }

  /** One swap with the cycle's start slot advances the cycle by one step. */
  lemma CycleStep<T>(gm: Geometry, i: int, j: int, t: int, s0: seq<T>, s: seq<T>, s': seq<T>)
    requires gm.Valid() && 0 <= i < gm.g && |s| == |s0| == |s'| && gm.start + gm.n + gm.m <= |s|
    requires CycleState(gm, i, j, t, s0, s) && j < gm.Len()
    requires var p, c := gm.Slot(i, gm.Next(t)), gm.Slot(i, gm.n');
             0 <= p < |s| && 0 <= c < |s| && s' == s[p := s[c]][c := s[p]]
    ensures CycleState(gm, i, j + 1, gm.Next(t), s0, s')
  {
    var l, t1 := gm.Len(), gm.Next(t);
    var p, c := gm.Slot(i, t1), gm.Slot(i, gm.n');
    NextSlot(gm, i, t);
    StartIsLast(gm);
    ModUnique(j, 0, j, l);
    assert When(t1, gm.inv, l) == j;
    SlotOnCycle(gm, i, t1);
    SlotOnCycle(gm, i, gm.n');
    if t1 == gm.n' {
      assert s' == s;
    } else if j == l - 1 {
      WhenInjective(t1, gm.n', gm.inv, gm.m', l);
    }
    forall t' | 0 <= t' < l && t' != t1 && t' != gm.n'
      ensures gm.Slot(i, t') != p && gm.Slot(i, t') != c && When(t', gm.inv, l) != j
    {
      if gm.Slot(i, t') == p { SlotInjective(gm, i, t', t1); }
      if gm.Slot(i, t') == c { SlotInjective(gm, i, t', gm.n'); }
      if When(t', gm.inv, l) == j { WhenInjective(t', t1, gm.inv, gm.m', l); }
    }
    forall t' | 0 <= t' < l && When(t', gm.inv, l) < j + 1
      ensures SlotHolds(gm, i, s', t', s0, gm.Prev(t'))
    {
      if When(t', gm.inv, l) == j {
        WhenInjective(t', t1, gm.inv, gm.m', l);
      }
    }
  }

  lemma CoordinateOf(gm: Geometry, i: int, q: int)
    requires gm.Valid() && OnCycle(gm, i, q)
    ensures var t := (q - gm.start) / gm.g; 0 <= t < gm.Len() && q == gm.Slot(i, t)
  {
    var t := (q - gm.start) / gm.g;
    DivMod(q - gm.start, gm.g);
    ScaleBelow(i, t, gm.Len(), gm.g);
    ScaleBelow(i, t, 0, gm.g);
    MulDistrib(gm.n', gm.m', gm.g);
  }

  /** A finished cycle has every slot from its predecessor: the walk covered the whole cycle. */
  lemma CycleEnds<T>(gm: Geometry, i: int, t: int, s0: seq<T>, s: seq<T>)
    requires gm.Valid() && 0 <= i < gm.g && |s| == |s0| && gm.start + gm.n + gm.m <= |s|
    requires CycleState(gm, i, gm.Len(), t, s0, s)
    ensures forall q {:trigger s[q]} | 0 <= q < |s| && OnCycle(gm, i, q) :: s[q] == s0[Source(gm, q)]
  {
    forall q {:trigger s[q]} | 0 <= q < |s| && OnCycle(gm, i, q)
      ensures s[q] == s0[Source(gm, q)]
    {
      var r := q - gm.start;
      var t' := r / gm.g;
      CoordinateOf(gm, i, q);
      assert When(t', gm.inv, gm.Len()) < gm.Len();
      assert SlotHolds(gm, i, s, t', s0, gm.Prev(t'));
      PrevSlot(gm, i, t');
    }
  }

  /** The slot whose content belongs at q after the exchange. */
  ghost function Source(gm: Geometry, q: int): (p: int)
    requires gm.Valid() && gm.start <= q < gm.start + gm.n + gm.m
    ensures gm.start <= p < gm.start + gm.n + gm.m
  {
    if q - gm.start >= gm.m then q - gm.m else q + gm.n
  }

  lemma PrevSlot(gm: Geometry, i: int, t: int)
    requires gm.Valid() && 0 <= i < gm.g && 0 <= t < gm.Len()
    ensures gm.start <= gm.Slot(i, t) < gm.start + gm.n + gm.m
    ensures gm.Slot(i, gm.Prev(t)) == Source(gm, gm.Slot(i, t))
  {
    SlotBounds(gm, i, t);
    MulDistrib(t, gm.m', gm.g);
    MulDistrib(t, gm.n', gm.g);
  }

  lemma GeometryInverse(start: int, n: int, m: int, g: int, n': int, m': int, u: int, v: int) returns (inv: int)
    requires start >= 0 && n >= 0 && m > 0 && BezoutWitness(g, n, m, n', m', u, v)
    ensures Geometry(start, n, m, g, n', m', inv).Valid()
    ensures (n + m) / g == n' + m'
  {
    QuotientSign(n, n', g);
    QuotientSign(m, m', g);
    MulAssoc(u, n', g);
    MulAssoc(v, m', g);
    MulDistrib(u * n', v * m', g);
    var k := u * n' + v * m';
    assert k * g == g;
    MulDistrib(k, 1, g);
    MulDistrib(1, k, g);
    if k > 1 { MulAtLeast(k - 1, g); }
    if k < 1 { MulAtLeast(1 - k, g); }
    inv := v - u;
    MulDistrib(v, u, m');
    MulDistrib(n', m', -u);
    assert inv * m' == 1 + (-u) * (n' + m');
    MulDistrib(n', m', g);
    ModUnique(n + m, n' + m', 0, g);
  }

  lemma QuotientSign(n: int, k: int, g: int)
    requires g > 0 && n == k * g && n >= 0
    ensures k >= 0 && (n > 0 ==> k > 0)
  {
    if k < 0 {
      MulAtLeast(-k, g);
      MulDistrib(0, k, g);
    }
  }

  /** The array with the blocks [start, mid) and [mid, end) exchanged, each keeping its order. */
  function Exchanged<T>(s: seq<T>, start: int, mid: int, end: int): (t: seq<T>)
    requires 0 <= start <= mid <= end <= |s|
    ensures |t| == |s|
  {
    s[..start] + s[mid..end] + s[start..mid] + s[end..]
  }

  /** The slots of the first i cycles hold their final content, the others their original one. */
  ghost predicate CyclesDone<T>(gm: Geometry, i: int, was: seq<T>, s: seq<T>)
    requires gm.Valid() && |was| == |s| && gm.start + gm.n + gm.m <= |s|
  {
    forall q | 0 <= q < |s| :: s[q] ==
      if gm.start <= q < gm.start + gm.n + gm.m && (q - gm.start) % gm.g < i then was[Source(gm, q)] else was[q]
  }

  /** The inner loop of `permute_args`: walks the i-th cycle from its start slot, swapping each slot
    * it reaches with the start slot. */
  method WalkCycle<T>(i: int, panonoptEnd: int, nnonopts: int, nopts: int, cyclelen: int, nargv: array<T>,
                      ghost gm: Geometry)
    requires gm.Valid() && 0 <= i < gm.g && cyclelen == gm.Len() && nnonopts == gm.n && nopts == gm.m
    requires panonoptEnd == gm.start + gm.n && panonoptEnd + nopts <= nargv.Length
    modifies nargv
    ensures forall q {:trigger nargv[..][q]} | 0 <= q < nargv.Length ::
              nargv[..][q] == old(nargv[..])[if OnCycle(gm, i, q) then Source(gm, q) else q]
  {
    ghost var before := nargv[..];
    var cstart := panonoptEnd + i;
    var pos := cstart;
    ghost var t := gm.n';
    CycleBegins(gm, i, before);
    StartIsLast(gm);
    SlotBounds(gm, i, gm.n');
    assert cstart == gm.Slot(i, gm.n');
    var j := 0;
    while j < cyclelen
      invariant 0 <= j <= cyclelen && 0 <= t < gm.Len() && pos == gm.Slot(i, t)
      invariant CycleState(gm, i, j, t, before, nargv[..])
    {
      ghost var s := nargv[..];
      NextSlot(gm, i, t);
      SlotBounds(gm, i, gm.Next(t));
      if pos >= panonoptEnd {
        pos := pos - nnonopts;
      } else {
        pos := pos + nopts;
      }
      var swap := nargv[pos];
      nargv[pos] := nargv[cstart];
      nargv[cstart] := swap;
      assert nargv[..] == s[pos := s[cstart]][cstart := s[pos]];
      CycleStep(gm, i, j, t, before, s, nargv[..]);
      t := gm.Next(t);
      j := j + 1;
    }
    CycleEnds(gm, i, t, before, nargv[..]);
  }

  /** `permute_args`: exchanges two adjacent blocks of the argument vector in place.  The second
    * block must not be empty, since its length divides; the first may be. */
  method PermuteArgs<T>(panonoptStart: int, panonoptEnd: int, optEnd: int, nargv: array<T>)
    requires 0 <= panonoptStart <= panonoptEnd < optEnd <= nargv.Length
    modifies nargv
    ensures nargv[..] == Exchanged(old(nargv[..]), panonoptStart, panonoptEnd, optEnd)
  {
    var nnonopts := panonoptEnd - panonoptStart;
    var nopts := optEnd - panonoptEnd;
    var ncycle, n', m', u, v := Gcd(nnonopts, nopts);
    var cyclelen := (optEnd - panonoptStart) / ncycle;
    ghost var inv := GeometryInverse(panonoptStart, nnonopts, nopts, ncycle, n', m', u, v);
    ghost var gm := Geometry(panonoptStart, nnonopts, nopts, ncycle, n', m', inv);
    ghost var was := nargv[..];
    NoneDone(gm, was);
    var i := 0;
    while i < ncycle
      invariant 0 <= i <= ncycle
      invariant CyclesDone(gm, i, was, nargv[..])
    {
      ghost var before := nargv[..];
      WalkCycle(i, panonoptEnd, nnonopts, nopts, cyclelen, nargv, gm);
      CycleDisjoint(gm, i, was, before, nargv[..]);
      i := i + 1;
    }
    ExchangedAt(gm, was, nargv[..], panonoptEnd, optEnd);
  }

  lemma NoneDone<T>(gm: Geometry, was: seq<T>)
    requires gm.Valid() && gm.start + gm.n + gm.m <= |was|
    ensures CyclesDone(gm, 0, was, was)
  {
    forall q {:trigger Source(gm, q)} | gm.start <= q < gm.start + gm.n + gm.m
      ensures (q - gm.start) % gm.g >= 0
    {
      DivMod(q - gm.start, gm.g);
    }
  }

  /** Cycles are disjoint: a slot is on cycle i exactly when its offset is i modulo g. */
  lemma CycleDisjoint<T>(gm: Geometry, i: int, was: seq<T>, before: seq<T>, after: seq<T>)
    requires gm.Valid() && 0 <= i < gm.g && |was| == |before| == |after| && gm.start + gm.n + gm.m <= |was|
    requires forall q {:trigger after[q]} | 0 <= q < |after| ::
               after[q] == before[if OnCycle(gm, i, q) then Source(gm, q) else q]
    requires CyclesDone(gm, i, was, before)
    ensures CyclesDone(gm, i + 1, was, after)
  {
    forall q | OnCycle(gm, i, q)
      ensures OnCycle(gm, i, Source(gm, q))
    {
      SourceSameCycle(gm, i, q);
    }
  }

  lemma SourceSameCycle(gm: Geometry, i: int, q: int)
    requires gm.Valid() && OnCycle(gm, i, q)
    ensures OnCycle(gm, i, Source(gm, q))
  {
    ModMultiple(q - gm.start, -gm.m', gm.g);
    ModMultiple(q - gm.start, gm.n', gm.g);
    assert -gm.m' * gm.g == -gm.m;
  }

  lemma ExchangedAt<T>(gm: Geometry, was: seq<T>, now: seq<T>, mid: int, end: int)
    requires gm.Valid() && |was| == |now| && gm.start + gm.n == mid && mid + gm.m == end <= |was|
    requires CyclesDone(gm, gm.g, was, now)
    ensures now == Exchanged(was, gm.start, mid, end)
  {
    forall q {:trigger Source(gm, q)} | gm.start <= q < gm.start + gm.n + gm.m
      ensures (q - gm.start) % gm.g < gm.g
    {
      DivMod(q - gm.start, gm.g);
    }
  }
}
