/**
 How far the current weights of the balancer can stray when health changes at will. For any set of k out of n endpoints, twice the
 sum of their current weights is at least minus the total weight times k times n - k, whatever was called. With k = 1 and
 k = n - 1 this bounds each weight from both sides.
 */
module LoadBalancerBounds {
  import opened LoadBalancer

  /** The sum of c over the places below n that are marked, and their number. */
  function SumIn(c: seq<int>, m: seq<bool>, n: nat): int
    requires n <= |c| == |m|
  {
    if n == 0 then 0 else SumIn(c, m, n - 1) + if m[n - 1] then c[n - 1] else 0
  }

  function CountIn(m: seq<bool>, n: nat): (k: nat)
    requires n <= |m|
    ensures k <= n
  {
    if n == 0 then 0 else CountIn(m, n - 1) + if m[n - 1] then 1 else 0
  }

  ghost predicate BoundAt(c: seq<int>, total: int, m: seq<bool>)
    requires |m| == |c|
  {
    var k := CountIn(m, |m|);
    2 * SumIn(c, m, |c|) >= -(total * (k * (|c| - k)))
  }

  ghost predicate Bounded(c: seq<int>, total: int) {
    forall m: seq<bool> | |m| == |c| :: BoundAt(c, total, m)
  }

  /** The weights of all endpoints, healthy or not. */
  function AllWeights(eps: seq<Endpoint>): (w: seq<int>)
    ensures |w| == |eps| && forall i | 0 <= i < |eps| :: w[i] == eps[i].weight
  {
    seq(|eps|, i requires 0 <= i < |eps| => eps[i].weight)
  }

  function Capacity(eps: seq<Endpoint>): int {
    Sum(AllWeights(eps))
  }

  lemma TotalAtMost(eps: seq<Endpoint>)
    ensures 0 <= Total(eps) <= Capacity(eps)
  {
    SumBound(Weights(eps), AllWeights(eps), |eps|);
    var zeros := Zeros(|eps|);
    SumZeros(zeros, |eps|);
    SumBound(zeros, Weights(eps), |eps|);
  }

  lemma {:induction false} SumInMonotone(c: seq<int>, d: seq<int>, m: seq<bool>, n: nat)
    requires n <= |c| == |d| == |m| && forall i | 0 <= i < n && m[i] :: c[i] <= d[i]
    ensures SumIn(c, m, n) <= SumIn(d, m, n)
  {
    if n > 0 {
      SumInMonotone(c, d, m, n - 1);
    }
  }

  /** Taking one place out of the set. */
  lemma {:induction false} WithoutOne(c: seq<int>, m: seq<bool>, p: nat, n: nat)
    requires n <= |c| == |m| && p < |m| && m[p]
    ensures SumIn(c, m[p := false], n) == SumIn(c, m, n) - if p < n then c[p] else 0
    ensures CountIn(m[p := false], n) == CountIn(m, n) - if p < n then 1 else 0
  {
    if n > 0 {
      WithoutOne(c, m, p, n - 1);
    }
  }

  function Healthy(eps: seq<Endpoint>): (h: seq<bool>)
    ensures |h| == |eps|
  {
    seq(|eps|, i requires 0 <= i < |eps| => eps[i].healthy)
  }

  function Union(a: seq<bool>, b: seq<bool>): (r: seq<bool>)
    requires |a| == |b|
    ensures |r| == |a| && forall i | 0 <= i < |a| :: r[i] == (a[i] || b[i])
  {
    seq(|a|, i requires 0 <= i < |a| => a[i] || b[i])
  }

  function Minus(a: seq<bool>, b: seq<bool>): (r: seq<bool>)
    requires |a| == |b|
    ensures |r| == |a| && forall i | 0 <= i < |a| :: r[i] == (a[i] && !b[i])
  {
    seq(|a|, i requires 0 <= i < |a| => a[i] && !b[i])
  }

  lemma {:induction false} UnionSum(c: seq<int>, m: seq<bool>, h: seq<bool>, u: seq<bool>, d: seq<bool>, n: nat)
    requires n <= |c| == |m| == |h| && u == Union(m, h) && d == Minus(h, m)
    ensures SumIn(c, u, n) == SumIn(c, m, n) + SumIn(c, d, n)
    ensures CountIn(u, n) == CountIn(m, n) + CountIn(d, n)
  {
    if n > 0 {
      UnionSum(c, m, h, u, d, n - 1);
    }
  }

  /** A sum over places whose entries are all at most x. */
  lemma {:induction false} SumInAtMost(c: seq<int>, m: seq<bool>, x: int, n: nat)
    requires n <= |c| == |m| && forall i | 0 <= i < n && m[i] :: c[i] <= x
    ensures SumIn(c, m, n) <= Times(CountIn(m, n), x)
  {
    if n > 0 {
      SumInAtMost(c, m, x, n - 1);
    }
  }

  /** What a call adds over any set that holds all healthy endpoints is nothing. */
  lemma {:induction false} CallOver(eps: seq<Endpoint>, c: seq<int>, c': seq<int>, u: seq<bool>, p: nat, n: nat)
    requires n <= |eps| == |c| == |c'| == |u| && p < |eps|
    requires forall i | 0 <= i < |eps| && eps[i].healthy :: u[i]
    requires u[p] && forall i | 0 <= i < |eps| :: c'[i] == c[i] + Effective(eps[i]) - if i == p then Total(eps) else 0
    ensures SumIn(c', u, n) == SumIn(c, u, n) + SumTo(Weights(eps), n) - if p < n then Total(eps) else 0
  {
    if n > 0 {
      CallOver(eps, c, c', u, p, n - 1);
    }
  }

  lemma Identity(n: int, k: int, q: int)
    ensures (k + q) * (n - k - q) + q * ((k - 1) * (n - k + 1)) == (q + 1) * (k * (n - k)) - q * (q + 1)
  {
  }

  lemma Divide(q: int, x: int, y: int)
    requires q > 0 && q * x >= q * y
    ensures x >= y
  {
  }

  lemma Scale(q: int, x: int, y: int)
    requires q >= 0 && x >= y
    ensures q * x >= q * y
  {
  }

  lemma Expand(w: int, q: int, f: int, f1: int, f2: int)
    requires f2 + q * f1 == (q + 1) * f - q * (q + 1)
    ensures w * f2 + q * (w * f1) == (q + 1) * (w * f) - w * (q * (q + 1))
  {
    assert w * (f2 + q * f1) == w * ((q + 1) * f - q * (q + 1));
  }

  /** s is bounded by its two neighbours: a, with one member less, and b, with q members more. */
  lemma Balance(w: int, t: int, n: int, k: int, q: int, a: int, b: int, x: int)
    requires w >= t >= 0 && q >= 1
    requires 2 * a >= -(w * ((k - 1) * (n - k + 1))) && 2 * b >= -(w * ((k + q) * (n - k - q)))
    requires b <= a + x + q * (x + t)
    ensures 2 * (a + x) >= -(w * (k * (n - k)))
  {
    var s, f, f1, f2 := a + x, k * (n - k), (k - 1) * (n - k + 1), (k + q) * (n - k - q);
    Identity(n, k, q);
    Expand(w, q, f, f1, f2);
    Scale(q, 2 * a, -(w * f1));
    Scale(q, w, t);
    Distribute(q, s, a, t);
    Squares(w, q);
    SuccTimes(q, 2 * s);
    Negate(q, w * f1);
    Negate(q + 1, w * f);
    Twice(q, a);
    Twice(q, s);
    Linear(q * s, q * a, q * t, q * w, q * (w * f1), w * (q * (q + 1)), (q + 1) * (w * f), w * f2, b, s);
    Divide(q + 1, 2 * s, -(w * f));
  }

  lemma Distribute(q: int, s: int, a: int, t: int)
    ensures q * (s - a + t) == q * s - q * a + q * t
  {
  }

  lemma Squares(w: int, q: int)
    requires w >= 0 && q >= 1
    ensures w * (q * (q + 1)) >= 2 * (q * w)
  {
    assert q * (q + 1) == 2 * q + q * (q - 1);
    Scale(w, q * (q + 1), 2 * q);
    assert w * (2 * q) == 2 * (q * w);
  }

  lemma SuccTimes(q: int, x: int)
    ensures (q + 1) * x == q * x + x
  {
  }

  lemma Negate(q: int, x: int)
    ensures q * (-x) == -(q * x)
  {
  }

  lemma Twice(q: int, x: int)
    ensures q * (2 * x) == 2 * (q * x)
  {
  }

  lemma Linear(qs: int, qa: int, qt: int, qw: int, qf1: int, wqq: int, qf: int, f2: int, b: int, s: int)
    requires qw >= qt && 2 * qa >= -qf1 && 2 * b >= -f2 && b <= s + qs - qa + qt
    requires f2 + qf1 == qf - wqq && wqq >= 2 * qw
    ensures 2 * qs + 2 * s >= -qf
  {
  }

  /** No pick, no change. */
  lemma IdleCall(eps: seq<Endpoint>, c: seq<int>)
    requires |c| == |eps| && Choice(eps, c) < 0
    ensures Advance(eps, c) == c
  {
    BestIsFirstLargest(eps, Plus(c, Weights(eps)), |eps|);
  }

  /** What a call with a pick does, endpoint by endpoint. */
  ghost predicate Called(eps: seq<Endpoint>, c: seq<int>, c': seq<int>, p: nat) {
    && |c| == |c'| == |eps| && p < |eps| && eps[p].healthy
    && (forall i | 0 <= i < |eps| :: c'[i] == c[i] + Effective(eps[i]) - if i == p then Total(eps) else 0)
    && (forall i | 0 <= i < |eps| && eps[i].healthy && i != p :: c'[i] <= c'[p] + Total(eps))
  }

  lemma CalledBy(eps: seq<Endpoint>, c: seq<int>, p: nat)
    requires |c| == |eps| && Choice(eps, c) == p
    ensures Called(eps, c, Advance(eps, c), p)
  {
    var bumped := Plus(c, Weights(eps));
    BestIsFirstLargest(eps, bumped, |eps|);
    forall i | 0 <= i < |eps|
      ensures Advance(eps, c)[i] == c[i] + Effective(eps[i]) - if i == p then Total(eps) else 0
    {
      AdvanceAt(eps, c, i);
    }
  }

  /** A set without the picked endpoint gains. */
  lemma UnpickedBound(eps: seq<Endpoint>, c: seq<int>, c': seq<int>, p: nat, w: int, m: seq<bool>)
    requires Called(eps, c, c', p) && |m| == |c| && !m[p] && BoundAt(c, w, m)
    ensures BoundAt(c', w, m)
  {
    SumInMonotone(c, c', m, |c|);
  }

  /** A set with the picked endpoint is bounded by the same set without it and by the set with all healthy ones. */
  lemma PickedBound(eps: seq<Endpoint>, c: seq<int>, c': seq<int>, p: nat, w: int, m: seq<bool>)
    requires Called(eps, c, c', p) && |m| == |c| && m[p] && Bounded(c, w) && w >= Total(eps) >= 0
    ensures BoundAt(c', w, m)
  {
    var n, h := |c|, Healthy(eps);
    var without, u, d := m[p := false], Union(m, h), Minus(h, m);
    var k, q := CountIn(m, n), CountIn(d, n);
    WithoutOne(c', m, p, n);
    UnionSum(c', m, h, u, d, n);
    CallOver(eps, c, c', u, p, n);
    var a, b := SumIn(c', without, n), SumIn(c', u, n);
    assert BoundAt(c, w, u);
    if q == 0 {
      NoneMarked(c', d, n);
    } else {
      assert BoundAt(c, w, without);
      SumInMonotone(c, c', without, n);
      SumInAtMost(c', d, c'[p] + Total(eps), n);
      TimesIsProduct(q, c'[p] + Total(eps));
      assert CountIn(u, n) == k + q && CountIn(without, n) == k - 1;
      Balance(w, Total(eps), n, k, q, a, b, c'[p]);
    }
  }

  lemma {:induction false} NoneMarked(c: seq<int>, m: seq<bool>, n: nat)
    requires n <= |c| == |m| && CountIn(m, n) == 0
    ensures SumIn(c, m, n) == 0
  {
    if n > 0 {
      NoneMarked(c, m, n - 1);
    }
  }

  lemma CallBounded(eps: seq<Endpoint>, c: seq<int>, w: int)
    requires |c| == |eps| && Bounded(c, w) && w >= Total(eps) >= 0
    ensures Bounded(Advance(eps, c), w)
  {
    var p, c' := Choice(eps, c), Advance(eps, c);
    if p < 0 {
      IdleCall(eps, c);
    } else {
      CalledBy(eps, c, p);
      forall m: seq<bool> | |m| == |c'|
        ensures BoundAt(c', w, m)
      {
        if m[p] {
          PickedBound(eps, c, c', p, w, m);
        } else {
          assert BoundAt(c, w, m);
          UnpickedBound(eps, c, c', p, w, m);
        }
      }
    }
  }

  lemma SameCapacity(eps: seq<Endpoint>, eps': seq<Endpoint>)
    requires |eps| == |eps'| && forall i | 0 <= i < |eps| :: eps[i].weight == eps'[i].weight
    ensures Capacity(eps) == Capacity(eps')
  {
    assert AllWeights(eps) == AllWeights(eps');
  }

  lemma StepBounded(b: Balancer, op: Op)
    requires Sane(b) && Bounded(b.current, Capacity(b.endpoints))
    ensures Capacity(Step(b, op).endpoints) == Capacity(b.endpoints)
    ensures Bounded(Step(b, op).current, Capacity(b.endpoints))
  {
    SameCapacity(b.endpoints, Step(b, op).endpoints);
    TotalAtMost(b.endpoints);
    if op == Next {
      CallBounded(b.endpoints, b.current, Capacity(b.endpoints));
    }
  }

  lemma {:induction false} RunBounded(b: Balancer, ops: seq<Op>)
    requires Sane(b) && Bounded(b.current, Capacity(b.endpoints))
    ensures Sane(After(b, ops)) && Bounded(After(b, ops).current, Capacity(b.endpoints))
    ensures Capacity(After(b, ops).endpoints) == Capacity(b.endpoints)
    decreases |ops|
  {
    if ops != [] {
      StepKeepsSane(b, ops[0]);
      StepBounded(b, ops[0]);
      RunBounded(Step(b, ops[0]), ops[1..]);
    }
  }

  lemma {:induction false} ZeroSums(c: seq<int>, m: seq<bool>, n: nat)
    requires n <= |c| == |m| && forall i | 0 <= i < |c| :: c[i] == 0
    ensures SumIn(c, m, n) == 0
  {
    if n > 0 {
      ZeroSums(c, m, n - 1);
    }
  }

  lemma NonNegative(w: int, k: int, n: int)
    requires w >= 0 && 0 <= k <= n
    ensures w * (k * (n - k)) >= 0
  {
    assert k * (n - k) >= 0;
  }

  lemma StartBounded(configs: seq<Config>)
    ensures Bounded(New(configs).current, Capacity(New(configs).endpoints))
  {
    var b := New(configs);
    TotalAtMost(b.endpoints);
    forall m: seq<bool> | |m| == |b.current|
      ensures BoundAt(b.current, Capacity(b.endpoints), m)
    {
      ZeroSums(b.current, m, |m|);
      NonNegative(Capacity(b.endpoints), CountIn(m, |m|), |m|);
    }
  }

  function Only(i: nat, n: nat): (m: seq<bool>)
    ensures |m| == n
  {
    seq(n, j => j == i)
  }

  function AllBut(i: nat, n: nat): (m: seq<bool>)
    ensures |m| == n
  {
    seq(n, j => j != i)
  }

  lemma {:induction false} OneAndOthers(c: seq<int>, i: nat, n: nat)
    requires n <= |c| && i < |c|
    ensures SumIn(c, Only(i, |c|), n) == (if i < n then c[i] else 0) && CountIn(Only(i, |c|), n) == (if i < n then 1 else 0)
    ensures SumIn(c, AllBut(i, |c|), n) == SumTo(c, n) - (if i < n then c[i] else 0)
    ensures CountIn(AllBut(i, |c|), n) == n - if i < n then 1 else 0
  {
    if n > 0 {
      OneAndOthers(c, i, n - 1);
    }
  }

  lemma WeightWithin(c: seq<int>, w: int, i: nat)
    requires Bounded(c, w) && Sum(c) == 0 && i < |c|
    ensures -(w * (|c| - 1)) <= 2 * c[i] <= w * (|c| - 1)
  {
    var n := |c|;
    OneAndOthers(c, i, n);
    assert BoundAt(c, w, Only(i, n)) && BoundAt(c, w, AllBut(i, n));
    assert 1 * (n - 1) == n - 1 && (n - 1) * (n - (n - 1)) == n - 1;
  }

  /** Twice the farthest a current weight gets from zero. */
  function Swing(total: int, n: int): int {
    total * (n - 1)
  }

  lemma RunWithin(b: Balancer, ops: seq<Op>, i: nat, n: nat)
    requires Sane(b) && Bounded(b.current, Capacity(b.endpoints)) && i < n == |b.endpoints|
    ensures var w, c := Capacity(b.endpoints), After(b, ops).current;
            |c| == n && -Swing(w, n) <= 2 * c[i] <= Swing(w, n)
  {
    RunBounded(b, ops);
    WeightWithin(After(b, ops).current, Capacity(b.endpoints), i);
  }

  /**
   From construction on, under any mix of calls and changes of health, every current weight stays within half the total weight of
   all endpoints times their number less one, either way.
   */
  lemma MixedWeightBounds(configs: seq<Config>, ops: seq<Op>, i: nat)
    requires i < |configs|
    ensures
      var w, c := Capacity(New(configs).endpoints), After(New(configs), ops).current;
      |c| == |configs| && -Swing(w, |configs|) <= 2 * c[i] <= Swing(w, |configs|)
  {
    StartBounded(configs);
    RunWithin(New(configs), ops, i, |configs|);
  }

  lemma {:induction false} CapacityBound(eps: seq<Endpoint>, m: nat, n: nat)
    requires n <= |eps| && forall i | 0 <= i < |eps| :: eps[i].weight <= m
    ensures SumTo(AllWeights(eps), n) <= Times(n, m)
  {
    if n > 0 {
      CapacityBound(eps, m, n - 1);
    }
  }

  /** So with 32-bit weights and up to 2^15 endpoints no 64-bit integer overflows in any run. */
  lemma MixedFitsInt64(configs: seq<Config>, ops: seq<Op>, i: nat)
    requires i < |configs| <= 0x8000 && forall j | 0 <= j < |configs| :: configs[j].weight < 0x1_0000_0000
    ensures
      var b := After(New(configs), ops);
      && |b.current| == |b.endpoints| == |configs|
      && 0 <= Total(b.endpoints) < 0x8000_0000_0000_0000
      && -0x4000_0000_0000_0000 < b.current[i] < 0x4000_0000_0000_0000
      && b.current[i] + b.endpoints[i].weight < 0x8000_0000_0000_0000
      && b.current[i] + b.endpoints[i].weight - Total(b.endpoints) > -0x8000_0000_0000_0000
  {
    var start, b := New(configs), After(New(configs), ops);
    var n, w := |configs|, Capacity(start.endpoints);
    MixedWeightBounds(configs, ops, i);
    StartBounded(configs);
    RunBounded(start, ops);
    MixedRun(start, ops, i);
    TotalAtMost(b.endpoints);
    SmallCapacity(start.endpoints, n);
    ProductBound(w, n - 1, 0x7fff_ffff_8000, 0x7fff);
  }

  lemma SmallCapacity(eps: seq<Endpoint>, n: nat)
    requires n == |eps| <= 0x8000 && forall i | 0 <= i < |eps| :: eps[i].weight <= 0xffff_ffff
    ensures 0 <= Capacity(eps) <= 0x7fff_ffff_8000
  {
    TotalAtMost(eps);
    CapacityBound(eps, 0xffff_ffff, n);
    TimesIsProduct(n, 0xffff_ffff);
    ProductBound(n, 0xffff_ffff, 0x8000, 0xffff_ffff);
  }
}
