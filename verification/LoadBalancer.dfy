/**
 Smooth weighted round robin (src/load_balancer.cpp). One call of next adds every healthy endpoint's weight to its current
 weight, picks the first largest and takes the total off it again. With a fixed set of healthy endpoints this is exactly
 fair: in every period of as many calls as the total weight, each endpoint is picked as often as its weight says.
 */
module LoadBalancer {
  datatype Endpoint = Endpoint(name: string, weight: nat, healthy: bool, totalRequests: nat)

  function Max1(w: nat): nat {
    if w >= 1 then w else 1
  }

  function SumTo(s: seq<int>, n: nat): int
    requires n <= |s|
  {
    if n == 0 then 0 else SumTo(s, n - 1) + s[n - 1]
  }

  function Sum(s: seq<int>): int {
    SumTo(s, |s|)
  }

  /** The weight an endpoint brings to a call. */
  function Effective(e: Endpoint): nat {
    if e.healthy then e.weight else 0
  }

  function Weights(eps: seq<Endpoint>): (w: seq<int>)
    ensures |w| == |eps| && forall i | 0 <= i < |eps| :: w[i] == Effective(eps[i])
  {
    seq(|eps|, i requires 0 <= i < |eps| => Effective(eps[i]))
  }

  function Total(eps: seq<Endpoint>): int {
    Sum(Weights(eps))
  }

  ghost predicate Configured(eps: seq<Endpoint>) {
    forall i | 0 <= i < |eps| :: eps[i].weight >= 1
  }

  function Plus(a: seq<int>, b: seq<int>): (r: seq<int>)
    requires |a| == |b|
    ensures |r| == |a| && forall i | 0 <= i < |a| :: r[i] == a[i] + b[i]
  {
    seq(|a|, i requires 0 <= i < |a| => a[i] + b[i])
  }

  /** k is the first of the largest entries among the healthy endpoints below n. */
  ghost predicate FirstLargest(eps: seq<Endpoint>, c: seq<int>, n: nat, k: int)
    requires n <= |eps| == |c|
  {
    if k < 0 then k == -1 && forall i | 0 <= i < n :: !eps[i].healthy
    else
      && k < n && eps[k].healthy
      && (forall i | 0 <= i < n && eps[i].healthy :: c[i] <= c[k])
      && (forall i | 0 <= i < k && eps[i].healthy :: c[i] < c[k])
  }

  function Best(eps: seq<Endpoint>, c: seq<int>, n: nat): (k: int)
    requires n <= |eps| == |c|
    ensures -1 <= k < n
  {
    if n == 0 then -1
    else
      var k := Best(eps, c, n - 1);
      if eps[n - 1].healthy && (k < 0 || c[n - 1] > c[k]) then n - 1 else k
  }

  lemma {:induction false} BestIsFirstLargest(eps: seq<Endpoint>, c: seq<int>, n: nat)
    requires n <= |eps| == |c|
    ensures FirstLargest(eps, c, n, Best(eps, c, n))
  {
    if n > 0 {
      BestIsFirstLargest(eps, c, n - 1);
    }
  }

  /** The index a call picks, -1 for none. */
  function Choice(eps: seq<Endpoint>, c: seq<int>): (k: int)
    requires |eps| == |c|
    ensures -1 <= k < |eps|
  {
    Best(eps, Plus(c, Weights(eps)), |eps|)
  }

  /** The current weights after a call. */
  function Advance(eps: seq<Endpoint>, c: seq<int>): (r: seq<int>)
    requires |eps| == |c|
    ensures |r| == |c|
  {
    var bumped := Plus(c, Weights(eps));
    var k := Best(eps, bumped, |eps|);
    if k < 0 then bumped else bumped[k := bumped[k] - Total(eps)]
  }

  lemma {:induction false} SumPlus(a: seq<int>, b: seq<int>, r: seq<int>, n: nat)
    requires |a| == |b| && r == Plus(a, b) && n <= |a|
    ensures SumTo(r, n) == SumTo(a, n) + SumTo(b, n)
  {
    if n > 0 {
      SumPlus(a, b, r, n - 1);
    }
  }

  lemma {:induction false} SumUpdate(s: seq<int>, k: nat, v: int, n: nat)
    requires k < |s| && n <= |s|
    ensures SumTo(s[k := v], n) == SumTo(s, n) + if k < n then v - s[k] else 0
  {
    if n > 0 {
      SumUpdate(s, k, v, n - 1);
    }
  }

  lemma {:induction false} SumBound(s: seq<int>, t: seq<int>, n: nat)
    requires |s| == |t| && n <= |s| && forall i | 0 <= i < |s| :: s[i] <= t[i]
    ensures SumTo(s, n) <= SumTo(t, n)
    ensures SumTo(s, n) == SumTo(t, n) ==> forall i | 0 <= i < n :: s[i] == t[i]
  {
    if n > 0 {
      SumBound(s, t, n - 1);
    }
  }

  lemma {:induction false} SumZeros(s: seq<int>, n: nat)
    requires n <= |s| && forall i | 0 <= i < n :: s[i] == 0
    ensures SumTo(s, n) == 0
  {
    if n > 0 {
      SumZeros(s, n - 1);
    }
  }

  function Zeros(n: nat): (s: seq<int>)
    ensures |s| == n && forall i | 0 <= i < n :: s[i] == 0
  {
    seq(n, _ => 0)
  }

  lemma NoneHealthy(eps: seq<Endpoint>)
    requires forall i | 0 <= i < |eps| :: !eps[i].healthy
    ensures Total(eps) == 0
  {
    SumZeros(Weights(eps), |eps|);
  }

  lemma TotalPositive(eps: seq<Endpoint>, k: nat)
    requires Configured(eps) && k < |eps| && eps[k].healthy
    ensures Total(eps) >= 1
  {
    var zeros := Zeros(|eps|);
    SumZeros(zeros, |eps|);
    SumBound(zeros, Weights(eps), |eps|);
    assert zeros[k] != Weights(eps)[k];
  }

  /** Whatever is healthy, a call leaves the sum of the current weights alone, and picks a healthy endpoint if there is one. */
  lemma AdvanceKeepsSum(eps: seq<Endpoint>, c: seq<int>)
    requires |eps| == |c|
    ensures Sum(Advance(eps, c)) == Sum(c)
    ensures if Choice(eps, c) < 0 then forall i | 0 <= i < |eps| :: !eps[i].healthy else eps[Choice(eps, c)].healthy
  {
    var bumped := Plus(c, Weights(eps));
    SumPlus(c, Weights(eps), bumped, |c|);
    var k := Best(eps, bumped, |eps|);
    BestIsFirstLargest(eps, bumped, |eps|);
    if k >= 0 {
      SumUpdate(bumped, k, bumped[k] - Total(eps), |c|);
    } else {
      NoneHealthy(eps);
    }
  }

  /** The current weights and the number of picks after k calls from construction with a fixed healthy set. */
  function Current(eps: seq<Endpoint>, k: nat): (c: seq<int>)
    ensures |c| == |eps|
  {
    if k == 0 then Zeros(|eps|) else Advance(eps, Current(eps, k - 1))
  }

  function Picks(eps: seq<Endpoint>, k: nat): (p: seq<int>)
    ensures |p| == |eps|
  {
    if k == 0 then Zeros(|eps|)
    else
      Counted(Picks(eps, k - 1), Choice(eps, Current(eps, k - 1)))
  }

  ghost predicate SomeHealthy(eps: seq<Endpoint>) {
    exists i | 0 <= i < |eps| :: eps[i].healthy
  }

  /** A pick's bumped weight is positive: the bumped weights of the healthy endpoints sum to more than zero. */
  lemma PickIsPositive(eps: seq<Endpoint>, c: seq<int>)
    requires Configured(eps) && SomeHealthy(eps) && |c| == |eps| && Sum(c) == 0
    requires forall i | 0 <= i < |eps| && !eps[i].healthy :: c[i] == 0
    ensures Choice(eps, c) >= 0 && Plus(c, Weights(eps))[Choice(eps, c)] >= 1
  {
    var bumped := Plus(c, Weights(eps));
    var k := Best(eps, bumped, |eps|);
    BestIsFirstLargest(eps, bumped, |eps|);
    SumPlus(c, Weights(eps), bumped, |c|);
    TotalPositive(eps, k);
    if bumped[k] <= 0 {
      SumZeros(Zeros(|eps|), |eps|);
      SumBound(bumped, Zeros(|eps|), |eps|);
    }
  }

  /** Repeated addition; a product, unfolded one summand at a time. */
  ghost function Times(n: int, w: int): int
    decreases n
  {
    if n <= 0 then 0 else Times(n - 1, w) + w
  }

  lemma {:induction false} TimesIsProduct(n: int, w: int)
    requires n >= 0
    ensures Times(n, w) == n * w
    decreases n
  {
    if n > 0 {
      TimesIsProduct(n - 1, w);
    }
  }

  /** What is known of one endpoint after k calls. */
  ghost predicate FairAt(e: Endpoint, k: nat, total: int, c: int, p: int) {
    && p >= 0
    && c == Times(k, Effective(e)) - Times(p, total)
    && c > -total
    && (!e.healthy ==> c == 0)
  }

  ghost predicate Fair(eps: seq<Endpoint>, k: nat, c: seq<int>, p: seq<int>) {
    && |c| == |p| == |eps| && Sum(c) == 0 && Sum(p) == k
    && forall i | 0 <= i < |eps| :: FairAt(eps[i], k, Total(eps), c[i], p[i])
  }

  lemma AdvanceAt(eps: seq<Endpoint>, c: seq<int>, i: nat)
    requires |eps| == |c| && i < |eps|
    ensures Advance(eps, c)[i] == c[i] + Effective(eps[i]) - if i == Choice(eps, c) then Total(eps) else 0
  {
  }

  function Counted(p: seq<int>, k: int): (r: seq<int>)
    requires -1 <= k < |p|
    ensures |r| == |p|
  {
    if k < 0 then p else p[k := p[k] + 1]
  }

  lemma FairStep(eps: seq<Endpoint>, k: nat, c: seq<int>, p: seq<int>, c': seq<int>, p': seq<int>)
    requires Configured(eps) && SomeHealthy(eps) && Fair(eps, k, c, p)
    requires c' == Advance(eps, c) && p' == Counted(p, Choice(eps, c))
    ensures Fair(eps, k + 1, c', p')
  {
    assert forall i | 0 <= i < |eps| && !eps[i].healthy :: FairAt(eps[i], k, Total(eps), c[i], p[i]);
    AdvanceKeepsSum(eps, c);
    PickIsPositive(eps, c);
    var best := Choice(eps, c);
    SumUpdate(p, best, p[best] + 1, |p|);
    forall i | 0 <= i < |eps|
      ensures FairAt(eps[i], k + 1, Total(eps), c'[i], p'[i])
    {
      assert FairAt(eps[i], k, Total(eps), c[i], p[i]);
      AdvanceAt(eps, c, i);
    }
  }

  /** The state after k calls: each current weight is k times the weight less the total per pick, and above minus the total. */
  lemma {:induction false} ClosedForm(eps: seq<Endpoint>, k: nat)
    requires Configured(eps) && SomeHealthy(eps)
    ensures Fair(eps, k, Current(eps, k), Picks(eps, k))
  {
    if k == 0 {
      FairStart(eps);
    } else {
      var j := k - 1;
      ClosedForm(eps, j);
      FairNext(eps, j, k);
    }
  }

  lemma FairNext(eps: seq<Endpoint>, k: nat, k': nat)
    requires Configured(eps) && SomeHealthy(eps) && Fair(eps, k, Current(eps, k), Picks(eps, k)) && k' == k + 1
    ensures Fair(eps, k', Current(eps, k'), Picks(eps, k'))
  {
    var c, p := Current(eps, k), Picks(eps, k);
    NextOf(eps, k, k', c, p);
    FairStep(eps, k, c, p, Current(eps, k'), Picks(eps, k'));
  }

  lemma NextOf(eps: seq<Endpoint>, k: nat, k': nat, c: seq<int>, p: seq<int>)
    requires k' == k + 1 && c == Current(eps, k) && p == Picks(eps, k)
    ensures Current(eps, k') == Advance(eps, c) && Picks(eps, k') == Counted(p, Choice(eps, c))
  {
    assert k == k' - 1;
  }

  lemma FairStart(eps: seq<Endpoint>)
    requires Configured(eps) && SomeHealthy(eps)
    ensures Fair(eps, 0, Zeros(|eps|), Zeros(|eps|))
  {
    SomeTotal(eps);
    SumZeros(Zeros(|eps|), |eps|);
  }

  lemma SomeTotal(eps: seq<Endpoint>)
    requires Configured(eps) && SomeHealthy(eps)
    ensures Total(eps) >= 1 && HealthyCount(eps) >= 1
  {
    var j :| 0 <= j < |eps| && eps[j].healthy;
    TotalPositive(eps, j);
    CountWithout(eps, j, |eps|);
  }

  lemma AtMostWeight(w: nat, total: int, p: int)
    requires total > 0 && p >= 0 && Times(total, w) - Times(p, total) > -total
    ensures p <= w
    ensures Times(total, w) == Times(w, total)
  {
    TimesIsProduct(total, w);
    TimesIsProduct(w, total);
    TimesMonotone(w, p, total);
  }

  lemma {:induction false} TimesMonotone(a: nat, b: int, w: int)
    requires w > 0
    ensures b > a ==> Times(b, w) >= Times(a, w) + w
    decreases b
  {
    if b > a {
      TimesMonotone(a, b - 1, w);
    }
  }

  /** The closed form as products. */
  lemma CurrentIsProducts(eps: seq<Endpoint>, k: nat, i: nat)
    requires Configured(eps) && SomeHealthy(eps) && i < |eps|
    ensures Current(eps, k)[i] == k * Effective(eps[i]) - Total(eps) * Picks(eps, k)[i]
    ensures Current(eps, k)[i] > -Total(eps)
  {
    ClosedForm(eps, k);
    FairProducts(eps[i], k, Total(eps), Current(eps, k)[i], Picks(eps, k)[i]);
  }

  lemma FairProducts(e: Endpoint, k: nat, total: int, c: int, p: int)
    requires FairAt(e, k, total, c, p)
    ensures c == k * Effective(e) - total * p
  {
    TimesIsProduct(k, Effective(e));
    TimesIsProduct(p, total);
  }

  /**
   Exact fairness: after as many calls as the total weight, every endpoint has been picked exactly as often as its weight
   says and all current weights are back to zero.
   */
  lemma ExactFairness(eps: seq<Endpoint>)
    requires Configured(eps) && SomeHealthy(eps)
    ensures Total(eps) > 0
    ensures Picks(eps, Total(eps)) == Weights(eps)
    ensures Current(eps, Total(eps)) == Zeros(|eps|)
  {
    SomeTotal(eps);
    ClosedForm(eps, Total(eps));
    FairEnd(eps, Total(eps), Current(eps, Total(eps)), Picks(eps, Total(eps)));
  }

  lemma FairEnd(eps: seq<Endpoint>, total: nat, c: seq<int>, p: seq<int>)
    requires total == Total(eps) > 0 && Fair(eps, total, c, p)
    ensures p == Weights(eps) && c == Zeros(|eps|)
  {
    forall i | 0 <= i < |eps|
      ensures p[i] <= Weights(eps)[i] && (p[i] == Weights(eps)[i] ==> c[i] == 0)
    {
      assert FairAt(eps[i], total, total, c[i], p[i]);
      AtMostWeight(Effective(eps[i]), total, p[i]);
    }
    SumBound(p, Weights(eps), |p|);
  }

  lemma SameNext(eps: seq<Endpoint>, a: nat, b: nat, a': nat, b': nat)
    requires Current(eps, a) == Current(eps, b) && a' == a + 1 && b' == b + 1
    ensures Current(eps, a') == Current(eps, b')
  {
    var c := Current(eps, a);
    NextOf(eps, a, a', c, Picks(eps, a));
    NextOf(eps, b, b', c, Picks(eps, b));
  }

  lemma {:induction false} SameFuture(eps: seq<Endpoint>, a: nat, b: nat, k: nat, a': nat, b': nat)
    requires Current(eps, a) == Current(eps, b) && a' == a + k && b' == b + k
    ensures Current(eps, a') == Current(eps, b')
    decreases k
  {
    if k > 0 {
      var p, q := a' - 1, b' - 1;
      SameFuture(eps, a, b, k - 1, p, q);
      SameNext(eps, p, q, a', b');
    } else {
      assert a' == a && b' == b;
    }
  }

  /** From then on everything repeats. */
  lemma Periodic(eps: seq<Endpoint>, k: nat)
    requires Configured(eps) && SomeHealthy(eps)
    ensures Total(eps) > 0 && Current(eps, Total(eps) + k) == Current(eps, k)
    ensures Choice(eps, Current(eps, Total(eps) + k)) == Choice(eps, Current(eps, k))
  {
    ExactFairness(eps);
    SameFuture(eps, Total(eps), 0, k, Total(eps) + k, k);
  }

  function HealthyTo(eps: seq<Endpoint>, n: nat): nat
    requires n <= |eps|
  {
    if n == 0 then 0 else HealthyTo(eps, n - 1) + if eps[n - 1].healthy then 1 else 0
  }

  function HealthyCount(eps: seq<Endpoint>): nat {
    HealthyTo(eps, |eps|)
  }

  /** If every healthy entry is at least -m and the others are zero, the sum is at least -m per healthy endpoint. */
  lemma {:induction false} SumAtLeast(eps: seq<Endpoint>, c: seq<int>, m: int, n: nat)
    requires n <= |eps| == |c|
    requires forall i | 0 <= i < |eps| :: if eps[i].healthy then c[i] >= -m else c[i] == 0
    ensures SumTo(c, n) >= -Times(HealthyTo(eps, n), m)
  {
    if n > 0 {
      SumAtLeast(eps, c, m, n - 1);
    }
  }

  lemma {:induction false} CountWithout(eps: seq<Endpoint>, i: nat, n: nat)
    requires n <= |eps| && i < |eps| && eps[i].healthy
    ensures HealthyTo(eps[i := eps[i].(healthy := false)], n) == HealthyTo(eps, n) - if i < n then 1 else 0
  {
    if n > 0 {
      CountWithout(eps, i, n - 1);
    }
  }

  /** Both bounds on every current weight, at any time. */
  lemma WeightBounds(eps: seq<Endpoint>, k: nat, i: nat)
    requires Configured(eps) && SomeHealthy(eps) && i < |eps|
    ensures Total(eps) >= 1 && HealthyCount(eps) >= 1
    ensures 1 - Total(eps) <= Current(eps, k)[i] <= (HealthyCount(eps) - 1) * (Total(eps) - 1)
  {
    SomeTotal(eps);
    ClosedForm(eps, k);
    var m := Total(eps) - 1;
    FairBounds(eps, k, Current(eps, k), Picks(eps, k), m, i);
    TimesIsProduct(HealthyCount(eps) - 1, m);
  }

  lemma OthersBalance(eps: seq<Endpoint>, c: seq<int>, m: int, i: nat)
    requires |eps| == |c| && Sum(c) == 0 && i < |eps| && eps[i].healthy && m >= 0
    requires forall j | 0 <= j < |eps| :: if eps[j].healthy then c[j] >= -m else c[j] == 0
    ensures c[i] <= Times(HealthyCount(eps) - 1, m)
  {
    var others, rest := eps[i := eps[i].(healthy := false)], c[i := 0];
    assert Sum(rest) == -c[i] by {
      SumUpdate(c, i, 0, |c|);
    }
    var n := HealthyCount(others);
    assert n == HealthyCount(eps) - 1 by {
      CountWithout(eps, i, |eps|);
    }
    assert Sum(rest) >= -Times(n, m) by {
      SumAtLeast(others, rest, m, |c|);
    }
  }

  lemma FairBounds(eps: seq<Endpoint>, k: nat, c: seq<int>, p: seq<int>, m: int, i: nat)
    requires Fair(eps, k, c, p) && 0 <= m == Total(eps) - 1 && HealthyCount(eps) >= 1 && i < |eps|
    ensures -m <= c[i] <= Times(HealthyCount(eps) - 1, m)
  {
    FairLower(eps, k, c, p, m);
    if eps[i].healthy {
      OthersBalance(eps, c, m, i);
    } else {
      TimesNonNegative(HealthyCount(eps) - 1, m);
    }
  }

  lemma FairLower(eps: seq<Endpoint>, k: nat, c: seq<int>, p: seq<int>, m: int)
    requires Fair(eps, k, c, p) && m == Total(eps) - 1
    ensures forall j | 0 <= j < |eps| :: if eps[j].healthy then c[j] >= -m else c[j] == 0
  {
    forall j | 0 <= j < |eps|
      ensures if eps[j].healthy then c[j] >= -m else c[j] == 0
    {
      assert FairAt(eps[j], k, Total(eps), c[j], p[j]);
    }
  }

  lemma {:induction false} TimesNonNegative(n: int, w: int)
    requires w >= 0
    ensures Times(n, w) >= 0
    decreases n
  {
    if n > 0 {
      TimesNonNegative(n - 1, w);
    }
  }

  lemma Share(total: int, k: nat, k': nat, w: int, c: int, p: int, p': int)
    requires total > 0 && k' == total + k
    requires c == k * w - total * p == k' * w - total * p'
    ensures p' - p == w
  {
    assert total * p' == total * (p + w);
  }

  /** Any window of as many calls as the total weight, not only the first, picks each endpoint as often as its weight says. */
  lemma EveryWindowIsFair(eps: seq<Endpoint>, k: nat, i: nat)
    requires Configured(eps) && SomeHealthy(eps) && i < |eps|
    ensures Total(eps) > 0
    ensures Picks(eps, Total(eps) + k)[i] - Picks(eps, k)[i] == Effective(eps[i])
  {
    Periodic(eps, k);
    var total := Total(eps);
    var k' := total + k;
    CurrentIsProducts(eps, k, i);
    CurrentIsProducts(eps, k', i);
    var c, p, p' := Current(eps, k)[i], Picks(eps, k)[i], Picks(eps, k')[i];
    assert c == Current(eps, k')[i];
    Share(total, k, k', Effective(eps[i]), c, p, p');
  }

  lemma ProductBound(a: int, b: int, m: nat, n: nat)
    requires 0 <= a <= m && 0 <= b <= n
    ensures a * b <= m * n
  {
    assert a * b <= m * b;
    assert m * b <= m * n;
  }

  datatype Balancer = Balancer(endpoints: seq<Endpoint>, current: seq<int>)

  datatype Config = Config(addr: string, port: nat, name: string, weight: nat, healthy: bool)

  function Decimal(n: nat): (s: string)
    ensures s != ""
    decreases n
  {
    (if n < 10 then "" else Decimal(n / 10)) + [Digit(n % 10)]
  }

  function Digit(d: nat): char
    requires d < 10
  {
    ['0', '1', '2', '3', '4', '5', '6', '7', '8', '9'][d]
  }

  /** The number a decimal text spells. */
  function DecimalValue(s: string): int {
    if s == "" then 0 else 10 * DecimalValue(s[..|s| - 1]) + (s[|s| - 1] as int - '0' as int)
  }

  /** No two ports share a text. */
  lemma {:induction false} DecimalIsValue(n: nat)
    ensures DecimalValue(Decimal(n)) == n
    decreases n
  {
    var head, d := if n < 10 then "" else Decimal(n / 10), n % 10;
    if n >= 10 {
      DecimalIsValue(n / 10);
    }
    OneMoreDigit(head, d);
  }

  lemma OneMoreDigit(head: string, d: nat)
    requires d < 10
    ensures DecimalValue(head + [Digit(d)]) == 10 * DecimalValue(head) + d
  {
    var s := head + [Digit(d)];
    assert s[..|s| - 1] == head;
    DigitValue(d);
  }

  lemma DigitValue(d: nat)
    requires d < 10
    ensures Digit(d) as int - '0' as int == d
  {
  }

  /** A name that is missing is made from address and port, so every endpoint has one to be marked by. */
  function NameOf(cfg: Config): (name: string)
    ensures name != ""
    ensures name == if cfg.name != "" then cfg.name else cfg.addr + ":" + Decimal(cfg.port)
  {
    if cfg.name == "" then cfg.addr + ":" + Decimal(cfg.port) else cfg.name
  }

  datatype Op = Next | MarkHealthy(name: string) | MarkUnhealthy(name: string)

  function New(configs: seq<Config>): (b: Balancer)
    ensures Sane(b)
    ensures |b.endpoints| == |configs|
    ensures forall i | 0 <= i < |configs| ::
              && b.endpoints[i].name == NameOf(configs[i])
              && b.endpoints[i].weight == (if configs[i].weight == 0 then 1 else configs[i].weight)
              && b.endpoints[i].healthy == configs[i].healthy && b.endpoints[i].totalRequests == 0
  {
    var endpoints := seq(|configs|, i requires 0 <= i < |configs| =>
      Endpoint(NameOf(configs[i]), Max1(configs[i].weight), configs[i].healthy, 0));
    SumZeros(Zeros(|configs|), |configs|);
    Balancer(endpoints, Zeros(|configs|))
  }

  /** What holds at every moment: as many weights as endpoints, every weight at least one, the current weights summing to zero. */
  ghost predicate Sane(b: Balancer) {
    |b.endpoints| == |b.current| && Configured(b.endpoints) && Sum(b.current) == 0
  }

  /** Every endpoint of this name, and no other, gets this health. */
  function Marked(eps: seq<Endpoint>, name: string, healthy: bool): (r: seq<Endpoint>)
    ensures |r| == |eps|
  {
    seq(|eps|, i requires 0 <= i < |eps| => if eps[i].name == name then eps[i].(healthy := healthy) else eps[i])
  }

  function Requested(eps: seq<Endpoint>, k: int): (r: seq<Endpoint>)
    requires -1 <= k < |eps|
    ensures |r| == |eps|
  {
    if k < 0 then eps else eps[k := eps[k].(totalRequests := eps[k].totalRequests + 1)]
  }

  function Step(b: Balancer, op: Op): (r: Balancer)
    requires |b.endpoints| == |b.current|
    ensures |r.endpoints| == |r.current| == |b.current|
  {
    match op
    case Next => Balancer(Requested(b.endpoints, Choice(b.endpoints, b.current)), Advance(b.endpoints, b.current))
    case MarkHealthy(name) => b.(endpoints := Marked(b.endpoints, name, true))
    case MarkUnhealthy(name) => b.(endpoints := Marked(b.endpoints, name, false))
  }

  function After(b: Balancer, ops: seq<Op>): (r: Balancer)
    requires |b.endpoints| == |b.current|
    ensures |r.endpoints| == |r.current| == |b.current|
    decreases |ops|
  {
    if ops == [] then b else After(Step(b, ops[0]), ops[1..])
  }

  /** What the last mark of that name says, or what was so before. */
  function LastMark(before: bool, ops: seq<Op>, name: string): bool {
    if ops == [] then before
    else
      match ops[|ops| - 1]
      case MarkHealthy(n) => n == name || LastMark(before, ops[..|ops| - 1], name)
      case MarkUnhealthy(n) => n != name && LastMark(before, ops[..|ops| - 1], name)
      case Next => LastMark(before, ops[..|ops| - 1], name)
  }

  lemma {:induction false} AfterLast(b: Balancer, ops: seq<Op>)
    requires |b.endpoints| == |b.current| && ops != []
    ensures After(b, ops) == Step(After(b, ops[..|ops| - 1]), ops[|ops| - 1])
    decreases |ops|
  {
    var n := |ops| - 1;
    if n > 0 {
      assert ops[1..][..n - 1] == ops[..n][1..];
      AfterLast(Step(b, ops[0]), ops[1..]);
    } else {
      assert ops[1..] == [] && ops[..n] == [];
    }
  }

  /** Over any run an endpoint is as healthy as the last mark of its name says, or as it was; name and weight never change. */
  lemma {:induction false} HealthIsLastMark(b: Balancer, ops: seq<Op>, i: nat)
    requires |b.endpoints| == |b.current| && i < |b.endpoints|
    ensures var e := After(b, ops).endpoints[i];
            && e.name == b.endpoints[i].name && e.weight == b.endpoints[i].weight
            && e.healthy == LastMark(b.endpoints[i].healthy, ops, b.endpoints[i].name)
    decreases |ops|
  {
    if ops != [] {
      AfterLast(b, ops);
      HealthIsLastMark(b, ops[..|ops| - 1], i);
    }
  }

  /** The endpoints the run's calls of next returned, in order. */
  function Chosen(b: Balancer, ops: seq<Op>): (r: seq<nat>)
    requires |b.endpoints| == |b.current|
    decreases |ops|
  {
    if ops == [] then []
    else
      var k := Choice(b.endpoints, b.current);
      (if ops[0] == Next && k >= 0 then [k as nat] else []) + Chosen(Step(b, ops[0]), ops[1..])
  }

  ghost function TimesChosen(r: seq<nat>, i: nat): nat {
    multiset(r)[i]
  }

  /** An endpoint before and after: only its health and its count of requests may differ. */
  ghost predicate SameEndpoint(e: Endpoint, e': Endpoint, extra: nat) {
    e'.name == e.name && e'.weight == e.weight && e'.totalRequests == e.totalRequests + extra
  }

  lemma StepKeepsSane(b: Balancer, op: Op)
    requires Sane(b)
    ensures Sane(Step(b, op))
    ensures op == Next ==>
      var k := Choice(b.endpoints, b.current);
      if k < 0 then forall i | 0 <= i < |b.endpoints| :: !b.endpoints[i].healthy else b.endpoints[k].healthy
  {
    AdvanceKeepsSum(b.endpoints, b.current);
  }

  /**
   Any mix of calls of next and changes of health, from any sane state: the current weights sum to zero throughout, names and
   weights stay, and each endpoint's request count grows by exactly the number of times next returned it.
   */
  lemma {:induction false} MixedRun(b: Balancer, ops: seq<Op>, i: nat)
    requires Sane(b) && i < |b.endpoints|
    ensures Sane(After(b, ops))
    ensures SameEndpoint(b.endpoints[i], After(b, ops).endpoints[i], TimesChosen(Chosen(b, ops), i))
    decreases |ops|
  {
    if ops != [] {
      var op, b' := ops[0], Step(b, ops[0]);
      StepKeepsSane(b, op);
      MixedRun(b', ops[1..], i);
      var k := Choice(b.endpoints, b.current);
      var first: seq<nat> := if op == Next && k >= 0 then [k as nat] else [];
      assert Chosen(b, ops) == first + Chosen(b', ops[1..]);
      StepAt(b, op, i, first);
    }
  }

  lemma StepAt(b: Balancer, op: Op, i: nat, first: seq<nat>)
    requires |b.endpoints| == |b.current| && i < |b.endpoints|
    requires first == if op == Next && Choice(b.endpoints, b.current) >= 0 then [Choice(b.endpoints, b.current) as nat] else []
    ensures SameEndpoint(b.endpoints[i], Step(b, op).endpoints[i], TimesChosen(first, i))
  {
  }

  /** Every next of the run picked an endpoint that was healthy then, and failed only when none was. */
  lemma {:induction false} ChoicesAreHealthy(b: Balancer, ops: seq<Op>, j: nat)
    requires Sane(b) && j < |ops| && ops[j] == Next
    ensures
      var at := After(b, ops[..j]);
      var k := Choice(at.endpoints, at.current);
      if k < 0 then !SomeHealthy(at.endpoints) else at.endpoints[k].healthy
    decreases j
  {
    if j == 0 {
      StepKeepsSane(b, ops[0]);
    } else {
      StepKeepsSane(b, ops[0]);
      ChoicesAreHealthy(Step(b, ops[0]), ops[1..], j - 1);
      assert ops[..j][1..] == ops[1..][..j - 1];
    }
  }

  /** Two lists that differ only in names and counts. */
  ghost predicate SameShape(e: seq<Endpoint>, f: seq<Endpoint>) {
    |e| == |f| && forall i | 0 <= i < |e| :: e[i].weight == f[i].weight && e[i].healthy == f[i].healthy
  }

  lemma {:induction false} SameBest(e: seq<Endpoint>, f: seq<Endpoint>, c: seq<int>, n: nat)
    requires SameShape(e, f) && n <= |c| == |e|
    ensures Best(e, c, n) == Best(f, c, n)
  {
    if n > 0 {
      SameBest(e, f, c, n - 1);
    }
  }

  lemma SameAdvance(e: seq<Endpoint>, f: seq<Endpoint>, c: seq<int>)
    requires SameShape(e, f) && |c| == |e|
    ensures Choice(e, c) == Choice(f, c) && Advance(e, c) == Advance(f, c)
  {
    assert Weights(e) == Weights(f);
    SameBest(e, f, Plus(c, Weights(e)), |e|);
  }

  ghost function Nexts(k: nat): seq<Op> {
    seq(k, _ => Next)
  }

  ghost function Counts(eps: seq<Endpoint>): (r: seq<int>)
    ensures |r| == |eps|
  {
    seq(|eps|, i requires 0 <= i < |eps| => eps[i].totalRequests)
  }

  lemma {:induction false} AfterConcat(b: Balancer, ops: seq<Op>, op: Op)
    requires |b.endpoints| == |b.current|
    ensures After(b, ops + [op]) == Step(After(b, ops), op)
    decreases |ops|
  {
    if ops == [] {
      assert [op][1..] == [];
    } else {
      AfterConcat(Step(b, ops[0]), ops[1..], op);
      assert (ops + [op])[1..] == ops[1..] + [op];
    }
  }

  /** Nothing but next since construction: the balancer is where the closed form says, and its counters are the picks. */
  lemma {:induction false} OnlyNext(configs: seq<Config>, k: nat)
    ensures
      var b, now := New(configs), After(New(configs), Nexts(k));
      && SameShape(b.endpoints, now.endpoints)
      && now.current == Current(b.endpoints, k)
      && Counts(now.endpoints) == Picks(b.endpoints, k)
  {
    var b := New(configs);
    if k == 0 {
      assert Counts(b.endpoints) == Zeros(|configs|);
    } else {
      var j := k - 1;
      OnlyNext(configs, j);
      assert Nexts(k) == Nexts(j) + [Next];
      AfterConcat(b, Nexts(j), Next);
      NextStep(b.endpoints, j, k, After(b, Nexts(j)));
    }
  }

  lemma NextStep(eps: seq<Endpoint>, j: nat, k: nat, b: Balancer)
    requires k == j + 1 && SameShape(eps, b.endpoints)
    requires b.current == Current(eps, j) && Counts(b.endpoints) == Picks(eps, j)
    ensures SameShape(eps, Step(b, Next).endpoints)
    ensures Step(b, Next).current == Current(eps, k) && Counts(Step(b, Next).endpoints) == Picks(eps, k)
  {
    var c, p := b.current, Counts(b.endpoints);
    SameAdvance(eps, b.endpoints, c);
    NextCounts(b);
    NextOf(eps, j, k, c, p);
  }

  lemma NextCounts(b: Balancer)
    requires |b.endpoints| == |b.current|
    ensures Counts(Step(b, Next).endpoints) == Counted(Counts(b.endpoints), Choice(b.endpoints, b.current))
    ensures SameShape(b.endpoints, Step(b, Next).endpoints)
  {
  }

  class WeightedRoundRobin {
    var endpoints: array<Endpoint>
    var currentWeights: array<int>

    ghost predicate Valid()
      reads this, endpoints, currentWeights
    {
      endpoints.Length == currentWeights.Length && Sane(Balancer(endpoints[..], currentWeights[..]))
    }

    ghost function State(): (b: Balancer)
      requires Valid()
      reads this, endpoints, currentWeights
      ensures Sane(b)
    {
      Balancer(endpoints[..], currentWeights[..])
    }

    constructor (configs: seq<Config>)
      ensures Valid() && State() == New(configs)
      ensures fresh(endpoints) && fresh(currentWeights)
    {
      var n := |configs|;
      endpoints := new Endpoint[n](i requires 0 <= i < n =>
        Endpoint(NameOf(configs[i]), Max1(configs[i].weight), configs[i].healthy, 0));
      currentWeights := new int[n](_ => 0);
      new;
      assert endpoints[..] == New(configs).endpoints;
      assert currentWeights[..] == New(configs).current;
    }

    /** Adds the healthy weights and finds the first largest. */
    method Bump() returns (total: int, best: int)
      requires Valid()
      modifies currentWeights
      ensures currentWeights[..] == Plus(old(currentWeights[..]), Weights(endpoints[..]))
      ensures total == Total(endpoints[..])
      ensures best == old(Choice(endpoints[..], currentWeights[..]))
    {
      ghost var eps, c := endpoints[..], currentWeights[..];
      ghost var weights := Weights(eps);
      ghost var bumped := Plus(c, weights);
      total, best := 0, -1;
      for i := 0 to endpoints.Length
        invariant forall j | 0 <= j < |c| :: currentWeights[j] == if j < i then bumped[j] else c[j]
        invariant total == SumTo(weights, i)
        invariant best == Best(eps, bumped, i)
      {
        assert endpoints[i] == eps[i];
        if endpoints[i].healthy {
          currentWeights[i] := currentWeights[i] + endpoints[i].weight;
          total := total + endpoints[i].weight;
          if best < 0 || currentWeights[i] > currentWeights[best] {
            best := i;
          }
        }
      }
      assert currentWeights[..] == bumped;
    }

    /** The chosen index, or -1 where the source returns nullptr. */
    method Next() returns (best: int)
      requires Valid()
      modifies currentWeights, endpoints
      ensures Valid() && State() == Step(old(State()), Op.Next)
      ensures best == old(Choice(endpoints[..], currentWeights[..]))
    {
      ghost var b := State();
      StepKeepsSane(b, Op.Next);
      NoPick(b.endpoints, Plus(b.current, Weights(b.endpoints)));
      var total;
      total, best := Bump();
      if best < 0 || total == 0 {
        return;
      }
      currentWeights[best] := currentWeights[best] - total;
      endpoints[best] := endpoints[best].(totalRequests := endpoints[best].totalRequests + 1);
      assert endpoints[..] == Requested(b.endpoints, best);
      assert currentWeights[..] == Advance(b.endpoints, b.current);
    }

    method MarkUnhealthy(name: string)
      requires Valid()
      modifies endpoints
      ensures Valid() && State() == Step(old(State()), Op.MarkUnhealthy(name))
      ensures forall i | 0 <= i < endpoints.Length ::
                endpoints[i].healthy <==> old(endpoints[i].healthy) && endpoints[i].name != name
    {
      Mark(name, false);
    }

    method MarkHealthy(name: string)
      requires Valid()
      modifies endpoints
      ensures Valid() && State() == Step(old(State()), Op.MarkHealthy(name))
      ensures forall i | 0 <= i < endpoints.Length ::
                endpoints[i].healthy <==> old(endpoints[i].healthy) || endpoints[i].name == name
    {
      Mark(name, true);
    }

    method Mark(name: string, healthy: bool)
      requires Valid()
      modifies endpoints
      ensures Valid() && endpoints[..] == Marked(old(endpoints[..]), name, healthy) && currentWeights[..] == old(currentWeights[..])
    {
      ghost var eps := endpoints[..];
      for i := 0 to endpoints.Length
        invariant forall j | 0 <= j < |eps| :: endpoints[j] == if j < i then Marked(eps, name, healthy)[j] else eps[j]
      {
        if endpoints[i].name == name {
          endpoints[i] := endpoints[i].(healthy := healthy);
        }
      }
      assert endpoints[..] == Marked(eps, name, healthy);
    }
  }

  /** With weights of at least one, the two ways a call gives up are one. */
  lemma NoPick(eps: seq<Endpoint>, bumped: seq<int>)
    requires Configured(eps) && |eps| == |bumped|
    ensures Best(eps, bumped, |eps|) < 0 <==> Best(eps, bumped, |eps|) < 0 || Total(eps) == 0
  {
    BestIsFirstLargest(eps, bumped, |eps|);
    var k := Best(eps, bumped, |eps|);
    if k >= 0 {
      TotalPositive(eps, k);
    }
  }
}
