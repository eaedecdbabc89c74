/**
 The upstream connection pool (src/upstream_pool.cpp) and its one caller, forward_http1 (src/proxy.cpp). The pool's mutex is
 dropped while a connection is being made and while a request waits, so the model is a state machine: each step is one section
 the code runs under the lock, or one move of a request between such sections, and steps of different requests interleave freely.
 */
module UpstreamPool {
  import opened Bytes

  datatype PoolConfig = PoolConfig(maxConns: nat, maxKeepalive: nat, idleTimeout: nat)

  datatype Conn = Conn(id: nat, requestCount: nat, lastUsed: nat)

  const UINT32: nat := 0x1_0000_0000

  /** ++ and -- on a 32-bit unsigned counter. */
  function Inc(n: nat): nat {
    if n == UINT32 - 1 then 0 else n + 1
  }

  function Dec(n: nat): nat {
    if n == 0 then UINT32 - 1 else n - 1
  }

  /** What the mutex protects. */
  datatype Slots = Slots(idle: seq<Conn>, total: nat)

  datatype Acquired = Got(conn: Conn) | Reserved | Exhausted

  /** The first section of acquire. */
  function TryAcquire(cfg: PoolConfig, s: Slots): (Slots, Acquired) {
    if s.idle != [] then (s.(idle := s.idle[1..]), Got(s.idle[0]))
    else if s.total >= cfg.maxConns then (s, Exhausted)
    else (s.(total := Inc(s.total)), Reserved)
  }

  function Released(cfg: PoolConfig, s: Slots, conn: Conn, valid: bool, now: nat): Slots {
    var conn' := conn.(lastUsed := now);
    if !valid || conn.requestCount >= cfg.maxKeepalive then s.(total := Dec(s.total))
    else s.(idle := s.idle + [conn'])
  }

  predicate Expired(cfg: PoolConfig, c: Conn, ts: nat) {
    ts >= c.lastUsed && ts - c.lastUsed > cfg.idleTimeout
  }

  /** Of the first n idle connections those that stay, in their order. */
  function KeptOf(cfg: PoolConfig, idle: seq<Conn>, n: nat, ts: nat): (r: seq<Conn>)
    requires n <= |idle|
    ensures |r| <= n
  {
    if n == 0 then []
    else KeptOf(cfg, idle, n - 1, ts) + if Expired(cfg, idle[n - 1], ts) then [] else [idle[n - 1]]
  }

  function Kept(cfg: PoolConfig, idle: seq<Conn>, ts: nat): (r: seq<Conn>)
    ensures |r| <= |idle|
  {
    KeptOf(cfg, idle, |idle|, ts)
  }

  /** Exactly the connections that have not expired stay. */
  lemma {:induction false} KeptMembers(cfg: PoolConfig, idle: seq<Conn>, n: nat, ts: nat, c: Conn)
    requires n <= |idle|
    ensures c in KeptOf(cfg, idle, n, ts) <==> c in idle[..n] && !Expired(cfg, c, ts)
  {
    if n > 0 {
      KeptMembers(cfg, idle, n - 1, ts, c);
      assert idle[..n] == idle[..n - 1] + [idle[n - 1]];
    }
  }

  function DecBy(n: nat, k: nat): nat
    decreases k
  {
    if k == 0 then n else DecBy(Dec(n), k - 1)
  }

  function Evicted(cfg: PoolConfig, s: Slots, ts: nat): Slots {
    var kept := Kept(cfg, s.idle, ts);
    Slots(kept, DecBy(s.total, |s.idle| - |kept|))
  }

  lemma {:induction false} DecByIsMinus(n: nat, k: nat)
    requires k <= n
    ensures DecBy(n, k) == n - k
  {
    if k > 0 {
      DecByIsMinus(n - 1, k - 1);
    }
  }

  /** Where one forwarded request is; attempt is 0 or 1. */
  datatype Phase =
    | Arriving(attempt: nat)
    | Waiting(attempt: nat)
    | Connecting(attempt: nat)
    | Holding(attempt: nat, conn: Conn)
    | Done(served: bool)

  /**
   The pool with every request in flight. Connections thrown away by release(nullptr) are counted; their slots are not
   returned.
   */
  datatype World = World(slots: Slots, requests: map<nat, Phase>, discarded: nat, nextId: nat)

  datatype Step =
    | Arrive(t: nat)
    | Acquire(t: nat)
    | Wake(t: nat)
    | TimeOut(t: nat)
    | Connected(t: nat, now: nat)
    | ConnectFailed(t: nat)
    | Broken(t: nat)
    | Finish(t: nat, valid: bool, now: nat)
    | Tick(ts: nat)

  /** A wait that times out still takes a connection if one is idle, so the error needs an empty list. */
  predicate Enabled(w: World, s: Step) {
    match s
    case Arrive(t) => t !in w.requests
    case Acquire(t) => t in w.requests && w.requests[t].Arriving?
    case Wake(t) => t in w.requests && w.requests[t].Waiting? && w.slots.idle != []
    case TimeOut(t) => t in w.requests && w.requests[t].Waiting? && w.slots.idle == []
    case Connected(t, _) => t in w.requests && w.requests[t].Connecting?
    case ConnectFailed(t) => t in w.requests && w.requests[t].Connecting?
    case Broken(t) => t in w.requests && w.requests[t].Holding?
    case Finish(t, _, _) => t in w.requests && w.requests[t].Holding?
    case Tick(_) => true
  }

  function Moved(w: World, t: nat, p: Phase): World {
    w.(requests := w.requests[t := p])
  }

  function Next(cfg: PoolConfig, w: World, s: Step): World
    requires Enabled(w, s)
  {
    match s
    case Arrive(t) => Moved(w, t, Arriving(0))
    case Acquire(t) =>
      var attempt := w.requests[t].attempt;
      var (slots, got) := TryAcquire(cfg, w.slots);
      Moved(w.(slots := slots), t,
            match got
            case Got(conn) => Holding(attempt, conn)
            case Reserved => Connecting(attempt)
            case Exhausted => Waiting(attempt))
    case Wake(t) =>
      Moved(w.(slots := w.slots.(idle := w.slots.idle[1..])), t, Holding(w.requests[t].attempt, w.slots.idle[0]))
    case TimeOut(t) => Moved(w, t, Done(false))
    case Connected(t, now) =>
      Moved(w.(nextId := w.nextId + 1), t, Holding(w.requests[t].attempt, Conn(w.nextId, 0, now)))
    case ConnectFailed(t) =>
      Moved(w.(slots := w.slots.(total := Dec(w.slots.total))), t, Done(false))
    case Broken(t) =>
      Moved(w.(discarded := w.discarded + 1), t, if w.requests[t].attempt == 0 then Arriving(1) else Done(false))
    case Finish(t, valid, now) =>
      var conn := w.requests[t].conn;
      var used := conn.(requestCount := conn.requestCount + 1);
      Moved(w.(slots := Released(cfg, w.slots, used, valid, now)), t, Done(true))
    case Tick(ts) => w.(slots := Evicted(cfg, w.slots, ts))
  }

  const START := World(Slots([], 0), map[], 0, 0)

  ghost predicate Allowed(cfg: PoolConfig, w: World, steps: seq<Step>)
    decreases |steps|
  {
    steps == [] || (Enabled(w, steps[0]) && Allowed(cfg, Next(cfg, w, steps[0]), steps[1..]))
  }

  ghost function After(cfg: PoolConfig, w: World, steps: seq<Step>): World
    requires Allowed(cfg, w, steps)
    decreases |steps|
  {
    if steps == [] then w else After(cfg, Next(cfg, w, steps[0]), steps[1..])
  }

  ghost predicate Holds(r: map<nat, Phase>, t: nat) {
    t in r && r[t].Holding?
  }

  ghost function Holders(r: map<nat, Phase>): set<nat> {
    set t | t in r && r[t].Holding?
  }

  ghost function Connectors(r: map<nat, Phase>): set<nat> {
    set t | t in r && r[t].Connecting?
  }

  /** Every slot is accounted for, and none is lent out beyond the limit. */
  ghost predicate Conserved(cfg: PoolConfig, w: World) {
    && w.slots.total == |w.slots.idle| + |Holders(w.requests)| + |Connectors(w.requests)| + w.discarded
    && w.slots.total <= cfg.maxConns
  }

  ghost predicate Distinct(idle: seq<Conn>) {
    forall i, j | 0 <= i < j < |idle| :: idle[i].id != idle[j].id
  }

  /** No connection is in two places, and all were made here. */
  ghost predicate Exclusive(w: World) {
    && Distinct(w.slots.idle)
    && (forall c | c in w.slots.idle :: c.id < w.nextId)
    && (forall t | Holds(w.requests, t) :: w.requests[t].conn.id < w.nextId)
    && (forall t, c | Holds(w.requests, t) && c in w.slots.idle :: w.requests[t].conn.id != c.id)
    && (forall t, u | Holds(w.requests, t) && Holds(w.requests, u) && t != u ::
          w.requests[t].conn.id != w.requests[u].conn.id)
  }

  /** An idle connection may serve again; a held one is new or may. */
  ghost predicate Fresh(cfg: PoolConfig, w: World) {
    && (forall c | c in w.slots.idle :: 1 <= c.requestCount < cfg.maxKeepalive)
    && (forall t | Holds(w.requests, t) ::
          w.requests[t].conn.requestCount == 0 || w.requests[t].conn.requestCount < cfg.maxKeepalive)
  }

  ghost predicate Attempts(w: World) {
    forall t | t in w.requests && !w.requests[t].Done? :: w.requests[t].attempt <= 1
  }

  lemma MoveHolders(r: map<nat, Phase>, t: nat, p: Phase)
    ensures Holders(r[t := p]) == if p.Holding? then Holders(r) + {t} else Holders(r) - {t}
    ensures Connectors(r[t := p]) == if p.Connecting? then Connectors(r) + {t} else Connectors(r) - {t}
  {
  }

  /** What a move does to the numbers of holders and connectors. */
  lemma MoveCounts(r: map<nat, Phase>, t: nat, p: Phase)
    ensures |Holders(r[t := p])| == |Holders(r)| - (if t in Holders(r) then 1 else 0) + (if p.Holding? then 1 else 0)
    ensures |Connectors(r[t := p])| == |Connectors(r)| - (if t in Connectors(r) then 1 else 0) + (if p.Connecting? then 1 else 0)
  {
    MoveHolders(r, t, p);
    InOrOut(Holders(r), t);
    InOrOut(Connectors(r), t);
  }

  lemma InOrOut(s: set<nat>, t: nat)
    ensures |s + {t}| == |s| + (if t in s then 0 else 1)
    ensures |s - {t}| == |s| - (if t in s then 1 else 0)
  {
    if t in s {
      assert s + {t} == s;
    } else {
      assert s - {t} == s;
    }
  }

  lemma MemberCounts(s: set<nat>, t: nat)
    requires t in s
    ensures |s| >= 1
  {
    assert |s - {t}| + 1 == |s|;
  }

  lemma StepConserves(cfg: PoolConfig, w: World, s: Step)
    requires cfg.maxConns < UINT32 && Conserved(cfg, w) && Enabled(w, s)
    ensures Conserved(cfg, Next(cfg, w, s))
  {
    var w' := Next(cfg, w, s);
    if s.Tick? {
      var kept := Kept(cfg, w.slots.idle, s.ts);
      DecByIsMinus(w.slots.total, |w.slots.idle| - |kept|);
    } else {
      MoveCounts(w.requests, s.t, w'.requests[s.t]);
      if s.ConnectFailed? {
        MemberCounts(Connectors(w.requests), s.t);
      } else if s.Finish? {
        MemberCounts(Holders(w.requests), s.t);
      }
    }
  }

  lemma {:induction false} KeptDistinct(cfg: PoolConfig, idle: seq<Conn>, n: nat, ts: nat)
    requires n <= |idle| && Distinct(idle)
    ensures Distinct(KeptOf(cfg, idle, n, ts))
  {
    if n > 0 {
      var kept := KeptOf(cfg, idle, n - 1, ts);
      KeptDistinct(cfg, idle, n - 1, ts);
      forall i | 0 <= i < |kept|
        ensures kept[i].id != idle[n - 1].id
      {
        KeptMembers(cfg, idle, n - 1, ts, kept[i]);
      }
    }
  }

  /** A move out of holding, or not into it. */
  lemma LeaveExclusive(w: World, t: nat, p: Phase)
    requires Exclusive(w) && !p.Holding?
    ensures Exclusive(Moved(w, t, p))
  {
  }

  lemma TakeExclusive(w: World, t: nat, attempt: nat)
    requires Exclusive(w) && w.slots.idle != [] && !Holds(w.requests, t)
    ensures Exclusive(Moved(w.(slots := w.slots.(idle := w.slots.idle[1..])), t, Holding(attempt, w.slots.idle[0])))
  {
    DistinctTail(w.slots.idle);
  }

  lemma DistinctTail(idle: seq<Conn>)
    requires Distinct(idle) && idle != []
    ensures Distinct(idle[1..]) && forall c | c in idle[1..] :: c in idle && c.id != idle[0].id
  {
  }

  lemma DistinctGrown(idle: seq<Conn>, c: Conn)
    requires Distinct(idle) && forall d | d in idle :: d.id != c.id
    ensures Distinct(idle + [c]) && forall d | d in idle + [c] :: d == c || d in idle
  {
  }

  lemma MakeExclusive(w: World, t: nat, attempt: nat, now: nat)
    requires Exclusive(w) && !Holds(w.requests, t)
    ensures Exclusive(Moved(w.(nextId := w.nextId + 1), t, Holding(attempt, Conn(w.nextId, 0, now))))
  {
  }

  lemma ReturnExclusive(w: World, t: nat, c: Conn)
    requires Exclusive(w) && Holds(w.requests, t) && c.id == w.requests[t].conn.id
    ensures Exclusive(Moved(w.(slots := w.slots.(idle := w.slots.idle + [c])), t, Done(true)))
  {
    DistinctGrown(w.slots.idle, c);
  }

  lemma TickExclusive(cfg: PoolConfig, w: World, ts: nat)
    requires Exclusive(w)
    ensures Exclusive(w.(slots := Evicted(cfg, w.slots, ts)))
  {
    var idle := w.slots.idle;
    KeptDistinct(cfg, idle, |idle|, ts);
    forall c | c in Kept(cfg, idle, ts)
      ensures c in idle
    {
      KeptMembers(cfg, idle, |idle|, ts, c);
    }
  }

  lemma StepExclusive(cfg: PoolConfig, w: World, s: Step)
    requires Exclusive(w) && Enabled(w, s)
    ensures Exclusive(Next(cfg, w, s))
  {
    var w' := Next(cfg, w, s);
    if s.Tick? {
      TickExclusive(cfg, w, s.ts);
    } else if s.Wake? || (s.Acquire? && w.slots.idle != []) {
      TakeExclusive(w, s.t, w.requests[s.t].attempt);
    } else if s.Connected? {
      MakeExclusive(w, s.t, w.requests[s.t].attempt, s.now);
    } else if s.Finish? && w'.slots.idle != w.slots.idle {
      ReturnExclusive(w, s.t, w'.slots.idle[|w.slots.idle|]);
    } else {
      LeaveExclusive(w, s.t, w'.requests[s.t]);
    }
  }

  lemma StepFresh(cfg: PoolConfig, w: World, s: Step)
    requires Fresh(cfg, w) && Attempts(w) && Enabled(w, s)
    ensures Fresh(cfg, Next(cfg, w, s)) && Attempts(Next(cfg, w, s))
  {
    if s.Tick? {
      forall c | c in Kept(cfg, w.slots.idle, s.ts)
        ensures c in w.slots.idle
      {
        KeptMembers(cfg, w.slots.idle, |w.slots.idle|, s.ts, c);
      }
    }
  }

  ghost predicate Sound(cfg: PoolConfig, w: World) {
    Conserved(cfg, w) && Exclusive(w) && Fresh(cfg, w) && Attempts(w)
  }

  lemma {:induction false} SoundOnwards(cfg: PoolConfig, w: World, steps: seq<Step>)
    requires cfg.maxConns < UINT32 && Sound(cfg, w) && Allowed(cfg, w, steps)
    ensures Sound(cfg, After(cfg, w, steps))
    ensures After(cfg, w, steps).discarded >= w.discarded
    decreases |steps|
  {
    if steps != [] {
      StepConserves(cfg, w, steps[0]);
      StepExclusive(cfg, w, steps[0]);
      StepFresh(cfg, w, steps[0]);
      SoundOnwards(cfg, Next(cfg, w, steps[0]), steps[1..]);
    }
  }

  /** Whatever the requests do and however their steps interleave, no slot is lost, lent twice or lent beyond the limit. */
  lemma PoolIsSound(cfg: PoolConfig, steps: seq<Step>)
    requires cfg.maxConns < UINT32 && Allowed(cfg, START, steps)
    ensures Sound(cfg, After(cfg, START, steps))
  {
    assert Holders(START.requests) == {} && Connectors(START.requests) == {};
    SoundOnwards(cfg, START, steps);
  }

  /** How many steps a request can still take. */
  ghost function Rank(p: Phase): nat {
    match p
    case Arriving(a) => if a == 0 then 6 else 3
    case Waiting(a) => if a == 0 then 5 else 2
    case Connecting(a) => if a == 0 then 5 else 2
    case Holding(a, _) => if a == 0 then 4 else 1
    case Done(_) => 0
  }

  /** Each request's own steps number at most seven with its arrival, and no step moves another request. */
  lemma StepsRunOut(cfg: PoolConfig, w: World, s: Step, u: nat)
    requires Enabled(w, s) && Attempts(w) && u in w.requests
    ensures u in Next(cfg, w, s).requests
    ensures
      var before, now := w.requests[u], Next(cfg, w, s).requests[u];
      if !s.Tick? && s.t == u then Rank(now) < Rank(before) else now == before
  {
  }

  /** How many steps of a run are moves of request t. */
  function MovesOf(steps: seq<Step>, t: nat): nat {
    if steps == [] then 0 else (if !steps[0].Tick? && steps[0].t == t then 1 else 0) + MovesOf(steps[1..], t)
  }

  /** How many moves request t can still make, its arrival included. */
  ghost function Left(w: World, t: nat): nat {
    if t in w.requests then Rank(w.requests[t]) else 7
  }

  lemma StepLeft(cfg: PoolConfig, w: World, s: Step, t: nat)
    requires Enabled(w, s) && Attempts(w)
    ensures Left(Next(cfg, w, s), t) + (if !s.Tick? && s.t == t then 1 else 0) <= Left(w, t)
  {
    if t in w.requests {
      StepsRunOut(cfg, w, s, t);
    }
  }

  lemma {:induction false} MovesBounded(cfg: PoolConfig, w: World, steps: seq<Step>, t: nat)
    requires Fresh(cfg, w) && Attempts(w) && Allowed(cfg, w, steps)
    ensures MovesOf(steps, t) + Left(After(cfg, w, steps), t) <= Left(w, t)
    decreases |steps|
  {
    if steps != [] {
      StepLeft(cfg, w, steps[0], t);
      StepFresh(cfg, w, steps[0]);
      MovesBounded(cfg, Next(cfg, w, steps[0]), steps[1..], t);
    }
  }

  /** In any run from the start a request makes at most seven moves, and after seven it is done. */
  lemma SevenMoves(cfg: PoolConfig, steps: seq<Step>, t: nat)
    requires Allowed(cfg, START, steps)
    ensures MovesOf(steps, t) <= 7
    ensures MovesOf(steps, t) == 7 ==> t in After(cfg, START, steps).requests && After(cfg, START, steps).requests[t].Done?
  {
    MovesBounded(cfg, START, steps, t);
  }

  /** A request that is not done always has a step: nothing waits forever on a lock or a signal. */
  lemma NeverStuck(w: World, t: nat)
    requires t in w.requests && !w.requests[t].Done?
    ensures exists s: Step :: !s.Tick? && s.t == t && Enabled(w, s)
  {
    var s :=
      match w.requests[t]
      case Arriving(_) => Acquire(t)
      case Waiting(_) => if w.slots.idle == [] then TimeOut(t) else Wake(t)
      case Connecting(_) => ConnectFailed(t)
      case _ => Broken(t);
    assert Enabled(w, s);
  }

  /** No connection carries more requests than the limit on keep-alive allows, or one where that is zero. */
  lemma UseIsBounded(cfg: PoolConfig, steps: seq<Step>, t: nat)
    requires cfg.maxConns < UINT32 && Allowed(cfg, START, steps)
    requires t in After(cfg, START, steps).requests && After(cfg, START, steps).requests[t].Holding?
    ensures
      var used := After(cfg, START, steps).requests[t].conn.requestCount + 1;
      used == 1 || used <= cfg.maxKeepalive
  {
    PoolIsSound(cfg, steps);
    assert Holds(After(cfg, START, steps).requests, t);
  }

  ghost predicate Quiet(w: World) {
    Holders(w.requests) == {} && Connectors(w.requests) == {}
  }

  /**
   With nothing in flight, a new request gets a connection or a slot at once exactly if fewer connections than the limit were
   thrown away as broken: their slots never come back.
   */
  lemma AdmitsIffSlotsLeft(cfg: PoolConfig, w: World)
    requires cfg.maxConns < UINT32 && Sound(cfg, w) && Quiet(w)
    ensures TryAcquire(cfg, w.slots).1 != Exhausted <==> w.discarded < cfg.maxConns
  {
  }

  /** Once every slot is lost that way no request is ever served again. */
  lemma {:induction false} SlotsLostForGood(cfg: PoolConfig, w: World, steps: seq<Step>)
    requires cfg.maxConns < UINT32 && Sound(cfg, w) && w.discarded == cfg.maxConns && Allowed(cfg, w, steps)
    ensures Quiet(After(cfg, w, steps)) && After(cfg, w, steps).slots.idle == []
    ensures After(cfg, w, steps).discarded == cfg.maxConns
    ensures forall s | s in steps :: !s.Finish?
    decreases |steps|
  {
    NothingLeft(cfg, w);
    if steps != [] {
      var s := steps[0];
      SoundOnwards(cfg, w, [s]);
      assert After(cfg, w, [s]) == Next(cfg, w, s) by {
        assert [s][1..] == [];
      }
      assert forall t :: Holds(w.requests, t) ==> t in Holders(w.requests);
      SlotsLostForGood(cfg, Next(cfg, w, s), steps[1..]);
    }
  }

  lemma NothingLeft(cfg: PoolConfig, w: World)
    requires Conserved(cfg, w) && w.discarded == cfg.maxConns
    ensures Quiet(w) && w.slots.idle == []
  {
    if t :| t in Holders(w.requests) {
      MemberCounts(Holders(w.requests), t);
    }
    if t :| t in Connectors(w.requests) {
      MemberCounts(Connectors(w.requests), t);
    }
  }

  /** How many connections a run throws away: one for each request that fails while holding one. */
  function BrokenIn(steps: seq<Step>): nat {
    if steps == [] then 0 else (if steps[0].Broken? then 1 else 0) + BrokenIn(steps[1..])
  }

  lemma {:induction false} DiscardedIsBroken(cfg: PoolConfig, w: World, steps: seq<Step>)
    requires Allowed(cfg, w, steps)
    ensures After(cfg, w, steps).discarded == w.discarded + BrokenIn(steps)
    decreases |steps|
  {
    if steps != [] {
      DiscardedIsBroken(cfg, Next(cfg, w, steps[0]), steps[1..]);
    }
  }

  /**
   From the start: a run throws away at most as many connections as the limit allows, and when it leaves nothing in flight, a new
   request gets a connection or a slot at once exactly if it threw away fewer.
   */
  lemma AdmitsIffFewBroken(cfg: PoolConfig, steps: seq<Step>)
    requires cfg.maxConns < UINT32 && Allowed(cfg, START, steps)
    ensures BrokenIn(steps) <= cfg.maxConns
    ensures Quiet(After(cfg, START, steps)) ==>
              (TryAcquire(cfg, After(cfg, START, steps).slots).1 != Exhausted <==> BrokenIn(steps) < cfg.maxConns)
  {
    PoolIsSound(cfg, steps);
    DiscardedIsBroken(cfg, START, steps);
    if Quiet(After(cfg, START, steps)) {
      AdmitsIffSlotsLeft(cfg, After(cfg, START, steps));
    }
  }

  lemma {:induction false} RunSplits(cfg: PoolConfig, w: World, a: seq<Step>, b: seq<Step>)
    requires Allowed(cfg, w, a + b)
    ensures Allowed(cfg, w, a) && Allowed(cfg, After(cfg, w, a), b)
    ensures After(cfg, w, a + b) == After(cfg, After(cfg, w, a), b)
    decreases |a|
  {
    if a == [] {
      assert a + b == b;
    } else {
      assert (a + b)[1..] == a[1..] + b;
      RunSplits(cfg, Next(cfg, w, a[0]), a[1..], b);
    }
  }

  /** In no run is a request served once as many have failed on a connection as the limit allows connections. */
  lemma NotServedAfterLimit(cfg: PoolConfig, before: seq<Step>, after: seq<Step>)
    requires cfg.maxConns < UINT32 && Allowed(cfg, START, before + after) && BrokenIn(before) == cfg.maxConns
    ensures forall s | s in after :: !s.Finish?
  {
    RunSplits(cfg, START, before, after);
    PoolIsSound(cfg, before);
    DiscardedIsBroken(cfg, START, before);
    SlotsLostForGood(cfg, After(cfg, START, before), after);
  }

  /** With a limit of one, one broken connection is enough: every later request waits until it times out. */
  lemma OneBrokenIsEnough(cfg: PoolConfig)
    requires cfg.maxConns == 1
    ensures
      var steps := [Arrive(0), Acquire(0), Connected(0, 0), Broken(0)];
      && Allowed(cfg, START, steps)
      && Quiet(After(cfg, START, steps)) && After(cfg, START, steps).slots == Slots([], 1)
      && TryAcquire(cfg, After(cfg, START, steps).slots).1 == Exhausted
  {
    var w1 := Next(cfg, START, Arrive(0));
    var w2 := Next(cfg, w1, Acquire(0));
    var w3 := Next(cfg, w2, Connected(0, 0));
    var w4 := Next(cfg, w3, Broken(0));
    assert w2.requests[0] == Connecting(0) && w3.requests[0] == Holding(0, Conn(0, 0, 0)) && w4.requests[0] == Arriving(1);
    OneStep(cfg, w3, Broken(0), []);
    OneStep(cfg, w2, Connected(0, 0), [Broken(0)]);
    OneStep(cfg, w1, Acquire(0), [Connected(0, 0), Broken(0)]);
    OneStep(cfg, START, Arrive(0), [Acquire(0), Connected(0, 0), Broken(0)]);
    assert forall t | t in w4.requests :: t == 0;
  }

  lemma OneStep(cfg: PoolConfig, w: World, s: Step, rest: seq<Step>)
    requires Enabled(w, s) && Allowed(cfg, Next(cfg, w, s), rest)
    ensures Allowed(cfg, w, [s] + rest) && After(cfg, w, [s] + rest) == After(cfg, Next(cfg, w, s), rest)
  {
    assert ([s] + rest)[1..] == rest;
  }

  /**
   A request that waits takes an idle connection and nothing else: while none is idle its only step is the timeout, however many
   slots are free, and no step of another request ends its wait.
   */
  lemma WaiterNeedsIdle(cfg: PoolConfig, w: World, t: nat, s: Step)
    requires t in w.requests && w.requests[t].Waiting? && Enabled(w, s)
    ensures if !s.Tick? && s.t == t then s == (if w.slots.idle == [] then TimeOut(t) else Wake(t))
            else t in Next(cfg, w, s).requests && Next(cfg, w, s).requests[t] == w.requests[t]
  {
  }

  /**
   So a slot freed by a connection that is not reused goes past it: with a limit of one, request 1 waits for request 0, whose
   connection then proves invalid; the slot is free for a newcomer, while request 1 can only time out.
   */
  lemma FreedSlotMissed(cfg: PoolConfig)
    requires cfg.maxConns == 1
    ensures
      var steps := [Arrive(0), Acquire(0), Connected(0, 0), Arrive(1), Acquire(1), Finish(0, false, 0)];
      && Allowed(cfg, START, steps)
      && var w := After(cfg, START, steps);
         && w.slots == Slots([], 0) && 1 in w.requests && w.requests[1] == Waiting(0)
         && TryAcquire(cfg, w.slots).1 == Reserved && Enabled(w, TimeOut(1)) && !Enabled(w, Wake(1))
  {
    var w1 := Next(cfg, START, Arrive(0));
    var w2 := Next(cfg, w1, Acquire(0));
    var w3 := Next(cfg, w2, Connected(0, 0));
    var w4 := Next(cfg, w3, Arrive(1));
    var w5 := Next(cfg, w4, Acquire(1));
    var w6 := Next(cfg, w5, Finish(0, false, 0));
    assert w5.requests[0] == Holding(0, Conn(0, 0, 0)) && w5.requests[1] == Waiting(0) && w6.requests[1] == Waiting(0);
    OneStep(cfg, w5, Finish(0, false, 0), []);
    OneStep(cfg, w4, Acquire(1), [Finish(0, false, 0)]);
    OneStep(cfg, w3, Arrive(1), [Acquire(1), Finish(0, false, 0)]);
    OneStep(cfg, w2, Connected(0, 0), [Arrive(1), Acquire(1), Finish(0, false, 0)]);
    OneStep(cfg, w1, Acquire(0), [Connected(0, 0), Arrive(1), Acquire(1), Finish(0, false, 0)]);
    OneStep(cfg, START, Arrive(0), [Acquire(0), Connected(0, 0), Arrive(1), Acquire(1), Finish(0, false, 0)]);
  }

  /** The pool object: each method is one section run under the lock. */
  class Pool {
    const cfg: PoolConfig
    var idle: seq<Conn>
    var total: nat
    var failedRequests: nat

    ghost predicate Valid()
      reads this
    {
      |idle| <= total <= cfg.maxConns < UINT32
    }

    ghost function State(): Slots
      reads this
    {
      Slots(idle, total)
    }

    constructor (cfg: PoolConfig)
      requires cfg.maxConns < UINT32
      ensures Valid() && State() == START.slots && this.cfg == cfg && failedRequests == 0
    {
      this.cfg := cfg;
      idle, total, failedRequests := [], 0, 0;
    }

    /** acquire up to the point where it waits or drops the lock. */
    method BeginAcquire() returns (r: Acquired)
      requires Valid()
      modifies this`idle, this`total
      ensures Valid() && (State(), r) == TryAcquire(cfg, old(State()))
    {
      if idle != [] {
        r := Got(idle[0]);
        idle := idle[1..];
      } else if total >= cfg.maxConns {
        r := Exhausted;
      } else {
        total := Inc(total);
        r := Reserved;
      }
    }

    /** The end of a wait: a connection if one is idle, else the timeout. */
    method EndWait() returns (r: Option<Conn>)
      requires Valid()
      modifies this`idle
      ensures Valid()
      ensures if old(idle) == [] then r == None && idle == [] else r == Some(old(idle)[0]) && idle == old(idle)[1..]
    {
      if idle == [] {
        return None;
      }
      r := Some(idle[0]);
      idle := idle[1..];
    }

    /** A failed connect gives its slot back; the caller reserved one. */
    method EndConnect(ok: bool)
      requires Valid() && |idle| < total
      modifies this`total, this`failedRequests
      ensures Valid() && total == if ok then old(total) else Dec(old(total))
      ensures failedRequests == old(failedRequests) + if ok then 0 else 1
    {
      if !ok {
        total := Dec(total);
        failedRequests := failedRequests + 1;
      }
    }

    /** release; nullptr changes nothing. The caller holds a connection of this pool. */
    method Release(conn: Option<Conn>, valid: bool, now: nat)
      requires Valid() && (conn.Some? ==> |idle| < total)
      modifies this`idle, this`total
      ensures Valid()
      ensures State() == if conn.Some? then Released(cfg, old(State()), conn.value, valid, now) else old(State())
    {
      if conn.None? {
        return;
      }
      var c := conn.value.(lastUsed := now);
      if !valid || c.requestCount >= cfg.maxKeepalive {
        total := Dec(total);
        return;
      }
      idle := idle + [c];
    }

    /** Erases the expired connections one by one, moving on over the others. */
    method EvictIdle(ts: nat)
      requires Valid()
      modifies this`idle, this`total
      ensures Valid() && State() == Evicted(cfg, old(State()), ts)
    {
      var it := 0;
      ghost var all, done, gone, kept := idle, 0, 0, [];
      while it < |idle|
        invariant done <= |all| && kept == KeptOf(cfg, all, done, ts) && it == |kept|
        invariant idle == kept + all[done..]
        invariant |idle| <= total <= cfg.maxConns
        invariant |idle| + gone == |all| && DecBy(old(total), gone) == total
        decreases |idle| - it
      {
        OneMore(kept, all, done, idle);
        if Expired(cfg, idle[it], ts) {
          DecByLast(old(total), gone);
          gone := gone + 1;
          idle := idle[..it] + idle[it + 1..];
          total := Dec(total);
        } else {
          kept := kept + [idle[it]];
          it := it + 1;
        }
        done := done + 1;
      }
    }
  }

  lemma OneMore(kept: seq<Conn>, all: seq<Conn>, done: nat, now: seq<Conn>)
    requires done < |all| && now == kept + all[done..]
    ensures now[|kept|] == all[done]
    ensures now[..|kept|] + now[|kept| + 1..] == kept + all[done + 1..]
    ensures now == kept + [all[done]] + all[done + 1..]
  {
  }

  lemma {:induction false} DecByLast(n: nat, k: nat)
    ensures DecBy(n, k + 1) == Dec(DecBy(n, k))
    decreases k
  {
    if k > 0 {
      DecByLast(Dec(n), k - 1);
    }
  }
}
