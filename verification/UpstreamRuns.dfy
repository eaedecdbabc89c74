/**
 What the pool does with each connection over a whole run, told from the run's own steps: when it was last returned, how often it was
 used, in which order connections are handed out, and which ones a tick closes.
 */
module UpstreamRuns {
  import opened Bytes
  import opened UpstreamPool

  /** What the steps say of a connection: the time and the number of the last request that finished on it, and how many did. */
  datatype Use = Use(now: nat, at: nat, count: nat)

  const UNUSED := Use(0, 0, 0)

  function UseOf(m: map<nat, Use>, id: nat): Use {
    if id in m then m[id] else UNUSED
  }

  /** One step more; only a request that finishes uses its connection. */
  function Noted(w: World, s: Step, m: map<nat, Use>, at: nat): map<nat, Use>
    requires Enabled(w, s)
  {
    if s.Finish? then
      var id := w.requests[s.t].conn.id;
      m[id := Use(s.now, at, UseOf(m, id).count + 1)]
    else m
  }

  /** The uses of all connections in a run, whose steps are counted from at. */
  ghost function Uses(cfg: PoolConfig, w: World, steps: seq<Step>, m: map<nat, Use>, at: nat): map<nat, Use>
    requires Allowed(cfg, w, steps)
    decreases |steps|
  {
    if steps == [] then m else Uses(cfg, Next(cfg, w, steps[0]), steps[1..], Noted(w, steps[0], m, at), at + 1)
  }

  ghost function UsesFromStart(cfg: PoolConfig, steps: seq<Step>): map<nat, Use>
    requires Allowed(cfg, START, steps)
  {
    Uses(cfg, START, steps, map[], 1)
  }

  /** The pool's own records agree with the steps, and idle connections are in the order in which they were returned. */
  ghost predicate Recorded(w: World, m: map<nat, Use>, at: nat) {
    && (forall c | c in w.slots.idle :: c.id in m && c.lastUsed == m[c.id].now && c.requestCount == m[c.id].count)
    && (forall t | Holds(w.requests, t) :: w.requests[t].conn.requestCount == UseOf(m, w.requests[t].conn.id).count)
    && (forall id | id in m :: m[id].at < at && id < w.nextId)
    && InOrder(w.slots.idle, m)
  }

  ghost predicate InOrder(idle: seq<Conn>, m: map<nat, Use>) {
    forall i, j | 0 <= i < j < |idle| :: UseOf(m, idle[i].id).at < UseOf(m, idle[j].id).at
  }

  lemma NothingRecorded()
    ensures Recorded(START, map[], 1)
  {
  }

  lemma TakeRecorded(w: World, m: map<nat, Use>, at: nat, t: nat, attempt: nat)
    requires Recorded(w, m, at) && w.slots.idle != []
    ensures Recorded(Moved(w.(slots := w.slots.(idle := w.slots.idle[1..])), t, Holding(attempt, w.slots.idle[0])), m, at + 1)
  {
    assert forall c | c in w.slots.idle[1..] :: c in w.slots.idle;
    assert w.slots.idle[0] in w.slots.idle;
  }

  /** Noting a use of a connection that is not idle. */
  lemma IdleUnchanged(idle: seq<Conn>, m: map<nat, Use>, id: nat, use: Use)
    requires InOrder(idle, m) && forall c | c in idle :: c.id != id
    ensures InOrder(idle, m[id := use]) && forall c | c in idle :: UseOf(m[id := use], c.id) == UseOf(m, c.id)
  {
    assert forall i | 0 <= i < |idle| :: idle[i] in idle;
  }

  lemma OrderGrown(idle: seq<Conn>, m: map<nat, Use>, c: Conn)
    requires InOrder(idle, m) && forall d | d in idle :: UseOf(m, d.id).at < UseOf(m, c.id).at
    ensures InOrder(idle + [c], m)
  {
    assert forall i | 0 <= i < |idle| :: idle[i] in idle;
  }

  lemma OthersHeld(w: World, t: nat, w': World)
    requires Exclusive(w) && Holds(w.requests, t) && w'.requests == w.requests[t := Done(true)]
    ensures forall u | Holds(w'.requests, u) ::
              Holds(w.requests, u) && w'.requests[u] == w.requests[u] && w'.requests[u].conn.id != w.requests[t].conn.id
  {
  }

  lemma FinishRecorded(cfg: PoolConfig, w: World, m: map<nat, Use>, at: nat, s: Step)
    requires Exclusive(w) && Recorded(w, m, at) && Enabled(w, s) && s.Finish?
    ensures Recorded(Next(cfg, w, s), Noted(w, s, m, at), at + 1)
  {
    var w', m' := Next(cfg, w, s), Noted(w, s, m, at);
    var conn := w.requests[s.t].conn;
    assert Holds(w.requests, s.t);
    IdleUnchanged(w.slots.idle, m, conn.id, m'[conn.id]);
    OthersHeld(w, s.t, w');
    if w'.slots.idle != w.slots.idle {
      var back := w'.slots.idle[|w.slots.idle|];
      assert back.id == conn.id && w'.slots.idle == w.slots.idle + [back];
      OrderGrown(w.slots.idle, m', back);
    }
  }

  lemma TickRecorded(cfg: PoolConfig, w: World, m: map<nat, Use>, at: nat, ts: nat)
    requires Recorded(w, m, at)
    ensures Recorded(w.(slots := Evicted(cfg, w.slots, ts)), m, at + 1)
  {
    var idle := w.slots.idle;
    forall c | c in Kept(cfg, idle, ts)
      ensures c in idle
    {
      KeptMembers(cfg, idle, |idle|, ts, c);
    }
    KeptOrdered(cfg, idle, |idle|, ts, m);
  }

  lemma {:induction false} KeptOrdered(cfg: PoolConfig, idle: seq<Conn>, n: nat, ts: nat, m: map<nat, Use>)
    requires n <= |idle| && InOrder(idle, m)
    ensures InOrder(KeptOf(cfg, idle, n, ts), m)
  {
    if n > 0 {
      var kept := KeptOf(cfg, idle, n - 1, ts);
      KeptOrdered(cfg, idle, n - 1, ts, m);
      forall i | 0 <= i < |kept|
        ensures UseOf(m, kept[i].id).at < UseOf(m, idle[n - 1].id).at
      {
        KeptMembers(cfg, idle, n - 1, ts, kept[i]);
        var k :| 0 <= k < n - 1 && idle[..n - 1][k] == kept[i];
        assert idle[k] == kept[i];
      }
    }
  }

  lemma StepRecorded(cfg: PoolConfig, w: World, m: map<nat, Use>, at: nat, s: Step)
    requires Exclusive(w) && Recorded(w, m, at) && Enabled(w, s)
    ensures Recorded(Next(cfg, w, s), Noted(w, s, m, at), at + 1)
  {
    if s.Tick? {
      TickRecorded(cfg, w, m, at, s.ts);
    } else if s.Finish? {
      FinishRecorded(cfg, w, m, at, s);
    } else if s.Wake? || (s.Acquire? && w.slots.idle != []) {
      TakeRecorded(w, m, at, s.t, w.requests[s.t].attempt);
    } else {
      OtherRecorded(cfg, w, m, at, s);
    }
  }

  lemma OtherRecorded(cfg: PoolConfig, w: World, m: map<nat, Use>, at: nat, s: Step)
    requires Exclusive(w) && Recorded(w, m, at) && Enabled(w, s)
    requires !s.Tick? && !s.Finish? && !s.Wake? && !(s.Acquire? && w.slots.idle != [])
    ensures Recorded(Next(cfg, w, s), m, at + 1)
  {
    var w' := Next(cfg, w, s);
    assert w'.slots.idle == w.slots.idle;
    forall t | Holds(w'.requests, t)
      ensures w'.requests[t].conn.requestCount == UseOf(m, w'.requests[t].conn.id).count
    {
      if t != s.t {
        assert Holds(w.requests, t);
      }
    }
  }

  lemma {:induction false} RunRecorded(cfg: PoolConfig, w: World, steps: seq<Step>, m: map<nat, Use>, at: nat)
    requires Exclusive(w) && Recorded(w, m, at) && Allowed(cfg, w, steps)
    ensures Exclusive(After(cfg, w, steps)) && Recorded(After(cfg, w, steps), Uses(cfg, w, steps, m, at), at + |steps|)
    decreases |steps|
  {
    if steps != [] {
      StepRecorded(cfg, w, m, at, steps[0]);
      StepExclusive(cfg, w, steps[0]);
      RunRecorded(cfg, Next(cfg, w, steps[0]), steps[1..], Noted(w, steps[0], m, at), at + 1);
    }
  }

  /** In any run the pool's records of its connections are what the steps say. */
  lemma RecordsAreTrue(cfg: PoolConfig, steps: seq<Step>)
    requires Allowed(cfg, START, steps)
    ensures Exclusive(After(cfg, START, steps))
    ensures Recorded(After(cfg, START, steps), UsesFromStart(cfg, steps), 1 + |steps|)
  {
    NothingRecorded();
    RunRecorded(cfg, START, steps, map[], 1);
  }

  /** The connections returned no longer ago than the timeout, or later than the tick, in order. */
  function Recent(idle: seq<Conn>, m: map<nat, Use>, ts: nat, timeout: nat): seq<Conn> {
    if idle == [] then []
    else
      var n := |idle| - 1;
      Recent(idle[..n], m, ts, timeout)
      + if ts < UseOf(m, idle[n].id).now || ts - UseOf(m, idle[n].id).now <= timeout then [idle[n]] else []
  }

  lemma {:induction false} KeptIsRecent(cfg: PoolConfig, idle: seq<Conn>, m: map<nat, Use>, ts: nat, n: nat)
    requires n <= |idle| && forall c | c in idle :: c.lastUsed == UseOf(m, c.id).now
    ensures KeptOf(cfg, idle, n, ts) == Recent(idle[..n], m, ts, cfg.idleTimeout)
  {
    if n > 0 {
      KeptIsRecent(cfg, idle, m, ts, n - 1);
      assert idle[..n][..n - 1] == idle[..n - 1];
      assert idle[n - 1] in idle;
    }
  }

  lemma {:induction false} RecentMembers(idle: seq<Conn>, m: map<nat, Use>, ts: nat, timeout: nat, c: Conn)
    ensures c in Recent(idle, m, ts, timeout) <==>
            c in idle && (ts < UseOf(m, c.id).now || ts - UseOf(m, c.id).now <= timeout)
  {
    if idle != [] {
      var n := |idle| - 1;
      RecentMembers(idle[..n], m, ts, timeout, c);
      assert idle == idle[..n] + [idle[n]];
    }
  }

  /** What a tick leaves of a pool. */
  ghost predicate Ticked(cfg: PoolConfig, w: World, m: map<nat, Use>, ts: nat, w': World) {
    && w'.slots.idle == Recent(w.slots.idle, m, ts, cfg.idleTimeout)
    && w'.slots.total == w.slots.total - (|w.slots.idle| - |w'.slots.idle|)
    && w'.requests == w.requests && w'.discarded == w.discarded && w'.nextId == w.nextId
  }

  lemma TickOn(cfg: PoolConfig, w: World, m: map<nat, Use>, at: nat, ts: nat)
    requires cfg.maxConns < UINT32 && Conserved(cfg, w) && Recorded(w, m, at)
    ensures Ticked(cfg, w, m, ts, Next(cfg, w, Tick(ts)))
  {
    var idle := w.slots.idle;
    KeptIsRecent(cfg, idle, m, ts, |idle|);
    assert idle[..|idle|] == idle;
    DecByIsMinus(w.slots.total, |idle| - |Kept(cfg, idle, ts)|);
  }

  /**
   Right after a tick of any run, an idle connection is still idle, and in its place, exactly if the request that returned it finished
   later than the tick or no longer before it than the timeout; the others have given their slots back, and nothing else changed.
   */
  lemma TickCloses(cfg: PoolConfig, steps: seq<Step>, ts: nat)
    requires cfg.maxConns < UINT32 && Allowed(cfg, START, steps)
    ensures
      var w, m := After(cfg, START, steps), UsesFromStart(cfg, steps);
      var w' := Next(cfg, w, Tick(ts));
      && Ticked(cfg, w, m, ts, w')
      && (forall c | c in w.slots.idle ::
            c in w'.slots.idle <==> ts < UseOf(m, c.id).now || ts - UseOf(m, c.id).now <= cfg.idleTimeout)
  {
    var w, m := After(cfg, START, steps), UsesFromStart(cfg, steps);
    RecordsAreTrue(cfg, steps);
    PoolIsSound(cfg, steps);
    TickOn(cfg, w, m, 1 + |steps|, ts);
    forall c | c in w.slots.idle
      ensures c in Recent(w.slots.idle, m, ts, cfg.idleTimeout) <==>
              ts < UseOf(m, c.id).now || ts - UseOf(m, c.id).now <= cfg.idleTimeout
    {
      RecentMembers(w.slots.idle, m, ts, cfg.idleTimeout, c);
    }
  }

  /** What a finished request leaves of a pool, given how often its connection has been used with it. */
  ghost predicate Returned(cfg: PoolConfig, w: World, s: Step, id: nat, count: nat, w': World)
    requires s.Finish?
  {
    && w'.requests == w.requests[s.t := Done(true)] && w'.discarded == w.discarded && w'.nextId == w.nextId
    && if s.valid && count < cfg.maxKeepalive
       then w'.slots.idle == w.slots.idle + [Conn(id, count, s.now)] && w'.slots.total == w.slots.total
       else w'.slots.idle == w.slots.idle && w'.slots.total == w.slots.total - 1
  }

  lemma FinishOn(cfg: PoolConfig, w: World, m: map<nat, Use>, at: nat, s: Step)
    requires cfg.maxConns < UINT32 && Conserved(cfg, w) && Recorded(w, m, at) && Enabled(w, s) && s.Finish?
    ensures var id := w.requests[s.t].conn.id; Returned(cfg, w, s, id, UseOf(m, id).count + 1, Next(cfg, w, s))
  {
    assert Holds(w.requests, s.t);
    MemberCounts(Holders(w.requests), s.t);
  }

  /**
   When a request finishes in any run, its connection goes to the back of the idle ones exactly if it is valid and, with this request,
   has carried fewer than the limit; otherwise its slot is given back. The request is served either way.
   */
  lemma FinishReturns(cfg: PoolConfig, steps: seq<Step>, s: Step)
    requires cfg.maxConns < UINT32 && Allowed(cfg, START, steps)
    requires s.Finish? && Enabled(After(cfg, START, steps), s)
    ensures
      var w := After(cfg, START, steps);
      var id := w.requests[s.t].conn.id;
      Returned(cfg, w, s, id, UseOf(UsesFromStart(cfg, steps), id).count + 1, Next(cfg, w, s))
  {
    RecordsAreTrue(cfg, steps);
    PoolIsSound(cfg, steps);
    FinishOn(cfg, After(cfg, START, steps), UsesFromStart(cfg, steps), 1 + |steps|, s);
  }

  /**
   What a request gets in any run: the idle connection that was returned first, if one is idle; else a slot to connect in, if fewer
   than the limit are held, being connected or lost with a broken connection; else it waits.
   */
  lemma AcquireGives(cfg: PoolConfig, steps: seq<Step>, t: nat)
    requires cfg.maxConns < UINT32 && Allowed(cfg, START, steps) && Enabled(After(cfg, START, steps), Acquire(t))
    ensures
      var w, m := After(cfg, START, steps), UsesFromStart(cfg, steps);
      var w', attempt := Next(cfg, w, Acquire(t)), w.requests[t].attempt;
      if w.slots.idle != [] then
        && w'.requests[t] == Holding(attempt, w.slots.idle[0]) && w'.slots == w.slots.(idle := w.slots.idle[1..])
        && forall c | c in w.slots.idle :: UseOf(m, w.slots.idle[0].id).at <= UseOf(m, c.id).at
      else if |Holders(w.requests)| + |Connectors(w.requests)| + BrokenIn(steps) < cfg.maxConns then
        w'.requests[t] == Connecting(attempt) && w'.slots == w.slots.(total := w.slots.total + 1)
      else w'.requests[t] == Waiting(attempt) && w'.slots == w.slots
  {
    var w, m := After(cfg, START, steps), UsesFromStart(cfg, steps);
    RecordsAreTrue(cfg, steps);
    PoolIsSound(cfg, steps);
    DiscardedIsBroken(cfg, START, steps);
    if w.slots.idle != [] {
      forall c | c in w.slots.idle
        ensures UseOf(m, w.slots.idle[0].id).at <= UseOf(m, c.id).at
      {
        var k :| 0 <= k < |w.slots.idle| && w.slots.idle[k] == c;
      }
    }
  }

  /** Whether a run has a step of request t that finishes it, one on which it gives up, and on how many connections it fails. */
  predicate Finishes(steps: seq<Step>, t: nat) {
    exists s | s in steps :: s.Finish? && s.t == t
  }

  predicate GivesUp(steps: seq<Step>, t: nat) {
    exists s | s in steps :: (s.TimeOut? || s.ConnectFailed?) && s.t == t
  }

  function BrokenOf(steps: seq<Step>, t: nat): nat {
    if steps == [] then 0 else (if steps[0] == Broken(t) then 1 else 0) + BrokenOf(steps[1..], t)
  }

  lemma FirstOf(steps: seq<Step>, t: nat)
    requires steps != []
    ensures Finishes(steps, t) <==> (steps[0].Finish? && steps[0].t == t) || Finishes(steps[1..], t)
    ensures GivesUp(steps, t) <==> ((steps[0].TimeOut? || steps[0].ConnectFailed?) && steps[0].t == t) || GivesUp(steps[1..], t)
  {
    assert steps == [steps[0]] + steps[1..];
  }

  /** Failures of a request so far. */
  function Failures(w: World, t: nat): nat {
    if t in w.requests && !w.requests[t].Done? then w.requests[t].attempt else 0
  }

  predicate Is(w: World, t: nat, served: bool) {
    t in w.requests && w.requests[t] == Done(served)
  }

  /** What one step does to a request. */
  lemma StepOutcome(cfg: PoolConfig, w: World, s: Step, t: nat)
    requires Enabled(w, s) && Attempts(w)
    ensures var w', own := Next(cfg, w, s), !s.Tick? && s.t == t;
            && (Is(w', t, true) <==> Is(w, t, true) || (own && s.Finish?))
            && (Is(w', t, false) <==> Is(w, t, false) || (own && (s.TimeOut? || s.ConnectFailed? || (s.Broken? && Failures(w, t) == 1))))
            && (own ==> !Is(w, t, true) && !Is(w, t, false))
            && (!Is(w', t, true) && !Is(w', t, false) ==> Failures(w', t) == Failures(w, t) + if own && s.Broken? then 1 else 0)
            && Failures(w, t) <= 1
  {
  }

  lemma {:induction false} OverIsOver(cfg: PoolConfig, w: World, steps: seq<Step>, t: nat)
    requires Allowed(cfg, w, steps) && Attempts(w) && Fresh(cfg, w) && (Is(w, t, true) || Is(w, t, false))
    ensures !Finishes(steps, t) && !GivesUp(steps, t) && BrokenOf(steps, t) == 0
    decreases |steps|
  {
    if steps != [] {
      FirstOf(steps, t);
      StepOutcome(cfg, w, steps[0], t);
      StepFresh(cfg, w, steps[0]);
      OverIsOver(cfg, Next(cfg, w, steps[0]), steps[1..], t);
    }
  }

  lemma {:induction false} RunOutcome(cfg: PoolConfig, w: World, steps: seq<Step>, t: nat)
    requires Allowed(cfg, w, steps) && Attempts(w) && Fresh(cfg, w)
    ensures var w' := After(cfg, w, steps);
            && (Is(w', t, true) <==> Is(w, t, true) || Finishes(steps, t))
            && (Is(w', t, false) <==> Is(w, t, false) || GivesUp(steps, t) || Failures(w, t) + BrokenOf(steps, t) >= 2)
            && (!Is(w', t, true) && !Is(w', t, false) ==> Failures(w', t) == Failures(w, t) + BrokenOf(steps, t) <= 1)
    decreases |steps|
  {
    if steps == [] {
      StepOutcome(cfg, w, Tick(0), t);
    } else {
      var w1 := Next(cfg, w, steps[0]);
      FirstOf(steps, t);
      StepOutcome(cfg, w, steps[0], t);
      StepFresh(cfg, w, steps[0]);
      RunOutcome(cfg, w1, steps[1..], t);
      if Is(w1, t, true) || Is(w1, t, false) {
        OverIsOver(cfg, w1, steps[1..], t);
      }
    }
  }

  /**
   What becomes of a request in any run: it is served exactly if it finishes on a connection, and it fails exactly if it cannot
   connect, waits in vain, or fails on a connection twice; until then it is at its second attempt exactly if it failed once.
   */
  lemma Outcome(cfg: PoolConfig, steps: seq<Step>, t: nat)
    requires Allowed(cfg, START, steps)
    ensures var w := After(cfg, START, steps);
            && (Is(w, t, true) <==> Finishes(steps, t))
            && (Is(w, t, false) <==> GivesUp(steps, t) || BrokenOf(steps, t) >= 2)
            && (t in w.requests && !w.requests[t].Done? ==> w.requests[t].attempt == BrokenOf(steps, t) <= 1)
  {
    RunOutcome(cfg, START, steps, t);
  }
}
