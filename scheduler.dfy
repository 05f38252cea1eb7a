/**
 * The watcher's polling schedule. The loop counts ticks and reconciles
 * whenever the tick count is a multiple of the current interval: 60 ticks
 * normally, 6 ticks while the burst counter is positive. Each reconciliation
 * uses up one unit of burst once its query has returned; starting or
 * stopping an instance sets the burst counter back to 10. A tick is one
 * second of sleep, plus the query's running time when it reconciles.
 */
module Scheduler {

  const NormalInterval: nat := 60
  const BurstInterval: nat := 6
  const BurstLength: nat := 10

  /** The scheduling state: the loop's tick count and the shared burst counter. */
  datatype Phase = Phase(tick: nat, burst: int)

  /** The outcome of one loop iteration: the new state and whether it reconciled. */
  datatype StepResult = StepResult(phase: Phase, reconciled: bool)

  /** The outcome of a run of iterations: the final state and the ticks that reconciled. */
  datatype RunResult = RunResult(last: Phase, reconciled: seq<nat>)

  /**
   * When a start or stop request reaches the shared burst counter, relative
   * to one loop iteration: not at all, during the sleep before it (so before
   * the interval is chosen), or while its query runs (after the interval is
   * chosen and before the burst is used up).
   */
  datatype Request = NoRequest | DuringSleep | DuringQuery

  /** The interval the loop uses for a given burst counter. */
  function Interval(burst: int): (r: nat)
    ensures r == BurstInterval <==> burst > 0
    ensures r == NormalInterval <==> burst <= 0
  {
    if burst <= 0 then NormalInterval else BurstInterval
  }

  /** The first half of an iteration: advance the tick and decide whether to reconcile. */
  function Decide(p: Phase): (s: StepResult)
    ensures s.phase == p.(tick := p.tick + 1)
    ensures p.burst > 0 ==> (s.reconciled <==> s.phase.tick % BurstInterval == 0)
    ensures p.burst <= 0 ==> (s.reconciled <==> s.phase.tick % NormalInterval == 0)
    ensures s.reconciled ==> s.phase.tick % BurstInterval == 0
  {
    var tick := p.tick + 1;
    var reconcile := tick % Interval(p.burst) == 0;
    assert reconcile ==> tick % BurstInterval == 0 by {
      if reconcile && p.burst <= 0 {
        SixtyIsFast(tick);
      }
    }
    StepResult(Phase(tick, p.burst), reconcile)
  }

  /** The second half: a reconciliation uses up one unit of burst, if any is left. */
  function Settle(p: Phase, reconciled: bool): (r: Phase)
    ensures r.tick == p.tick
    ensures reconciled && p.burst > 0 ==> r.burst == p.burst - 1
    ensures !reconciled || p.burst <= 0 ==> r == p
    ensures 0 <= p.burst ==> 0 <= r.burst <= p.burst
  {
    if reconciled && p.burst > 0 then p.(burst := p.burst - 1) else p
  }

  /** The state after a start or stop request (when `action` holds). */
  function AfterAction(p: Phase, action: bool): (r: Phase)
    ensures r.tick == p.tick
    ensures action ==> r.burst == BurstLength
    ensures !action ==> r == p
  {
    if action then p.(burst := BurstLength) else p
  }

  /** One iteration of the watcher loop, with the request that reaches it. */
  function Next(p: Phase, request: Request): (s: StepResult)
    ensures s.phase.tick == p.tick + 1
    ensures s.reconciled ==> s.phase.tick % BurstInterval == 0
    ensures 0 <= p.burst <= BurstLength ==> 0 <= s.phase.burst <= BurstLength
    ensures request == DuringQuery && s.reconciled ==> s.phase.burst == BurstLength - 1
    ensures request == NoRequest && !s.reconciled ==> s.phase.burst == p.burst
  {
    var d := Decide(AfterAction(p, request == DuringSleep));
    StepResult(Settle(AfterAction(d.phase, request == DuringQuery), d.reconciled), d.reconciled)
  }

  /** A run of iterations; `requests[i]` tells how a request reached iteration `i`. */
  function Run(p: Phase, requests: seq<Request>): (r: RunResult)
    decreases |requests|
  {
    if requests == [] then RunResult(p, [])
    else
      var s := Next(p, requests[0]);
      var rest := Run(s.phase, requests[1..]);
      RunResult(rest.last, (if s.reconciled then [s.phase.tick] else []) + rest.reconciled)
  }

  /** A run of `n` iterations without requests. */
  function Idle(n: nat): (a: seq<Request>)
    ensures |a| == n && forall i :: 0 <= i < n ==> a[i] == NoRequest
  {
    if n == 0 then [] else [NoRequest] + Idle(n - 1)
  }

  /** The mutable scheduling state of the program. */
  class Scheduler {
    var tick: nat
    var burst: int

    function State(): (p: Phase)
      reads this
    {
      Phase(tick, burst)
    }

    /** The state at the start of the watcher: no ticks yet, no burst. */
    constructor ()
      ensures State() == Phase(0, 0)
    {
      tick := 0;
      burst := 0;
    }

    /** A start or stop request: the burst counter is reset to 10, whatever it was. */
    method TriggerBurst()
      modifies this`burst
      ensures burst == BurstLength
      ensures State() == AfterAction(old(State()), true)
    {
      burst := BurstLength;
    }

    /**
     * The start of an iteration: choose the interval from the burst counter,
     * advance the tick and decide whether this iteration reconciles.
     */
    method Tick() returns (reconcile: bool)
      modifies this`tick
      ensures tick == old(tick) + 1
      ensures reconcile <==> tick % Interval(burst) == 0
      ensures StepResult(State(), reconcile) == Decide(old(State()))
    {
      var interval := Interval(burst);
      tick := tick + 1;
      reconcile := tick % interval == 0;
    }

    /**
     * The end of a reconciling iteration: one unit of burst is used up,
     * read from the counter as it is after the query, never going below 0.
     */
    method UseBurst(reconciled: bool)
      modifies this`burst
      ensures !reconciled ==> burst == old(burst)
      ensures reconciled ==> burst == if old(burst) > 0 then old(burst) - 1 else old(burst)
      ensures State() == Settle(old(State()), reconciled)
    {
      if reconciled {
        burst := burst - (if burst > 0 then 1 else 0);
      }
    }
  }

  /** Running `a` then `b` is the run of `a` followed by the run of `b` from where `a` ended. */
  lemma {:induction false} RunAppend(p: Phase, a: seq<Request>, b: seq<Request>)
    ensures Run(p, a + b) ==
              RunResult(Run(Run(p, a).last, b).last, Run(p, a).reconciled + Run(Run(p, a).last, b).reconciled)
    decreases |a|
  {
    if a == [] {
      assert a + b == b;
    } else {
      assert (a + b)[0] == a[0];
      assert (a + b)[1..] == a[1..] + b;
      var s := Next(p, a[0]);
      RunAppend(s.phase, a[1..], b);
      var head: seq<nat> := if s.reconciled then [s.phase.tick] else [];
      assert head + Run(s.phase, a[1..]).reconciled + Run(Run(s.phase, a[1..]).last, b).reconciled ==
             head + (Run(s.phase, a[1..]).reconciled + Run(Run(s.phase, a[1..]).last, b).reconciled);
    }
  }

  /**
   * The watcher thread: one reconciliation on entry (at tick 0), then one
   * loop iteration per element of `requests`, with a start or stop request
   * reaching it where the element says. It returns the ticks at which the
   * store was reconciled.
   */
  method Watch(requests: seq<Request>) returns (reconciled: seq<nat>, final: Phase)
    ensures reconciled == [0] + Run(Phase(0, 0), requests).reconciled
    ensures final == Run(Phase(0, 0), requests).last
  {
    var scheduler := new Scheduler();
    reconciled := [0];
    var i := 0;
    while i < |requests|
      invariant 0 <= i <= |requests|
      invariant scheduler.State() == Run(Phase(0, 0), requests[..i]).last
      invariant reconciled == [0] + Run(Phase(0, 0), requests[..i]).reconciled
    {
      RunAppend(Phase(0, 0), requests[..i], [requests[i]]);
      assert requests[..i] + [requests[i]] == requests[..i + 1];
      if requests[i] == DuringSleep {
        scheduler.TriggerBurst();
      }
      var reconcile := scheduler.Tick();
      if requests[i] == DuringQuery {
        scheduler.TriggerBurst();
      }
      scheduler.UseBurst(reconcile);
      if reconcile {
        reconciled := reconciled + [scheduler.tick];
      }
      i := i + 1;
    }
    assert requests[..i] == requests;
    final := scheduler.State();
  }

  /** Ticks only move forward: the reconciled ticks of a run are strictly increasing and lie inside it. */
  lemma {:induction false} RunTicks(p: Phase, requests: seq<Request>)
    ensures Run(p, requests).last.tick == p.tick + |requests|
    ensures |Run(p, requests).reconciled| <= |requests|
    ensures forall i :: 0 <= i < |Run(p, requests).reconciled| ==>
              p.tick < Run(p, requests).reconciled[i] <= p.tick + |requests|
    ensures forall i, j :: 0 <= i < j < |Run(p, requests).reconciled| ==>
              Run(p, requests).reconciled[i] < Run(p, requests).reconciled[j]
    decreases |requests|
  {
    if requests != [] {
      var s := Next(p, requests[0]);
      RunTicks(s.phase, requests[1..]);
    }
  }

  /** A burst counter that starts between 0 and 10 stays between 0 and 10: it never goes negative. */
  lemma {:induction false} BurstStaysInRange(p: Phase, requests: seq<Request>)
    requires 0 <= p.burst <= BurstLength
    ensures 0 <= Run(p, requests).last.burst <= BurstLength
    decreases |requests|
  {
    if requests != [] {
      BurstStaysInRange(Next(p, requests[0]).phase, requests[1..]);
    }
  }

  /** Without a burst, and without requests, the loop reconciles exactly at the multiples of 60. */
  lemma {:induction false} NormalSchedule(t: nat, n: nat)
    ensures Run(Phase(t, 0), Idle(n)).last == Phase(t + n, 0)
    ensures forall k :: k in Run(Phase(t, 0), Idle(n)).reconciled <==> t < k <= t + n && k % NormalInterval == 0
    decreases n
  {
    if n > 0 {
      assert Idle(n)[1..] == Idle(n - 1);
      NormalSchedule(t + 1, n - 1);
    }
  }

  /** At tick 59 of normal mode nothing happens; at tick 60 the loop reconciles. */
  lemma NormalModeAtSixty()
    ensures !Next(Phase(58, 0), NoRequest).reconciled && Next(Phase(58, 0), NoRequest).phase == Phase(59, 0)
    ensures Next(Phase(59, 0), NoRequest).reconciled && Next(Phase(59, 0), NoRequest).phase == Phase(60, 0)
  {
  }

  /**
   * While the burst counter is positive, the next reconciliation comes at
   * the next multiple of 6 of the tick count, and uses up one unit of burst.
   */
  lemma {:induction false} FastWindow(p: Phase, d: nat)
    requires p.burst > 0
    requires d == BurstInterval - p.tick % BurstInterval
    ensures Run(p, Idle(d)) == RunResult(Phase(p.tick + d, p.burst - 1), [p.tick + d])
    decreases d
  {
    var s := Next(p, NoRequest);
    assert Idle(d) == [NoRequest] + Idle(d - 1);
    RunCons(p, NoRequest, Idle(d - 1));
    FastStep(p);
    if d > 1 {
      FastWindow(Phase(p.tick + 1, p.burst), d - 1);
    }
  }

  /** One iteration without a request while the burst counter is positive. */
  lemma FastStep(p: Phase)
    requires p.burst > 0
    ensures var fires := (p.tick + 1) % BurstInterval == 0;
            Next(p, NoRequest) == StepResult(Phase(p.tick + 1, if fires then p.burst - 1 else p.burst), fires)
    ensures (p.tick + 1) % BurstInterval != 0 ==>
              (p.tick + 1) % BurstInterval == p.tick % BurstInterval + 1
  {
  }

  /** Runs of idle iterations compose. */
  lemma {:induction false} IdleAppend(a: nat, b: nat)
    ensures Idle(a) + Idle(b) == Idle(a + b)
  {
    if a > 0 {
      IdleAppend(a - 1, b);
      assert Idle(a) + Idle(b) == [NoRequest] + (Idle(a - 1) + Idle(b));
    }
  }

  /** An idle run split after its first `a` iterations. */
  lemma IdleSplit(p: Phase, a: nat, b: nat)
    ensures Run(p, Idle(a + b)) ==
              RunResult(Run(Run(p, Idle(a)).last, Idle(b)).last,
                        Run(p, Idle(a)).reconciled + Run(Run(p, Idle(a)).last, Idle(b)).reconciled)
  {
    IdleAppend(a, b);
    RunAppend(p, Idle(a), Idle(b));
  }

  /**
   * A burst of `b` reconciliations runs at consecutive multiples of 6,
   * starting with the first multiple of 6 after the current tick (`d` ticks
   * away), and ends with the counter at 0 after `n` iterations.
   */
  lemma {:induction false} BurstSchedule(p: Phase, d: nat, n: nat)
    requires p.burst > 0
    requires d == BurstInterval - p.tick % BurstInterval
    requires n == d + BurstInterval * (p.burst - 1)
    ensures Run(p, Idle(n)).last == Phase(p.tick + n, 0)
    ensures |Run(p, Idle(n)).reconciled| == p.burst
    ensures forall i :: 0 <= i < p.burst ==> Run(p, Idle(n)).reconciled[i] == p.tick + d + BurstInterval * i
    decreases p.burst
  {
    FastWindow(p, d);
    if p.burst > 1 {
      var m := p.tick + d;
      var q := Phase(m, p.burst - 1);
      var rest := n - d;
      assert m % BurstInterval == 0;
      BurstSchedule(q, BurstInterval, rest);
      IdleSplit(p, d, rest);
      var tail := Run(q, Idle(rest)).reconciled;
      assert Run(p, Idle(n)) == RunResult(Run(q, Idle(rest)).last, [m] + tail);
      EvenlySpaced(m, tail, p.burst);
    }
  }

  /** Putting `m` in front of the ticks `m + 6`, `m + 12`, ... gives `m`, `m + 6`, ... */
  lemma EvenlySpaced(m: nat, tail: seq<nat>, b: nat)
    requires 0 < b && |tail| == b - 1
    requires forall i :: 0 <= i < b - 1 ==> tail[i] == m + BurstInterval + BurstInterval * i
    ensures forall i :: 0 <= i < b ==> ([m] + tail)[i] == m + BurstInterval * i
  {
    forall i | 0 <= i < b ensures ([m] + tail)[i] == m + BurstInterval * i {
      if i > 0 {
        assert ([m] + tail)[i] == tail[i - 1];
      }
    }
  }

  /**
   * After a start or stop request during the sleep after tick `t`, the loop does not reconcile
   * at once: the ten burst reconciliations fall on the ten multiples of 6
   * that follow `t`, after which the counter is back to 0.
   */
  lemma TriggerSchedule(p: Phase)
    ensures var d := BurstInterval - p.tick % BurstInterval;
            var r := Run(p, [DuringSleep] + Idle(d - 1 + BurstInterval * (BurstLength - 1)));
            && r.last == Phase(p.tick + d + BurstInterval * (BurstLength - 1), 0)
            && |r.reconciled| == BurstLength
            && forall i :: 0 <= i < |r.reconciled| ==> r.reconciled[i] == p.tick + d + BurstInterval * i
  {
    var d := BurstInterval - p.tick % BurstInterval;
    var rest := Idle(d - 1 + BurstInterval * (BurstLength - 1));
    var q := p.(burst := BurstLength);
    assert Idle(d + BurstInterval * (BurstLength - 1)) == [NoRequest] + rest;
    RunCons(p, DuringSleep, rest);
    RunCons(q, NoRequest, rest);
    assert Next(p, DuringSleep) == Next(q, NoRequest);
    BurstSchedule(q, d, d + BurstInterval * (BurstLength - 1));
  }

  /** Unfolding a run by its first iteration. */
  lemma RunCons(p: Phase, r: Request, rest: seq<Request>)
    ensures var s := Next(p, r);
            Run(p, [r] + rest) ==
              RunResult(Run(s.phase, rest).last, (if s.reconciled then [s.phase.tick] else []) + Run(s.phase, rest).reconciled)
  {
    assert ([r] + rest)[1..] == rest;
  }

  /** Every multiple of the normal interval is a multiple of the burst interval. */
  lemma SixtyIsFast(m: nat)
    requires m % NormalInterval == 0
    ensures m % BurstInterval == 0
  {
    var k := m / NormalInterval;
    assert m == BurstInterval * (10 * k);
  }

  /** The reconciling iteration a request reaches during its query ends on a multiple of 6 with 9 units of burst. */
  lemma QueryTimeStep(p: Phase)
    requires Decide(p).reconciled
    ensures Next(p, DuringQuery) == StepResult(Phase(p.tick + 1, BurstLength - 1), true)
    ensures (p.tick + 1) % BurstInterval == 0
  {
    var m := p.tick + 1;
    assert Decide(p) == StepResult(Phase(m, p.burst), true);
    assert m % Interval(p.burst) == 0;
    if p.burst <= 0 {
      SixtyIsFast(m);
    }
  }

  /**
   * A request that arrives while a reconciliation's query runs is charged
   * for that reconciliation: the counter drops to 9 at once, so only nine
   * fast reconciliations follow the one in progress, on the nine multiples
   * of 6 after it.
   */
  lemma QueryTimeTrigger(p: Phase, n: nat)
    requires Decide(p).reconciled
    requires n == BurstInterval * (BurstLength - 1)
    ensures var r := Run(p, [DuringQuery] + Idle(n));
            && r.last == Phase(p.tick + 1 + n, 0)
            && |r.reconciled| == BurstLength
            && forall i :: 0 <= i < |r.reconciled| ==> r.reconciled[i] == p.tick + 1 + BurstInterval * i
  {
    var m := p.tick + 1;
    var q := Phase(m, BurstLength - 1);
    QueryTimeStep(p);
    RunCons(p, DuringQuery, Idle(n));
    BurstSchedule(q, BurstInterval, n);
    EvenlySpaced(m, Run(q, Idle(n)).reconciled, BurstLength);
  }

  /**
   * A request that reaches an iteration which does not reconcile has the
   * same effect as one during the sleep that follows it.
   */
  lemma RequestWithoutQuery(p: Phase)
    requires !Decide(p).reconciled
    ensures !Next(p, DuringQuery).reconciled
    ensures Next(p, DuringQuery).phase == AfterAction(Next(p, NoRequest).phase, true)
    ensures Next(Next(p, DuringQuery).phase, NoRequest) == Next(Next(p, NoRequest).phase, DuringSleep)
  {
  }
}
