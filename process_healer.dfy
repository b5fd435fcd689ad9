/** The restart circuit breaker of `ProcessHealer` and the decision whether a
    down event leads to a restart attempt. Time is whole seconds `now`; the
    configuration in force at a call is passed in. */
module Healer {
  import opened Common
  import opened Config
  import opened Events

  datatype State = Closed | Open | HalfOpen

  /** `ProcessRecoveryStats`: recovery start times of the sliding window,
      the breaker state and its two deadlines. */
  datatype RecoveryStats = RecoveryStats(
    window: seq<nat>,
    state: State,
    cooldownUntil: Option<nat>,
    halfOpenSafeUntil: Option<nat>)

  /** `ProcessRecoveryStats::default()`. */
  const DefaultStats: RecoveryStats := RecoveryStats([], Closed, None, None)

  /** Length of the half-open observation period. */
  const HalfOpenSafeSecs: nat := 2

  /** Cooldown used when the process has no regular recovery section. */
  const FallbackCooldownSecs: nat := 5

  /** `Instant::elapsed().as_secs()`: saturates at zero for a start in the future. */
  function Elapsed(start: nat, now: nat): nat
  {
    if start <= now then now - start else 0
  }

  /** `VecDeque::retain` keeping the start times younger than `windowSecs`. */
  function Retain(window: seq<nat>, now: nat, windowSecs: nat): (kept: seq<nat>)
    ensures |kept| <= |window|
    ensures forall t :: t in kept <==> t in window && Elapsed(t, now) < windowSecs
  {
    if window == [] then []
    else
      var rest := Retain(window[1..], now, windowSecs);
      if Elapsed(window[0], now) < windowSecs then [window[0]] + rest else rest
  }

  lemma {:induction false} RetainKeepsYoung(window: seq<nat>, now: nat, windowSecs: nat)
    requires forall i :: 0 <= i < |window| ==> Elapsed(window[i], now) < windowSecs
    ensures Retain(window, now, windowSecs) == window
  {
    if window != [] {
      RetainKeepsYoung(window[1..], now, windowSecs);
    }
  }

  /** The cooldown read in the Open and HalfOpen branches: the regular
      section's `cooldown_secs`, else 5. */
  function CooldownSecs(pc: Option<ProcessConfig>): (secs: nat)
    ensures pc.Some? && pc.value.recovery.Regular? ==> secs == pc.value.recovery.fields.cooldownSecs
    ensures !(pc.Some? && pc.value.recovery.Regular?) ==> secs == FallbackCooldownSecs
  {
    if pc.Some? && pc.value.recovery.Regular? then pc.value.recovery.fields.cooldownSecs
    else FallbackCooldownSecs
  }

  /** New stats of one process and whether the restart is blocked. */
  datatype Decision = Decision(stats: RecoveryStats, blocked: bool)

  /** One call of `check_circuit_breaker` on a process that has stats;
      `pc` is that process's configuration, if any. A blocked restart always
      leaves the breaker Open with a cooldown deadline no earlier than now. */
  function BreakerStep(s: RecoveryStats, pc: Option<ProcessConfig>, now: nat): (d: Decision)
    ensures d.blocked <==> d.stats.state == Open
    ensures d.blocked ==> d.stats.cooldownUntil.Some? && now <= d.stats.cooldownUntil.value
  {
    match s.state
    case Closed =>
      if pc.Some? && pc.value.recovery.Regular? then
        var f := pc.value.recovery.fields;
        var kept := Retain(s.window, now, f.retryWindowSecs);
        if |kept| == f.retries then
          Decision(s.(state := Open, cooldownUntil := Some(now + f.cooldownSecs), window := []), true)
        else
          Decision(s.(window := kept + [now]), false)
      else
        Decision(s, false)
    case Open =>
      (match s.cooldownUntil
       case Some(c) =>
         if now < c then Decision(s, true)
         else Decision(s.(state := HalfOpen, window := [], halfOpenSafeUntil := Some(now + HalfOpenSafeSecs)), false)
       case None =>
         Decision(s.(cooldownUntil := Some(now + CooldownSecs(pc))), true))
    case HalfOpen =>
      match s.halfOpenSafeUntil
      case Some(safe) =>
        if now < safe then
          Decision(s.(state := Open, cooldownUntil := Some(now + CooldownSecs(pc)),
                      halfOpenSafeUntil := None, window := []), true)
        else
          Decision(s.(state := Closed, halfOpenSafeUntil := None, window := []), false)
      case None =>
        Decision(s.(state := Closed, halfOpenSafeUntil := None, window := []), false)
  }

  /** The state `check_circuit_breaker` keeps for a fixed configuration: only
      a Closed breaker holds start times, and never more than `retries`. */
  predicate WindowBounded(s: RecoveryStats, pc: Option<ProcessConfig>)
  {
    (s.state != Closed ==> s.window == [])
    && (pc.Some? && pc.value.recovery.Regular? ==> |s.window| <= pc.value.recovery.fields.retries)
  }

  lemma BreakerPreservesWindowBound(s: RecoveryStats, pc: Option<ProcessConfig>, now: nat)
    requires WindowBounded(s, pc)
    ensures WindowBounded(BreakerStep(s, pc, now).stats, pc)
  {
  }

  /** A Closed breaker with a regular section: exactly `retries` young start
      times trip it; any other number (fewer, or more after `retries` was
      lowered) allows the restart and records `now` after the young start
      times. */
  lemma ClosedRegular(s: RecoveryStats, pc: Option<ProcessConfig>, now: nat)
    requires s.state == Closed && pc.Some? && pc.value.recovery.Regular?
    ensures var f := pc.value.recovery.fields;
            var kept := Retain(s.window, now, f.retryWindowSecs);
            var d := BreakerStep(s, pc, now);
            (|kept| == f.retries ==>
               d == Decision(RecoveryStats([], Open, Some(now + f.cooldownSecs), s.halfOpenSafeUntil), true))
            && (|kept| != f.retries ==> d == Decision(s.(window := kept + [now]), false))
  {
  }

  /** A Closed breaker without a regular section always allows and keeps its stats. */
  lemma ClosedWithoutRegular(s: RecoveryStats, pc: Option<ProcessConfig>, now: nat)
    requires s.state == Closed && !(pc.Some? && pc.value.recovery.Regular?)
    ensures BreakerStep(s, pc, now) == Decision(s, false)
  {
  }

  /** A run of triggers from the given stats, with the blocking answers in order. */
  datatype Trace = Trace(stats: RecoveryStats, blocked: seq<bool>)

  function Run(s: RecoveryStats, pc: Option<ProcessConfig>, times: seq<nat>): (t: Trace)
    ensures |t.blocked| == |times|
  {
    if times == [] then Trace(s, [])
    else
      var before := Run(s, pc, times[..|times| - 1]);
      var d := BreakerStep(before.stats, pc, times[|times| - 1]);
      Trace(d.stats, before.blocked + [d.blocked])
  }

  /** One more trigger extends a run by one breaker step. */
  lemma RunSnoc(s: RecoveryStats, pc: Option<ProcessConfig>, times: seq<nat>, t: nat)
    ensures var before := Run(s, pc, times);
            var d := BreakerStep(before.stats, pc, t);
            Run(s, pc, times + [t]) == Trace(d.stats, before.blocked + [d.blocked])
  {
    assert (times + [t])[..|times|] == times;
  }

  /** The answers of `n` admitted triggers. */
  function Admitted(n: nat): (answers: seq<bool>)
    ensures |answers| == n && true !in answers
  {
    if n == 0 then [] else Admitted(n - 1) + [false]
  }

  predicate NonDecreasing(times: seq<nat>)
  {
    forall i, j :: 0 <= i <= j < |times| ==> times[i] <= times[j]
  }

  /** Every trigger is still inside the window at every later trigger. */
  predicate AllYoung(times: seq<nat>, windowSecs: nat)
  {
    forall i, j :: 0 <= i <= j < |times| ==> Elapsed(times[i], times[j]) < windowSecs
  }

  /** Non-decreasing triggers spanning less than the window are all young. */
  lemma InWindowAllYoung(times: seq<nat>, windowSecs: nat)
    requires NonDecreasing(times) && |times| > 0
    requires times[|times| - 1] - times[0] < windowSecs
    ensures AllYoung(times, windowSecs)
  {
    forall i, j | 0 <= i <= j < |times|
      ensures Elapsed(times[i], times[j]) < windowSecs
    {
      assert times[0] <= times[i] <= times[j] <= times[|times| - 1];
    }
  }

  /** Dropping the last trigger keeps the rest young. */
  lemma AllYoungInit(w: seq<nat>, now: nat, windowSecs: nat)
    requires AllYoung(w + [now], windowSecs)
    ensures AllYoung(w, windowSecs)
  {
    var t := w + [now];
    forall i, j | 0 <= i <= j < |w|
      ensures Elapsed(w[i], w[j]) < windowSecs
    {
      assert t[i] == w[i] && t[j] == w[j];
    }
  }

  /** Every earlier trigger is young at the last one. */
  lemma AllYoungLast(w: seq<nat>, now: nat, windowSecs: nat)
    requires AllYoung(w + [now], windowSecs)
    ensures forall i :: 0 <= i < |w| ==> Elapsed(w[i], now) < windowSecs
  {
    var t := w + [now];
    forall i | 0 <= i < |w|
      ensures Elapsed(w[i], now) < windowSecs
    {
      assert t[i] == w[i] && t[|w|] == now;
    }
  }

  /** A Closed breaker whose window holds fewer than `retries` attempts, all
      young at the new trigger, admits the restart and records it. */
  lemma YoungWindowAdmits(pc: Option<ProcessConfig>, w: seq<nat>, now: nat)
    requires pc.Some? && pc.value.recovery.Regular?
    requires |w| < pc.value.recovery.fields.retries
    requires AllYoung(w + [now], pc.value.recovery.fields.retryWindowSecs)
    ensures BreakerStep(RecoveryStats(w, Closed, None, None), pc, now)
              == Decision(RecoveryStats(w + [now], Closed, None, None), false)
  {
    AllYoungLast(w, now, pc.value.recovery.fields.retryWindowSecs);
    RetainKeepsYoung(w, now, pc.value.recovery.fields.retryWindowSecs);
  }

  /** Up to `retries` young triggers from default stats are all admitted and
      all recorded in the window. */
  lemma {:induction false} RunYoung(pc: Option<ProcessConfig>, times: seq<nat>)
    requires pc.Some? && pc.value.recovery.Regular?
    requires |times| <= pc.value.recovery.fields.retries
    requires AllYoung(times, pc.value.recovery.fields.retryWindowSecs)
    ensures Run(DefaultStats, pc, times) == Trace(RecoveryStats(times, Closed, None, None), Admitted(|times|))
  {
    if times != [] {
      var k := |times| - 1;
      var w, now := times[..k], times[k];
      assert times == w + [now];
      AllYoungInit(w, now, pc.value.recovery.fields.retryWindowSecs);
      RunYoung(pc, w);
      YoungWindowAdmits(pc, w, now);
      RunSnoc(DefaultStats, pc, w, now);
    }
  }

  /** The first `k <= retries` of a non-decreasing run spanning less than the
      window are all admitted and all recorded. */
  lemma RunWithinWindow(pc: Option<ProcessConfig>, times: seq<nat>, k: nat)
    requires pc.Some? && pc.value.recovery.Regular?
    requires NonDecreasing(times) && |times| > 0
    requires times[|times| - 1] - times[0] < pc.value.recovery.fields.retryWindowSecs
    requires k <= |times| && k <= pc.value.recovery.fields.retries
    ensures Run(DefaultStats, pc, times[..k]) == Trace(RecoveryStats(times[..k], Closed, None, None), Admitted(k))
  {
    var win := pc.value.recovery.fields.retryWindowSecs;
    InWindowAllYoung(times, win);
    AllYoungPrefix(times, k, win);
    RunYoung(pc, times[..k]);
  }

  lemma AllYoungPrefix(times: seq<nat>, k: nat, windowSecs: nat)
    requires AllYoung(times, windowSecs) && k <= |times|
    ensures AllYoung(times[..k], windowSecs)
  {
    var p := times[..k];
    forall i, j | 0 <= i <= j < |p|
      ensures Elapsed(p[i], p[j]) < windowSecs
    {
      assert p[i] == times[i] && p[j] == times[j];
    }
  }

  /** With a regular section of `retries = r`, `r + 1` triggers inside one
      retry window starting from default stats: the first `r` are allowed,
      the last one trips the breaker into Open for `cooldown_secs`. */
  lemma AllowsRetriesThenTrips(pc: Option<ProcessConfig>, times: seq<nat>)
    requires pc.Some? && pc.value.recovery.Regular?
    requires |times| == pc.value.recovery.fields.retries + 1 && NonDecreasing(times)
    requires times[|times| - 1] - times[0] < pc.value.recovery.fields.retryWindowSecs
    ensures var f := pc.value.recovery.fields;
            Run(DefaultStats, pc, times)
              == Trace(RecoveryStats([], Open, Some(times[f.retries] + f.cooldownSecs), None),
                       Admitted(f.retries) + [true])
  {
    var f := pc.value.recovery.fields;
    var r := f.retries;
    var w, now := times[..r], times[r];
    assert times == w + [now];
    InWindowAllYoung(times, f.retryWindowSecs);
    TripAfterYoung(pc, w, now);
  }

  /** `retries` young triggers from default stats followed by one more
      inside the window: all admitted, then the breaker trips. */
  lemma TripAfterYoung(pc: Option<ProcessConfig>, w: seq<nat>, now: nat)
    requires pc.Some? && pc.value.recovery.Regular?
    requires |w| == pc.value.recovery.fields.retries
    requires AllYoung(w + [now], pc.value.recovery.fields.retryWindowSecs)
    ensures Run(DefaultStats, pc, w + [now])
              == Trace(RecoveryStats([], Open, Some(now + pc.value.recovery.fields.cooldownSecs), None),
                       Admitted(|w|) + [true])
  {
    AllYoungInit(w, now, pc.value.recovery.fields.retryWindowSecs);
    RunYoung(pc, w);
    FullWindowTrips(pc, w, now);
    RunSnoc(DefaultStats, pc, w, now);
  }

  /** A full window of young attempts trips the breaker. */
  lemma FullWindowTrips(pc: Option<ProcessConfig>, w: seq<nat>, now: nat)
    requires pc.Some? && pc.value.recovery.Regular?
    requires |w| == pc.value.recovery.fields.retries
    requires AllYoung(w + [now], pc.value.recovery.fields.retryWindowSecs)
    ensures BreakerStep(RecoveryStats(w, Closed, None, None), pc, now)
              == Decision(RecoveryStats([], Open, Some(now + pc.value.recovery.fields.cooldownSecs), None), true)
  {
    AllYoungLast(w, now, pc.value.recovery.fields.retryWindowSecs);
    RetainKeepsYoung(w, now, pc.value.recovery.fields.retryWindowSecs);
  }

  /** An Open breaker blocks, without change, every trigger before its cooldown deadline. */
  lemma OpenBlocksUntilCooldown(s: RecoveryStats, pc: Option<ProcessConfig>, now: nat)
    requires s.state == Open && s.cooldownUntil.Some? && now < s.cooldownUntil.value
    ensures BreakerStep(s, pc, now) == Decision(s, true)
  {
  }

  /** After the cooldown the breaker lets exactly one attempt through: a second
      trigger inside the 2-second half-open period re-opens it with a fresh
      cooldown, a later one closes it. */
  lemma {:induction false} HalfOpenAdmitsOneAttempt(s: RecoveryStats, pc: Option<ProcessConfig>, now: nat, later: nat)
    requires s.state == Open && s.cooldownUntil.Some? && s.cooldownUntil.value <= now <= later
    ensures var first := BreakerStep(s, pc, now);
            var second := BreakerStep(first.stats, pc, later);
            !first.blocked && first.stats.state == HalfOpen
            && (later < now + HalfOpenSafeSecs ==>
                  second.blocked && second.stats.cooldownUntil == Some(later + CooldownSecs(pc)))
            && (later >= now + HalfOpenSafeSecs ==> !second.blocked && second.stats.state == Closed)
  {
    var first := BreakerStep(s, pc, now);
    assert first.stats == s.(state := HalfOpen, window := [], halfOpenSafeUntil := Some(now + HalfOpenSafeSecs));
  }

  /** The stats table built by `ProcessHealer::new`. */
  function InitialTable(processes: seq<ProcessConfig>): (t: map<string, RecoveryStats>)
    ensures forall n :: n in t <==> exists p :: p in processes && p.name == n
    ensures forall n :: n in t ==> t[n] == DefaultStats
  {
    map n | n in ProcessNames(processes) :: DefaultStats
  }

  /** Effect of `check_circuit_breaker(name)` on the whole table. */
  function TableStep(table: map<string, RecoveryStats>, name: string, config: AppConfig, now: nat)
    : (r: (map<string, RecoveryStats>, bool))
    ensures name !in table ==> r == (table, true)
    ensures name in table ==> r.0.Keys == table.Keys
    ensures forall n :: n in table && n != name ==> n in r.0 && r.0[n] == table[n]
  {
    if name !in table then (table, true)
    else
      var d := BreakerStep(table[name], GetProcessConfigFor(config, name), now);
      (table[name := d.stats], d.blocked)
  }

  /** What `heal_process` does after the breaker: the configuration a restart
      would be attempted with, or None. A restart needs the breaker to allow
      it, the configuration lock within its timeout and a configured process. */
  function HealDecision(table: map<string, RecoveryStats>, name: string, config: AppConfig, now: nat, lockTimedOut: bool)
    : (restart: Option<ProcessConfig>)
    ensures restart.Some? <==>
      !TableStep(table, name, config, now).1 && !lockTimedOut && GetProcessConfigFor(config, name).Some?
    ensures restart.Some? ==> name in table && restart.value.name == name && restart.value in config.processes
  {
    if TableStep(table, name, config, now).1 || lockTimedOut then None
    else GetProcessConfigFor(config, name)
  }

  class ProcessHealer {
    var table: map<string, RecoveryStats>

    constructor(config: AppConfig)
      ensures table == InitialTable(config.processes)
    {
      table := InitialTable(config.processes);
    }

    /** `check_circuit_breaker`: true means the restart is blocked. */
    method CheckCircuitBreaker(name: string, config: AppConfig, now: nat) returns (blocked: bool)
      modifies this
      ensures (table, blocked) == TableStep(old(table), name, config, now)
    {
      if name !in table {
        return true;
      }
      var stats := table[name];
      var d := BreakerStep(stats, GetProcessConfigFor(config, name), now);
      table := table[name := d.stats];
      blocked := d.blocked;
    }

    /** `heal_process` without the spawning: the breaker is consulted first,
        then the configuration lock, then the process lookup. */
    method HealProcess(name: string, config: AppConfig, now: nat, lockTimedOut: bool) returns (restart: Option<ProcessConfig>)
      modifies this
      ensures table == TableStep(old(table), name, config, now).0
      ensures restart == HealDecision(old(table), name, config, now, lockTimedOut)
    {
      var blocked := CheckCircuitBreaker(name, config, now);
      if blocked {
        return None;
      }
      if lockTimedOut {
        return None;
      }
      restart := GetProcessConfigFor(config, name);
    }

    /** `handle_event`: ProcessDown and ProcessDisconnected heal the named
        process; every other event is ignored. */
    method HandleEvent(event: ProcessEvent, config: AppConfig, now: nat, lockTimedOut: bool)
      returns (restart: Option<ProcessConfig>)
      modifies this
      ensures !event.IsDownEvent() ==> restart.None? && table == old(table)
      ensures event.IsDownEvent() ==>
        table == TableStep(old(table), event.name, config, now).0
        && restart == HealDecision(old(table), event.name, config, now, lockTimedOut)
    {
      restart := None;
      if event.ProcessDown? {
        restart := HealProcess(event.name, config, now, lockTimedOut);
      } else if event.ProcessDisconnected? {
        restart := HealProcess(event.name, config, now, lockTimedOut);
      }
    }
  }
}
