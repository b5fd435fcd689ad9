/** The dependency coordinator: it sits between the monitors and the healer,
    holds back the recovery of a process while one of its hard `Requires`
    dependencies is itself recovering, retries with backoff and applies the
    per-dependency timeout policies. Published events and scheduled retries
    are recorded in ghost sequences; the configuration in force at each call
    and the current time are inputs. */
module Coordinator {
  import opened Common
  import opened Config
  import opened Events

  /** How long a process that went down blocks its dependants. */
  const RecoveringHoldSecs: nat := 10

  /** Delay of the first retry after a deferral. */
  const FirstRetrySecs: nat := 5

  datatype DepWaitStatus = Waiting | TimedOut

  datatype PerDepState = PerDepState(cfg: DependencyConfig, status: DepWaitStatus)

  /** `DeferredState`: the held-back event and its bookkeeping. */
  datatype DeferredState = DeferredState(
    originalEvent: ProcessEvent,
    deferredCount: nat,
    firstDeferredAt: nat,
    lastEvalAt: nat,
    nextRetryAt: nat,
    deps: seq<PerDepState>,
    waitingOn: seq<string>)

  /** A `schedule_retry(name, delay)` call. */
  datatype Retry = Retry(name: string, delaySecs: nat)

  /** `is_recovering`: the name has a recovering deadline still in the future. */
  function IsRecovering(recovering: map<string, nat>, name: string, now: nat): (r: bool)
    ensures r ==> name in recovering
  {
    name in recovering && now < recovering[name]
  }

  /** `prune_recovering`: keeps exactly the deadlines still in the future. */
  function Prune(recovering: map<string, nat>, now: nat): (p: map<string, nat>)
    ensures forall n :: n in p <==> n in recovering && now < recovering[n]
    ensures forall n :: n in p ==> p[n] == recovering[n]
  {
    map n | n in recovering && now < recovering[n] :: recovering[n]
  }

  /** Pruning never changes whether a name is recovering at the same instant. */
  lemma PruneKeepsRecovering(recovering: map<string, nat>, now: nat, name: string)
    ensures IsRecovering(Prune(recovering, now), name, now) == IsRecovering(recovering, name, now)
  {
  }

  /** `manual_requires`: the resolved dependencies of kind `Requires` of the
      first process with this name; none for an unknown name. */
  function ManualRequires(config: AppConfig, name: string): (deps: seq<DependencyConfig>)
    ensures GetProcessConfigFor(config, name).None? ==> deps == []
    ensures GetProcessConfigFor(config, name).Some? ==>
      forall d :: d in deps <==> d in ResolvedDependencies(GetProcessConfigFor(config, name).value) && d.kind == Requires
  {
    match GetProcessConfigFor(config, name)
    case None => []
    case Some(pc) => Filter(ResolvedDependencies(pc), (d: DependencyConfig) => d.kind == Requires)
  }

  /** The hard dependencies whose target is managed (the first half of the partition). */
  function ManagedHard(deps: seq<DependencyConfig>, managed: set<string>): (r: seq<DependencyConfig>)
    ensures forall d :: d in r <==> d in deps && d.hard && d.target in managed
  {
    Filter(deps, (d: DependencyConfig) => d.hard && d.target in managed)
  }

  function Targets(deps: seq<DependencyConfig>): (ts: seq<string>)
    ensures |ts| == |deps|
    ensures forall i :: 0 <= i < |deps| ==> ts[i] == deps[i].target
  {
    seq(|deps|, i requires 0 <= i < |deps| => deps[i].target)
  }

  /** The dependency names that block a recovery of `name` now. */
  function BlockingTargets(deps: seq<DependencyConfig>, name: string, recovering: map<string, nat>, now: nat)
    : (r: seq<string>)
    ensures forall t :: t in r <==> t in Targets(deps) && t != name && IsRecovering(recovering, t, now)
  {
    Filter(Targets(deps), (t: string) => t != name && IsRecovering(recovering, t, now))
  }

  /** A dependency blocks a recovery exactly when it is a hard `Requires`
      dependency of the process, its target is managed, is not the process
      itself and is recovering; unmanaged targets never block. */
  lemma BlockingDependencies(config: AppConfig, name: string, managed: set<string>,
                             recovering: map<string, nat>, now: nat, t: string)
    ensures t in BlockingTargets(ManagedHard(ManualRequires(config, name), managed), name, recovering, now)
        <==> (exists d :: d in ManualRequires(config, name) && d.hard && d.target == t)
             && t in managed && t != name && IsRecovering(recovering, t, now)
  {
    var deps := ManagedHard(ManualRequires(config, name), managed);
    var ts := Targets(deps);
    if t in ts {
      var i :| 0 <= i < |ts| && ts[i] == t;
      assert deps[i] in deps;
    }
    if exists d :: d in ManualRequires(config, name) && d.hard && d.target == t && t in managed {
      var d :| d in ManualRequires(config, name) && d.hard && d.target == t && t in managed;
      assert d in deps;
      var i :| 0 <= i < |deps| && deps[i] == d;
      assert ts[i] == t;
    }
  }

  /** The entry `defer_process` stores: count 1, every hard `Requires`
      dependency Waiting, the first retry due after 5 seconds. */
  function NewDeferred(event: ProcessEvent, deps: seq<DependencyConfig>, blocking: seq<string>, now: nat)
    : (s: DeferredState)
    ensures s.deferredCount == 1 && s.firstDeferredAt == now && s.nextRetryAt == now + FirstRetrySecs
    ensures s.originalEvent == event && s.waitingOn == blocking
    ensures forall p :: p in s.deps ==> p.status == Waiting
    ensures forall d :: (exists p :: p in s.deps && p.cfg == d) <==> d in deps && d.hard && d.kind == Requires
  {
    var tracked := Filter(deps, (d: DependencyConfig) => d.hard && d.kind == Requires);
    var perDeps := seq(|tracked|, i requires 0 <= i < |tracked| => PerDepState(tracked[i], Waiting));
    assert forall d :: d in tracked ==> exists p :: p in perDeps && p.cfg == d by {
      forall d | d in tracked ensures exists p :: p in perDeps && p.cfg == d {
        var i :| 0 <= i < |tracked| && tracked[i] == d;
        assert perDeps[i] in perDeps;
      }
    }
    assert forall p :: p in perDeps ==> p.cfg in tracked && p.status == Waiting by {
      forall p | p in perDeps ensures p.cfg in tracked && p.status == Waiting {
        var i :| 0 <= i < |perDeps| && perDeps[i] == p;
      }
    }
    DeferredState(event, 1, now, now, now + FirstRetrySecs, perDeps, blocking)
  }

  /** `compute_backoff`. */
  function ComputeBackoff(prevAttempts: nat): (secs: nat)
    ensures 5 <= secs <= 30
    ensures prevAttempts <= 1 ==> secs == 5
    ensures prevAttempts >= 4 ==> secs == 30
  {
    match prevAttempts
    case 0 => 5
    case 1 => 5
    case 2 => 10
    case 3 => 20
    case _ => 30
  }

  /** The backoff never decreases as attempts accumulate, and doubles on the way to 30. */
  lemma BackoffMonotone(i: nat, j: nat)
    requires i <= j
    ensures ComputeBackoff(i) <= ComputeBackoff(j)
    ensures ComputeBackoff(i + 1) <= 2 * ComputeBackoff(i)
  {
  }

  /** A tracked dependency that blocks right now (the test in the first loop of `handle_retry`). */
  predicate BlocksNow(d: PerDepState, name: string, managed: set<string>, recovering: map<string, nat>, now: nat)
  {
    d.status == Waiting && d.cfg.kind == Requires && d.cfg.hard && d.cfg.target != name
    && d.cfg.target in managed && IsRecovering(recovering, d.cfg.target, now)
  }

  function CurrentlyBlocking(deps: seq<PerDepState>, name: string, managed: set<string>,
                             recovering: map<string, nat>, now: nat): (cb: set<string>)
    ensures forall t :: t in cb <==> exists d :: d in deps && BlocksNow(d, name, managed, recovering, now) && d.cfg.target == t
  {
    set d | d in deps && BlocksNow(d, name, managed, recovering, now) :: d.cfg.target
  }

  /** A Waiting blocking dependency whose `max_wait_secs` has run out. */
  predicate TimesOut(d: PerDepState, cb: set<string>, firstDeferredAt: nat, now: nat)
  {
    d.status == Waiting && d.cfg.target in cb && now >= firstDeferredAt + d.cfg.maxWaitSecs
  }

  /** A dependency after the Skip/Degrade branch of the policy loop. */
  function MarkTimedOut(d: PerDepState, cb: set<string>, firstDeferredAt: nat, now: nat): (r: PerDepState)
    ensures r.cfg == d.cfg
  {
    if TimesOut(d, cb, firstDeferredAt, now) then d.(status := TimedOut) else d
  }

  /** The timeout policy loop of `handle_retry`, from position `i` on:
      dependencies that time out under Skip or Degrade become TimedOut; the
      first one that times out under Abort stops the loop and asks for the
      event to be dropped. */
  function ApplyTimeoutsFrom(deps: seq<PerDepState>, i: nat, cb: set<string>, firstDeferredAt: nat, now: nat)
    : (r: (seq<PerDepState>, bool))
    requires i <= |deps|
    ensures |r.0| == |deps|
    ensures forall j :: 0 <= j < |deps| ==> r.0[j].cfg == deps[j].cfg
    decreases |deps| - i
  {
    if i == |deps| then (deps, false)
    else if TimesOut(deps[i], cb, firstDeferredAt, now) && deps[i].cfg.onFailure == Abort then (deps, true)
    else ApplyTimeoutsFrom(deps[i := MarkTimedOut(deps[i], cb, firstDeferredAt, now)], i + 1, cb, firstDeferredAt, now)
  }

  /** The whole policy loop: the updated dependencies and whether to drop the event. */
  function ApplyTimeouts(deps: seq<PerDepState>, cb: set<string>, firstDeferredAt: nat, now: nat)
    : (r: (seq<PerDepState>, bool))
    ensures |r.0| == |deps|
  {
    ApplyTimeoutsFrom(deps, 0, cb, firstDeferredAt, now)
  }

  lemma {:induction false} AbortTimeoutDropsFrom(deps: seq<PerDepState>, k: nat, cb: set<string>, firstDeferredAt: nat, now: nat, i: nat)
    requires k <= i < |deps| && TimesOut(deps[i], cb, firstDeferredAt, now) && deps[i].cfg.onFailure == Abort
    ensures ApplyTimeoutsFrom(deps, k, cb, firstDeferredAt, now).1
    decreases i - k
  {
    if k < i && !(TimesOut(deps[k], cb, firstDeferredAt, now) && deps[k].cfg.onFailure == Abort) {
      AbortTimeoutDropsFrom(deps[k := MarkTimedOut(deps[k], cb, firstDeferredAt, now)], k + 1, cb, firstDeferredAt, now, i);
    }
  }

  /** Any dependency that times out under Abort makes the policy loop drop the event. */
  lemma AbortTimeoutDrops(deps: seq<PerDepState>, cb: set<string>, firstDeferredAt: nat, now: nat, i: nat)
    requires i < |deps| && TimesOut(deps[i], cb, firstDeferredAt, now) && deps[i].cfg.onFailure == Abort
    ensures ApplyTimeouts(deps, cb, firstDeferredAt, now).1
  {
    AbortTimeoutDropsFrom(deps, 0, cb, firstDeferredAt, now, i);
  }

  lemma {:induction false} TimeoutsMarkTimedOutFrom(deps: seq<PerDepState>, k: nat, cb: set<string>, firstDeferredAt: nat, now: nat)
    requires k <= |deps| && !ApplyTimeoutsFrom(deps, k, cb, firstDeferredAt, now).1
    ensures var r := ApplyTimeoutsFrom(deps, k, cb, firstDeferredAt, now).0;
            (forall j :: 0 <= j < k ==> r[j] == deps[j])
            && forall j :: k <= j < |deps| ==>
              (TimesOut(deps[j], cb, firstDeferredAt, now) ==> deps[j].cfg.onFailure != Abort && r[j].status == TimedOut)
              && (!TimesOut(deps[j], cb, firstDeferredAt, now) ==> r[j] == deps[j])
    decreases |deps| - k
  {
    if k < |deps| {
      var next := deps[k := MarkTimedOut(deps[k], cb, firstDeferredAt, now)];
      TimeoutsMarkTimedOutFrom(next, k + 1, cb, firstDeferredAt, now);
    }
  }

  /** When the policy loop does not drop the event, exactly the dependencies
      that timed out are marked TimedOut, and none of them was under Abort. */
  lemma TimeoutsMarkTimedOut(deps: seq<PerDepState>, cb: set<string>, firstDeferredAt: nat, now: nat)
    requires !ApplyTimeouts(deps, cb, firstDeferredAt, now).1
    ensures var r := ApplyTimeouts(deps, cb, firstDeferredAt, now).0;
            forall j :: 0 <= j < |deps| ==>
              (TimesOut(deps[j], cb, firstDeferredAt, now) ==> deps[j].cfg.onFailure != Abort && r[j].status == TimedOut)
              && (!TimesOut(deps[j], cb, firstDeferredAt, now) ==> r[j] == deps[j])
  {
    TimeoutsMarkTimedOutFrom(deps, 0, cb, firstDeferredAt, now);
  }

  lemma {:induction false} NoAbortFrom(deps: seq<PerDepState>, k: nat, cb: set<string>, firstDeferredAt: nat, now: nat)
    requires k <= |deps|
    requires forall j :: k <= j < |deps| && TimesOut(deps[j], cb, firstDeferredAt, now) ==> deps[j].cfg.onFailure != Abort
    ensures !ApplyTimeoutsFrom(deps, k, cb, firstDeferredAt, now).1
    decreases |deps| - k
  {
    if k < |deps| {
      var next := deps[k := MarkTimedOut(deps[k], cb, firstDeferredAt, now)];
      NoAbortFrom(next, k + 1, cb, firstDeferredAt, now);
    }
  }

  /** Targets of the deps still Waiting and blocking after the timeout loop. */
  function StillBlocking(deps: seq<PerDepState>, cb: set<string>): (r: seq<string>)
    ensures forall t :: t in r <==> exists d :: d in deps && d.status == Waiting && d.cfg.target in cb && d.cfg.target == t
  {
    if deps == [] then []
    else
      var last := deps[|deps| - 1];
      var before := StillBlocking(deps[..|deps| - 1], cb);
      assert forall d :: d in deps <==> d in deps[..|deps| - 1] || d == last;
      before + (if last.status == Waiting && last.cfg.target in cb then [last.cfg.target] else [])
  }

  /** When every blocking dependency has waited past its limit under Skip or
      Degrade, the retry releases the event. */
  lemma ExpiredSkipsRelease(deps: seq<PerDepState>, cb: set<string>, firstDeferredAt: nat, now: nat)
    requires forall d :: d in deps && d.status == Waiting && d.cfg.target in cb ==>
               now >= firstDeferredAt + d.cfg.maxWaitSecs && d.cfg.onFailure != Abort
    ensures !ApplyTimeouts(deps, cb, firstDeferredAt, now).1
    ensures StillBlocking(ApplyTimeouts(deps, cb, firstDeferredAt, now).0, cb) == []
  {
    NoAbortFrom(deps, 0, cb, firstDeferredAt, now);
    TimeoutsMarkTimedOut(deps, cb, firstDeferredAt, now);
    var r := ApplyTimeouts(deps, cb, firstDeferredAt, now).0;
    forall d | d in r
      ensures !(d.status == Waiting && d.cfg.target in cb)
    {
      var i :| 0 <= i < |r| && r[i] == d;
      assert deps[i] in deps;
    }
    if StillBlocking(r, cb) != [] {
      assert StillBlocking(r, cb)[0] in StillBlocking(r, cb);
    }
  }

  class DependencyCoordinator {
    var managed: set<string>
    var deferred: map<string, DeferredState>
    var recovering: map<string, nat>
    /** Events sent to the healer, in order. */
    ghost var published: seq<ProcessEvent>
    /** Retries scheduled, in order. */
    ghost var retries: seq<Retry>

    constructor()
      ensures managed == {} && deferred == map[] && recovering == map[]
      ensures published == [] && retries == []
    {
      managed := {};
      deferred := map[];
      recovering := map[];
      published := [];
      retries := [];
    }

    /** `mark_recovering_until`. */
    method MarkRecoveringUntil(name: string, now: nat)
      modifies this
      ensures recovering == old(recovering)[name := now + RecoveringHoldSecs]
      ensures managed == old(managed) && deferred == old(deferred)
      ensures published == old(published) && retries == old(retries)
    {
      recovering := recovering[name := now + RecoveringHoldSecs];
    }

    /** `refresh_snapshot`: the managed set becomes the configured names and
        expired recovering marks are dropped. */
    method RefreshSnapshot(config: AppConfig, now: nat)
      modifies this
      ensures managed == ProcessNames(config.processes)
      ensures recovering == Prune(old(recovering), now)
      ensures deferred == old(deferred) && published == old(published) && retries == old(retries)
    {
      managed := ProcessNames(config.processes);
      recovering := Prune(recovering, now);
    }

    /** `defer_process`. */
    method DeferProcess(name: string, event: ProcessEvent, deps: seq<DependencyConfig>, blocking: seq<string>, now: nat)
      modifies this
      ensures deferred == old(deferred)[name := NewDeferred(event, deps, blocking, now)]
      ensures retries == old(retries) + [Retry(name, FirstRetrySecs)]
      ensures published == old(published) && managed == old(managed) && recovering == old(recovering)
    {
      deferred := deferred[name := NewDeferred(event, deps, blocking, now)];
      retries := retries + [Retry(name, FirstRetrySecs)];
    }

    /** `decide_and_publish`. A down event first refreshes the snapshot and
        marks its own process recovering; it is then ignored if the process
        already has a deferred entry, forwarded if no managed hard
        `Requires` dependency blocks it, and deferred otherwise. Every other
        event is forwarded unchanged. */
    method DecideAndPublish(event: ProcessEvent, config: AppConfig, now: nat)
      modifies this
      ensures !event.IsDownEvent() ==>
        published == old(published) + [event] && retries == old(retries)
        && deferred == old(deferred) && managed == old(managed) && recovering == old(recovering)
      ensures event.IsDownEvent() ==>
        managed == ProcessNames(config.processes)
        && recovering == Prune(old(recovering), now)[event.name := now + RecoveringHoldSecs]
      ensures event.IsDownEvent() && event.name in old(deferred) ==>
        deferred == old(deferred) && published == old(published) && retries == old(retries)
      ensures event.IsDownEvent() && event.name !in old(deferred) ==>
        var deps := ManagedHard(ManualRequires(config, event.name), managed);
        var blocking := BlockingTargets(deps, event.name, recovering, now);
        if blocking == [] then
          published == old(published) + [event] && deferred == old(deferred) && retries == old(retries)
        else
          published == old(published)
          && deferred == old(deferred)[event.name := NewDeferred(event, deps, blocking, now)]
          && retries == old(retries) + [Retry(event.name, FirstRetrySecs)]
    {
      if !event.IsDownEvent() {
        published := published + [event];
        return;
      }
      var name := event.name;
      RefreshSnapshot(config, now);
      MarkRecoveringUntil(name, now);
      if name in deferred {
        return;
      }
      var deps := ManagedHard(ManualRequires(config, name), managed);
      if deps == [] {
        published := published + [event];
        return;
      }
      var blocking := BlockingTargets(deps, name, recovering, now);
      if blocking == [] {
        published := published + [event];
      } else {
        DeferProcess(name, event, deps, blocking, now);
      }
    }

    /** First loop of `handle_retry`: the targets of the tracked dependencies that block now. */
    method CollectBlocking(deps: seq<PerDepState>, name: string, now: nat) returns (cb: set<string>)
      ensures cb == CurrentlyBlocking(deps, name, managed, recovering, now)
    {
      cb := {};
      for i := 0 to |deps|
        invariant cb == CurrentlyBlocking(deps[..i], name, managed, recovering, now)
      {
        var d := deps[i];
        assert deps[..i + 1] == deps[..i] + [d];
        if d.status == Waiting && d.cfg.kind == Requires && d.cfg.hard && d.cfg.target != name
           && d.cfg.target in managed && IsRecovering(recovering, d.cfg.target, now)
        {
          cb := cb + {d.cfg.target};
        }
      }
      assert deps[..|deps|] == deps;
    }

    /** Second loop of `handle_retry`: applies the timeout policies in place. */
    method ApplyTimeoutPolicies(deps: seq<PerDepState>, cb: set<string>, firstDeferredAt: nat, now: nat)
      returns (updated: seq<PerDepState>, abort: bool)
      ensures (updated, abort) == ApplyTimeouts(deps, cb, firstDeferredAt, now)
    {
      updated := deps;
      abort := false;
      var i := 0;
      while i < |updated|
        invariant i <= |updated|
        invariant ApplyTimeoutsFrom(updated, i, cb, firstDeferredAt, now) == ApplyTimeouts(deps, cb, firstDeferredAt, now)
        decreases |updated| - i
      {
        var d := updated[i];
        if TimesOut(d, cb, firstDeferredAt, now) {
          if d.cfg.onFailure == Abort {
            abort := true;
          } else {
            updated := updated[i := d.(status := TimedOut)];
          }
        } else {
          assert updated[i := MarkTimedOut(d, cb, firstDeferredAt, now)] == updated;
        }
        if abort {
          break;
        }
        i := i + 1;
      }
    }

    /** Third loop of `handle_retry`: the Waiting dependencies still in the blocking set. */
    method CollectStillBlocking(deps: seq<PerDepState>, cb: set<string>) returns (still: seq<string>)
      ensures still == StillBlocking(deps, cb)
    {
      still := [];
      for i := 0 to |deps|
        invariant still == StillBlocking(deps[..i], cb)
      {
        assert deps[..i + 1][..i] == deps[..i];
        if deps[i].status == Waiting && deps[i].cfg.target in cb {
          still := still + [deps[i].cfg.target];
        }
      }
      assert deps[..|deps|] == deps;
    }

    /** `handle_retry`. Without a deferred entry nothing happens. Otherwise
        the snapshot is refreshed, the timeout policies are applied, and the
        event is dropped (Abort), released exactly once (nothing blocks any
        more), or held for another retry after `compute_backoff`. */
    method HandleRetry(name: string, config: AppConfig, now: nat)
      modifies this
      ensures name !in old(deferred) ==>
        deferred == old(deferred) && managed == old(managed) && recovering == old(recovering)
        && published == old(published) && retries == old(retries)
      ensures name in old(deferred) ==>
        var s := old(deferred)[name];
        var cb := CurrentlyBlocking(s.deps, name, managed, recovering, now);
        var (updated, abort) := ApplyTimeouts(s.deps, cb, s.firstDeferredAt, now);
        var still := StillBlocking(updated, cb);
        managed == ProcessNames(config.processes) && recovering == Prune(old(recovering), now)
        && (abort ==> deferred == old(deferred) - {name} && published == old(published) && retries == old(retries))
        && (!abort && still == [] ==>
              deferred == old(deferred) - {name} && published == old(published) + [s.originalEvent]
              && retries == old(retries))
        && (!abort && still != [] ==>
              var backoff := ComputeBackoff(s.deferredCount + 1);
              deferred == old(deferred)[name := s.(deps := updated, deferredCount := s.deferredCount + 1,
                                                   waitingOn := still, lastEvalAt := now,
                                                   nextRetryAt := now + backoff)]
              && published == old(published) && retries == old(retries) + [Retry(name, backoff)])
    {
      if name !in deferred {
        return;
      }
      var s := deferred[name];
      RefreshSnapshot(config, now);
      var cb := CollectBlocking(s.deps, name, now);
      var updated, abort := ApplyTimeoutPolicies(s.deps, cb, s.firstDeferredAt, now);
      if abort {
        deferred := deferred - {name};
        return;
      }
      var still := CollectStillBlocking(updated, cb);
      if still == [] {
        deferred := deferred - {name};
        published := published + [s.originalEvent];
      } else {
        var count := s.deferredCount + 1;
        var backoff := ComputeBackoff(count);
        deferred := deferred[name := s.(deps := updated, deferredCount := count, waitingOn := still,
                                        lastEvalAt := now, nextRetryAt := now + backoff)];
        retries := retries + [Retry(name, backoff)];
      }
    }
  }
}
