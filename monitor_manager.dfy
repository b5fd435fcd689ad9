/** `MonitorManager`: keeps the running monitors in line with the configured
    process list. eBPF-monitored processes are watched by the one global eBPF
    monitor; PID and network monitors run as tasks, modelled as handles with
    an id and a finished flag. Kernel-map outcomes are inputs. */
module Manager {
  import opened Common
  import opened Config
  import Events
  import Ebpf = EbpfMonitor

  /** What a started task runs. */
  datatype MonitorTask = PidTask(pid: PidMonitorConfig) | NetworkTask(network: NetworkMonitorConfig)

  /** A `JoinHandle`: the task's id, what it runs and whether it has ended. */
  datatype TaskHandle = TaskHandle(id: nat, task: MonitorTask, finished: bool)

  /** `collect` of `(name, config)` pairs into a map: a later entry for the
      same name replaces an earlier one. */
  function DesiredMap(configs: seq<ProcessConfig>): (m: map<string, ProcessConfig>)
    ensures forall n :: n in m <==> exists p :: p in configs && p.name == n
    ensures forall n :: n in m ==> m[n].name == n && m[n] in configs
  {
    if configs == [] then map[]
    else
      var last := configs[|configs| - 1];
      var before := DesiredMap(configs[..|configs| - 1]);
      assert forall p :: p in configs <==> p in configs[..|configs| - 1] || p == last;
      before[last.name := last]
  }

  /** The last configuration of each name is the one kept. */
  lemma {:induction false} DesiredMapLastWins(configs: seq<ProcessConfig>, i: nat)
    requires i < |configs| && forall j :: i < j < |configs| ==> configs[j].name != configs[i].name
    ensures configs[i].name in DesiredMap(configs) && DesiredMap(configs)[configs[i].name] == configs[i]
  {
    if i < |configs| - 1 {
      var prefix := configs[..|configs| - 1];
      DesiredMapLastWins(prefix, i);
    }
  }

  /** The partition at the start of `reconcile`: enabled processes with an
      eBPF monitor, and the other enabled processes. */
  function SplitEnabled(processes: seq<ProcessConfig>): (r: (seq<ProcessConfig>, seq<ProcessConfig>))
    ensures forall p :: p in r.0 <==> p in processes && p.enabled && GetEbpfMonitorConfig(p).Some?
    ensures forall p :: p in r.1 <==> p in processes && p.enabled && GetEbpfMonitorConfig(p).None?
  {
    var enabled := Filter(processes, (p: ProcessConfig) => p.enabled);
    (Filter(enabled, (p: ProcessConfig) => GetEbpfMonitorConfig(p).Some?),
     Filter(enabled, (p: ProcessConfig) => GetEbpfMonitorConfig(p).None?))
  }

  /** A configuration for which `reconcile_monitors` starts a task. */
  predicate StartsMonitor(pc: ProcessConfig)
  {
    GetPidMonitorConfig(pc).Some? || GetNetworkMonitorConfig(pc).Some?
  }

  /** The task started for a configuration: a PID monitor takes precedence. */
  function TaskFor(pc: ProcessConfig): (t: MonitorTask)
    requires StartsMonitor(pc)
    ensures GetPidMonitorConfig(pc).Some? ==> t == PidTask(GetPidMonitorConfig(pc).value)
    ensures GetPidMonitorConfig(pc).None? ==> t == NetworkTask(GetNetworkMonitorConfig(pc).value)
  {
    match GetPidMonitorConfig(pc)
    case Some(c) => PidTask(c)
    case None => NetworkTask(GetNetworkMonitorConfig(pc).value)
  }

  /** Whether `reconcile_monitors` keeps the handle it finds for a desired name. */
  predicate Keeps(before: map<string, TaskHandle>, n: string, pc: ProcessConfig)
  {
    n in before && !(before[n].finished && StartsMonitor(pc))
  }

  /** The task table after `reconcile_monitors`: exactly the desired names
      that had a handle or get a task; a desired name keeps an unfinished
      handle (even if its configuration changed), and a finished or missing
      one is replaced by a fresh, unfinished task with an id in
      `[firstId, nextId)`, distinct from the other new ids. */
  ghost predicate TasksReconciled(before: map<string, TaskHandle>, after: map<string, TaskHandle>,
                            desired: map<string, ProcessConfig>, firstId: nat, nextId: nat)
  {
    (forall n :: n in after <==> n in desired && (n in before || StartsMonitor(desired[n])))
    && (forall n :: n in after && Keeps(before, n, desired[n]) ==> after[n] == before[n])
    && (forall n :: n in after && !Keeps(before, n, desired[n]) ==>
          StartsMonitor(desired[n]) && after[n].task == TaskFor(desired[n]) && !after[n].finished
          && firstId <= after[n].id < nextId)
    && (forall n, m ::
          (n in after && m in after && n != m && !Keeps(before, n, desired[n]) && !Keeps(before, m, desired[m]))
          ==> after[n].id != after[m].id)
  }

  /** The invariant of the start loop: names still `pending` are untouched,
      the others are reconciled with fresh, distinct ids in `[firstId, nextId)`. */
  ghost predicate StartProgress(before: map<string, TaskHandle>, running: map<string, TaskHandle>,
                                desired: map<string, ProcessConfig>, pending: set<string>, firstId: nat, nextId: nat)
  {
    before.Keys <= desired.Keys && pending <= desired.Keys && firstId <= nextId
    && (forall n :: n in running <==>
          n in before || (n in desired && n !in pending && StartsMonitor(desired[n])))
    && (forall n :: n in running && (n in pending || Keeps(before, n, desired[n])) ==> running[n] == before[n])
    && (forall n :: n in running && n !in pending && !Keeps(before, n, desired[n]) ==>
          StartsMonitor(desired[n]) && running[n].task == TaskFor(desired[n]) && !running[n].finished
          && firstId <= running[n].id < nextId)
    && (forall n, m ::
          (n in running && m in running && n != m && n !in pending && m !in pending
           && !Keeps(before, n, desired[n]) && !Keeps(before, m, desired[m]))
          ==> running[n].id != running[m].id)
  }

  /** One iteration of the start loop keeps its invariant. */
  lemma StartStep(before: map<string, TaskHandle>, running: map<string, TaskHandle>, running': map<string, TaskHandle>,
                  desired: map<string, ProcessConfig>, pending: set<string>, name: string,
                  firstId: nat, nextId: nat, nextId': nat)
    requires StartProgress(before, running, desired, pending, firstId, nextId) && name in pending
    requires (name !in running || running[name].finished) && StartsMonitor(desired[name]) ==>
               running' == running[name := TaskHandle(nextId, TaskFor(desired[name]), false)] && nextId' == nextId + 1
    requires !((name !in running || running[name].finished) && StartsMonitor(desired[name])) ==>
               running' == running && nextId' == nextId
    ensures StartProgress(before, running', desired, pending - {name}, firstId, nextId')
  {
    if (name !in running || running[name].finished) && StartsMonitor(desired[name]) {
      StartFresh(before, running, desired, pending, name, firstId, nextId);
    } else {
      assert !Keeps(before, name, desired[name]) ==> name !in running;
    }
  }

  /** The iteration that starts a task for `name` keeps the invariant. */
  lemma StartFresh(before: map<string, TaskHandle>, running: map<string, TaskHandle>,
                   desired: map<string, ProcessConfig>, pending: set<string>, name: string,
                   firstId: nat, nextId: nat)
    requires StartProgress(before, running, desired, pending, firstId, nextId) && name in pending
    requires (name !in running || running[name].finished) && StartsMonitor(desired[name])
    ensures StartProgress(before, running[name := TaskHandle(nextId, TaskFor(desired[name]), false)],
                          desired, pending - {name}, firstId, nextId + 1)
  {
    var running' := running[name := TaskHandle(nextId, TaskFor(desired[name]), false)];
    var pending' := pending - {name};
    assert !Keeps(before, name, desired[name]);
    forall n | n in running' && (n in pending' || Keeps(before, n, desired[n]))
      ensures running'[n] == before[n]
    {
      assert n != name && running'[n] == running[n];
    }
    forall n | n in running' && n !in pending' && !Keeps(before, n, desired[n])
      ensures StartsMonitor(desired[n]) && running'[n].task == TaskFor(desired[n]) && !running'[n].finished
              && firstId <= running'[n].id < nextId + 1
    {
      if n != name {
        assert running'[n] == running[n];
      }
    }
    forall n, m | n in running' && m in running' && n != m && n !in pending' && m !in pending'
                  && !Keeps(before, n, desired[n]) && !Keeps(before, m, desired[m])
      ensures running'[n].id != running'[m].id
    {
      if n != name && m != name {
        assert running'[n] == running[n] && running'[m] == running[m];
      }
    }
    assert forall n :: n in running' <==>
             n in before || (n in desired && n !in pending' && StartsMonitor(desired[n]));
  }

  /** The ids of the undesired tasks stopped so far grow by the one stopped next. */
  lemma StoppedIdsStep(before: map<string, TaskHandle>, desired: map<string, ProcessConfig>, toStop: set<string>, name: string)
    requires name in toStop && name in before && name !in desired
    ensures (set n | n in before && n !in desired && n !in toStop - {name} :: before[n].id)
            == (set n | n in before && n !in desired && n !in toStop :: before[n].id) + {before[name].id}
  {
  }

  /** A task table that already matches the desired list. */
  predicate Settled(running: map<string, TaskHandle>, desired: map<string, ProcessConfig>)
  {
    (forall n :: n in running ==> n in desired && (running[n].finished ==> !StartsMonitor(desired[n])))
    && (forall n :: n in desired && StartsMonitor(desired[n]) ==> n in running)
  }

  /** After reconciliation the table matches the desired list. */
  lemma ReconciledIsSettled(before: map<string, TaskHandle>, after: map<string, TaskHandle>,
                            desired: map<string, ProcessConfig>, firstId: nat, nextId: nat)
    requires TasksReconciled(before, after, desired, firstId, nextId)
    ensures Settled(after, desired)
  {
  }

  /** Reconciling a table that already matches changes nothing, so
      reconciling twice with the same list starts no new task. */
  lemma {:induction false} SettledIsFixpoint(before: map<string, TaskHandle>, after: map<string, TaskHandle>,
                                             desired: map<string, ProcessConfig>, firstId: nat, nextId: nat)
    requires Settled(before, desired)
    requires TasksReconciled(before, after, desired, firstId, nextId)
    ensures after == before
  {
    forall n | n in after
      ensures n in before && after[n] == before[n]
    {
      assert Keeps(before, n, desired[n]);
    }
    assert after.Keys == before.Keys;
  }

  /** The watched table after `reconcile_ebpf_monitors`: exactly the desired
      names that were watched already (with their old configuration) or whose
      watch succeeded now (with the desired one). */
  ghost predicate WatchReconciled(before: map<string, ProcessConfig>, after: map<string, ProcessConfig>,
                            desired: map<string, ProcessConfig>, watchFails: set<string>)
  {
    (forall n :: n in after <==>
       n in desired && (n in before || (GetEbpfMonitorConfig(desired[n]).Some? && n !in watchFails)))
    && (forall n :: n in after ==> after[n] == if n in before then before[n] else desired[n])
  }

  /** The kernel-map names of the eBPF-monitored configurations among `names`. */
  function WatchNames(configs: map<string, ProcessConfig>, names: set<string>): set<string>
  {
    set n | n in names && n in configs && GetEbpfMonitorConfig(configs[n]).Some? :: Ebpf.WatchName(configs[n].command)
  }

  /** The kernel keys of the eBPF-monitored configurations among `names`. */
  function WatchKeys(configs: map<string, ProcessConfig>, names: set<string>): set<Events.Comm>
  {
    set n | n in names && n in configs && GetEbpfMonitorConfig(configs[n]).Some? ::
      Ebpf.NameKey(Ebpf.WatchName(configs[n].command))
  }

  /** The configured names among `names` whose command is watched under `k`. */
  function WatchOwners(configs: map<string, ProcessConfig>, names: set<string>, k: string): set<string>
  {
    set n | n in names && n in configs && GetEbpfMonitorConfig(configs[n]).Some?
            && Ebpf.WatchName(configs[n].command) == k :: configs[n].name
  }

  /** The desired names the second loop of `reconcile_ebpf_monitors` tries to
      watch: not watched yet and with an eBPF monitor. */
  function ToWatch(watched: map<string, ProcessConfig>, desired: map<string, ProcessConfig>): set<string>
  {
    set n | n in desired && n !in watched && GetEbpfMonitorConfig(desired[n]).Some?
  }

  /** The mapping after a watch attempt for each of `attempted`, starting
      from `mapping0`: every attempt writes its entry, whether or not the
      kernel insert succeeds, to one of the configured names sharing that
      watch name (whichever was visited last); other entries are untouched. */
  ghost predicate MappingAdded(mapping0: map<string, string>, mapping: map<string, string>,
                               configs: map<string, ProcessConfig>, attempted: set<string>)
  {
    mapping.Keys == mapping0.Keys + WatchNames(configs, attempted)
    && (forall k :: k in mapping && k !in WatchNames(configs, attempted) ==> mapping[k] == mapping0[k])
    && (forall k :: k in WatchNames(configs, attempted) ==> k in mapping && mapping[k] in WatchOwners(configs, attempted, k))
  }

  /** The eBPF monitor's state after a watch attempt for each of `attempted`,
      starting from `mapping0` and `kernel0`: the mapping as `MappingAdded`
      says, and only the attempts outside `watchFails` add their kernel key. */
  ghost predicate WatchesAdded(mapping0: map<string, string>, kernel0: set<Events.Comm>,
                               mapping: map<string, string>, kernel: set<Events.Comm>,
                               configs: map<string, ProcessConfig>, attempted: set<string>, watchFails: set<string>)
  {
    MappingAdded(mapping0, mapping, configs, attempted)
    && kernel == kernel0 + WatchKeys(configs, attempted - watchFails)
  }

  /** Adding one more name to a set of configurations adds its watch name, if it has one. */
  lemma WatchNamesStep(configs: map<string, ProcessConfig>, names: set<string>, x: string)
    requires x in configs
    ensures WatchNames(configs, names + {x}) == WatchNames(configs, names)
              + if GetEbpfMonitorConfig(configs[x]).Some? then {Ebpf.WatchName(configs[x].command)} else {}
  {
  }

  /** Adding one more name to a set of configurations adds its kernel key, if it has one. */
  lemma WatchKeysStep(configs: map<string, ProcessConfig>, names: set<string>, x: string)
    requires x in configs
    ensures WatchKeys(configs, names + {x}) == WatchKeys(configs, names)
              + if GetEbpfMonitorConfig(configs[x]).Some? then {Ebpf.NameKey(Ebpf.WatchName(configs[x].command))} else {}
  {
  }

  /** One watch attempt keeps `MappingAdded`. */
  lemma MappingAttemptStep(mapping0: map<string, string>, mapping: map<string, string>,
                           configs: map<string, ProcessConfig>, attempted: set<string>, x: string)
    requires MappingAdded(mapping0, mapping, configs, attempted)
    requires x in configs && GetEbpfMonitorConfig(configs[x]).Some? && x !in attempted
    ensures MappingAdded(mapping0, mapping[Ebpf.WatchName(configs[x].command) := configs[x].name],
                         configs, attempted + {x})
  {
    var w := Ebpf.WatchName(configs[x].command);
    var mapping' := mapping[w := configs[x].name];
    var attempted' := attempted + {x};
    WatchNamesStep(configs, attempted, x);
    assert WatchNames(configs, attempted') == WatchNames(configs, attempted) + {w};
    assert mapping'.Keys == mapping0.Keys + WatchNames(configs, attempted');
    forall k | k in mapping' && k !in WatchNames(configs, attempted')
      ensures mapping'[k] == mapping0[k]
    {
      assert k != w && k !in WatchNames(configs, attempted);
    }
    forall k | k in WatchNames(configs, attempted')
      ensures k in mapping' && mapping'[k] in WatchOwners(configs, attempted', k)
    {
      if k == w {
        assert configs[x].name in WatchOwners(configs, attempted', k);
      } else {
        assert k in WatchNames(configs, attempted);
        WatchOwnersGrow(configs, attempted, x, k);
      }
    }
    assert MappingAdded(mapping0, mapping', configs, attempted');
  }

  /** One watch attempt keeps `WatchesAdded`. */
  lemma WatchAttemptStep(mapping0: map<string, string>, kernel0: set<Events.Comm>,
                         mapping: map<string, string>, kernel: set<Events.Comm>,
                         configs: map<string, ProcessConfig>, attempted: set<string>, watchFails: set<string>, x: string)
    requires WatchesAdded(mapping0, kernel0, mapping, kernel, configs, attempted, watchFails)
    requires x in configs && GetEbpfMonitorConfig(configs[x]).Some? && x !in attempted
    ensures var w := Ebpf.WatchName(configs[x].command);
            WatchesAdded(mapping0, kernel0, mapping[w := configs[x].name],
                         if x !in watchFails then kernel + {Ebpf.NameKey(w)} else kernel,
                         configs, attempted + {x}, watchFails)
  {
    var w := Ebpf.WatchName(configs[x].command);
    MappingAttemptStep(mapping0, mapping, configs, attempted, x);
    var kernel' := if x !in watchFails then kernel + {Ebpf.NameKey(w)} else kernel;
    if x !in watchFails {
      assert attempted + {x} - watchFails == (attempted - watchFails) + {x};
      WatchKeysStep(configs, attempted - watchFails, x);
    } else {
      assert attempted + {x} - watchFails == attempted - watchFails;
    }
    assert kernel' == kernel0 + WatchKeys(configs, attempted + {x} - watchFails);
  }

  /** The state the remove loop keeps: the watches of `removed` are gone
      from the mapping, and their kernel keys too unless their removal failed. */
  ghost predicate WatchesRemoved(mapping0: map<string, string>, kernel0: set<Events.Comm>,
                                 mapping: map<string, string>, kernel: set<Events.Comm>,
                                 configs: map<string, ProcessConfig>, removed: set<string>, unwatchFails: set<string>)
  {
    mapping == mapping0 - WatchNames(configs, removed)
    && kernel == kernel0 - WatchKeys(configs, removed - unwatchFails)
  }

  /** Removing one more watched name keeps `WatchesRemoved`: an eBPF
      configuration loses its mapping entry and, if the removal succeeds, its
      kernel key; any other configuration changes nothing. */
  lemma UnwatchStep(mapping0: map<string, string>, kernel0: set<Events.Comm>,
                    mapping: map<string, string>, kernel: set<Events.Comm>,
                    mapping': map<string, string>, kernel': set<Events.Comm>,
                    configs: map<string, ProcessConfig>, removed: set<string>, unwatchFails: set<string>, x: string)
    requires WatchesRemoved(mapping0, kernel0, mapping, kernel, configs, removed, unwatchFails)
    requires x in configs
    requires GetEbpfMonitorConfig(configs[x]).Some? ==>
               var w := Ebpf.WatchName(configs[x].command);
               mapping' == mapping - {w}
               && kernel' == if x !in unwatchFails then kernel - {Ebpf.NameKey(w)} else kernel
    requires GetEbpfMonitorConfig(configs[x]).None? ==> mapping' == mapping && kernel' == kernel
    ensures WatchesRemoved(mapping0, kernel0, mapping', kernel', configs, removed + {x}, unwatchFails)
  {
    UnwatchMappingStep(mapping0, mapping, mapping', configs, removed, x);
    UnwatchKernelStep(kernel0, kernel, kernel', configs, removed, unwatchFails, x);
  }

  /** The mapping half of `UnwatchStep`. */
  lemma UnwatchMappingStep(mapping0: map<string, string>, mapping: map<string, string>, mapping': map<string, string>,
                           configs: map<string, ProcessConfig>, removed: set<string>, x: string)
    requires mapping == mapping0 - WatchNames(configs, removed)
    requires x in configs
    requires GetEbpfMonitorConfig(configs[x]).Some? ==> mapping' == mapping - {Ebpf.WatchName(configs[x].command)}
    requires GetEbpfMonitorConfig(configs[x]).None? ==> mapping' == mapping
    ensures mapping' == mapping0 - WatchNames(configs, removed + {x})
  {
    WatchNamesStep(configs, removed, x);
  }

  /** The kernel half of `UnwatchStep`. */
  lemma UnwatchKernelStep(kernel0: set<Events.Comm>, kernel: set<Events.Comm>, kernel': set<Events.Comm>,
                          configs: map<string, ProcessConfig>, removed: set<string>, unwatchFails: set<string>, x: string)
    requires kernel == kernel0 - WatchKeys(configs, removed - unwatchFails)
    requires x in configs
    requires GetEbpfMonitorConfig(configs[x]).Some? ==>
               kernel' == if x !in unwatchFails then kernel - {Ebpf.NameKey(Ebpf.WatchName(configs[x].command))} else kernel
    requires GetEbpfMonitorConfig(configs[x]).None? ==> kernel' == kernel
    ensures kernel' == kernel0 - WatchKeys(configs, removed + {x} - unwatchFails)
  {
    if x !in unwatchFails {
      assert removed + {x} - unwatchFails == (removed - unwatchFails) + {x};
      WatchKeysStep(configs, removed - unwatchFails, x);
    } else {
      assert removed + {x} - unwatchFails == removed - unwatchFails;
    }
  }

  /** The invariant of the remove loop: the names still in `toRemove` are
      watched, every other undesired name has left the table (the rest keep
      their configuration), and the eBPF monitor has lost the watches of the
      names handled so far. */
  ghost predicate RemoveProgress(before: map<string, ProcessConfig>, desired: map<string, ProcessConfig>,
                                 unwatchFails: set<string>, mapping0: map<string, string>, kernel0: set<Events.Comm>,
                                 toRemove: set<string>, watched: map<string, ProcessConfig>,
                                 mapping: map<string, string>, kernel: set<Events.Comm>)
  {
    toRemove <= watched.Keys && toRemove * desired.Keys == {}
    && (forall n :: n in watched <==> n in before && (n in desired || n in toRemove))
    && (forall n :: n in watched ==> watched[n] == before[n])
    && WatchesRemoved(mapping0, kernel0, mapping, kernel, before, before.Keys - desired.Keys - toRemove, unwatchFails)
  }

  /** One iteration of the remove loop keeps `RemoveProgress`. */
  lemma RemoveStep(before: map<string, ProcessConfig>, desired: map<string, ProcessConfig>,
                   unwatchFails: set<string>, mapping0: map<string, string>, kernel0: set<Events.Comm>,
                   toRemove: set<string>, watched: map<string, ProcessConfig>,
                   mapping: map<string, string>, kernel: set<Events.Comm>,
                   watched': map<string, ProcessConfig>, mapping': map<string, string>, kernel': set<Events.Comm>,
                   name: string)
    requires RemoveProgress(before, desired, unwatchFails, mapping0, kernel0, toRemove, watched, mapping, kernel)
    requires name in toRemove && watched' == watched - {name}
    requires GetEbpfMonitorConfig(watched[name]).Some? ==>
               var w := Ebpf.WatchName(watched[name].command);
               mapping' == mapping - {w}
               && kernel' == if name !in unwatchFails then kernel - {Ebpf.NameKey(w)} else kernel
    requires GetEbpfMonitorConfig(watched[name]).None? ==> mapping' == mapping && kernel' == kernel
    ensures RemoveProgress(before, desired, unwatchFails, mapping0, kernel0, toRemove - {name}, watched', mapping', kernel')
  {
    var removed := before.Keys - desired.Keys - toRemove;
    UnwatchStep(mapping0, kernel0, mapping, kernel, mapping', kernel', before, removed, unwatchFails, name);
    assert before.Keys - desired.Keys - (toRemove - {name}) == removed + {name};
  }

  /** The table half of the add loop's invariant: the names handled so far
      (not in `pending`) that were not watched are in the table exactly when
      they have an eBPF monitor and their watch succeeded. */
  ghost predicate AddTable(before: map<string, ProcessConfig>, desired: map<string, ProcessConfig>,
                           watchFails: set<string>, pending: set<string>, watched: map<string, ProcessConfig>)
  {
    pending <= desired.Keys
    && (forall n :: n in watched <==>
          n in before || (n in desired && n !in pending && GetEbpfMonitorConfig(desired[n]).Some? && n !in watchFails))
    && (forall n :: n in watched ==> watched[n] == if n in before then before[n] else desired[n])
  }

  /** The invariant of the add loop: `AddTable`, and the eBPF monitor shows a
      watch attempt for each name handled so far that was not watched. */
  ghost predicate AddProgress(before: map<string, ProcessConfig>, desired: map<string, ProcessConfig>,
                              watchFails: set<string>, mapping0: map<string, string>, kernel0: set<Events.Comm>,
                              pending: set<string>, watched: map<string, ProcessConfig>,
                              mapping: map<string, string>, kernel: set<Events.Comm>)
  {
    AddTable(before, desired, watchFails, pending, watched)
    && WatchesAdded(mapping0, kernel0, mapping, kernel, desired, ToWatch(before, desired) - pending, watchFails)
  }

  /** One iteration of the add loop keeps `AddTable`. */
  lemma AddTableStep(before: map<string, ProcessConfig>, desired: map<string, ProcessConfig>,
                     watchFails: set<string>, pending: set<string>, watched: map<string, ProcessConfig>,
                     watched': map<string, ProcessConfig>, name: string)
    requires AddTable(before, desired, watchFails, pending, watched)
    requires name in pending
    requires name !in watched && GetEbpfMonitorConfig(desired[name]).Some? ==>
               watched' == if name !in watchFails then watched[name := desired[name]] else watched
    requires !(name !in watched && GetEbpfMonitorConfig(desired[name]).Some?) ==> watched' == watched
    ensures AddTable(before, desired, watchFails, pending - {name}, watched')
  {
  }

  /** One iteration of the add loop keeps `AddProgress`. */
  lemma AddStep(before: map<string, ProcessConfig>, desired: map<string, ProcessConfig>,
                watchFails: set<string>, mapping0: map<string, string>, kernel0: set<Events.Comm>,
                pending: set<string>, watched: map<string, ProcessConfig>,
                mapping: map<string, string>, kernel: set<Events.Comm>,
                watched': map<string, ProcessConfig>, mapping': map<string, string>, kernel': set<Events.Comm>,
                name: string)
    requires AddProgress(before, desired, watchFails, mapping0, kernel0, pending, watched, mapping, kernel)
    requires name in pending
    requires name !in watched && GetEbpfMonitorConfig(desired[name]).Some? ==>
               var w := Ebpf.WatchName(desired[name].command);
               mapping' == mapping[w := desired[name].name]
               && kernel' == (if name !in watchFails then kernel + {Ebpf.NameKey(w)} else kernel)
               && watched' == if name !in watchFails then watched[name := desired[name]] else watched
    requires !(name !in watched && GetEbpfMonitorConfig(desired[name]).Some?) ==>
               mapping' == mapping && kernel' == kernel && watched' == watched
    ensures AddProgress(before, desired, watchFails, mapping0, kernel0, pending - {name}, watched', mapping', kernel')
  {
    AddTableStep(before, desired, watchFails, pending, watched, watched', name);
    var tried := ToWatch(before, desired) - pending;
    if name !in watched && GetEbpfMonitorConfig(desired[name]).Some? {
      WatchAttemptStep(mapping0, kernel0, mapping, kernel, desired, tried, watchFails, name);
      assert ToWatch(before, desired) - (pending - {name}) == tried + {name};
    } else {
      assert ToWatch(before, desired) - (pending - {name}) == tried;
    }
  }

  /** The eBPF monitor after `reconcile_ebpf_monitors`, from `mapping0` and
      `kernel0` with the table `before`: the watches of the names no longer
      desired are removed (mapping entry always, kernel key unless the removal
      fails), then every desired name not watched before gets a watch attempt
      as `WatchesAdded` says. */
  ghost predicate EbpfReconciled(mapping0: map<string, string>, kernel0: set<Events.Comm>,
                                 mapping: map<string, string>, kernel: set<Events.Comm>,
                                 before: map<string, ProcessConfig>, desired: map<string, ProcessConfig>,
                                 watchFails: set<string>, unwatchFails: set<string>)
  {
    var removed := before.Keys - desired.Keys;
    WatchesAdded(mapping0 - WatchNames(before, removed), kernel0 - WatchKeys(before, removed - unwatchFails),
                 mapping, kernel, desired, ToWatch(before, desired), watchFails)
  }

  /** After reconciliation every newly watched name has its mapping entry and
      its kernel key in place. */
  lemma NewWatchesInPlace(mapping0: map<string, string>, kernel0: set<Events.Comm>,
                          mapping: map<string, string>, kernel: set<Events.Comm>,
                          before: map<string, ProcessConfig>, after: map<string, ProcessConfig>,
                          desired: map<string, ProcessConfig>, watchFails: set<string>, unwatchFails: set<string>)
    requires EbpfReconciled(mapping0, kernel0, mapping, kernel, before, desired, watchFails, unwatchFails)
    requires WatchReconciled(before, after, desired, watchFails)
    ensures forall n :: n in after && n !in before ==>
              var cmd := GetEbpfMonitorConfig(after[n]).value.command;
              Ebpf.WatchName(cmd) in mapping && Ebpf.NameKey(Ebpf.WatchName(cmd)) in kernel
  {
    forall n | n in after && n !in before
      ensures var cmd := GetEbpfMonitorConfig(after[n]).value.command;
              Ebpf.WatchName(cmd) in mapping && Ebpf.NameKey(Ebpf.WatchName(cmd)) in kernel
    {
      assert n in ToWatch(before, desired) && n in ToWatch(before, desired) - watchFails;
      assert Ebpf.WatchName(desired[n].command) in WatchNames(desired, ToWatch(before, desired));
      assert Ebpf.NameKey(Ebpf.WatchName(desired[n].command)) in WatchKeys(desired, ToWatch(before, desired) - watchFails);
    }
  }

  /** A name that is no longer desired loses its watch: its mapping entry is
      gone unless a newly watched command has the same watch name, and its
      kernel key is gone too if the removal succeeded and no successful new
      watch put the same key back. */
  lemma UndesiredWatchGone(mapping0: map<string, string>, kernel0: set<Events.Comm>,
                           mapping: map<string, string>, kernel: set<Events.Comm>,
                           before: map<string, ProcessConfig>, desired: map<string, ProcessConfig>,
                           watchFails: set<string>, unwatchFails: set<string>, n: string)
    requires EbpfReconciled(mapping0, kernel0, mapping, kernel, before, desired, watchFails, unwatchFails)
    requires n in before && n !in desired && GetEbpfMonitorConfig(before[n]).Some?
    ensures var w := Ebpf.WatchName(before[n].command);
            w !in WatchNames(desired, ToWatch(before, desired)) ==> w !in mapping
    ensures var key := Ebpf.NameKey(Ebpf.WatchName(before[n].command));
            n !in unwatchFails && key !in WatchKeys(desired, ToWatch(before, desired) - watchFails) ==> key !in kernel
  {
    var removed := before.Keys - desired.Keys;
    assert Ebpf.WatchName(before[n].command) in WatchNames(before, removed);
    if n !in unwatchFails {
      assert Ebpf.NameKey(Ebpf.WatchName(before[n].command)) in WatchKeys(before, removed - unwatchFails);
    }
  }

  /** More attempted names can only add owners of a watch name. */
  lemma WatchOwnersGrow(configs: map<string, ProcessConfig>, names: set<string>, x: string, k: string)
    ensures WatchOwners(configs, names, k) <= WatchOwners(configs, names + {x}, k)
  {
  }

  class MonitorManager {
    var ebpf: Ebpf.EbpfMonitor?
    var watched: map<string, ProcessConfig>
    var running: map<string, TaskHandle>
    var nextTaskId: nat
    /** Ids of the tasks aborted so far. */
    ghost var aborted: set<nat>

    /** `new`: the eBPF monitor exists only if it could be loaded. */
    constructor(ebpfAvailable: bool)
      ensures ebpfAvailable ==> ebpf != null && fresh(ebpf) && ebpf.mapping == map[] && ebpf.kernelNames == {}
      ensures !ebpfAvailable ==> ebpf == null
      ensures watched == map[] && running == map[] && nextTaskId == 0 && aborted == {}
    {
      if ebpfAvailable {
        ebpf := new Ebpf.EbpfMonitor();
      } else {
        ebpf := null;
      }
      watched := map[];
      running := map[];
      nextTaskId := 0;
      aborted := {};
    }

    /** The task of `name` ends on its own (a monitor loop returned or panicked). */
    method TaskExited(name: string)
      modifies this
      ensures name in old(running) ==> running == old(running)[name := old(running)[name].(finished := true)]
      ensures name !in old(running) ==> running == old(running)
      ensures ebpf == old(ebpf) && watched == old(watched) && nextTaskId == old(nextTaskId) && aborted == old(aborted)
    {
      if name in running {
        running := running[name := running[name].(finished := true)];
      }
    }

    /** `reconcile_ebpf_monitors`. `watchFails` and `unwatchFails` name the
        processes whose kernel-map insert or removal fails. */
    method ReconcileEbpfMonitors(desiredConfigs: seq<ProcessConfig>, watchFails: set<string>, unwatchFails: set<string>)
      modifies this, ebpf
      ensures ebpf == old(ebpf) && running == old(running) && nextTaskId == old(nextTaskId) && aborted == old(aborted)
      ensures old(ebpf) == null ==> watched == old(watched)
      ensures old(ebpf) != null ==> WatchReconciled(old(watched), watched, DesiredMap(desiredConfigs), watchFails)
      ensures old(ebpf) != null ==>
        EbpfReconciled(old(ebpf.mapping), old(ebpf.kernelNames), ebpf.mapping, ebpf.kernelNames,
                       old(watched), DesiredMap(desiredConfigs), watchFails, unwatchFails)
      ensures old(ebpf) != null ==>
        forall n :: n in watched && n !in old(watched) ==>
          var cmd := GetEbpfMonitorConfig(watched[n]).value.command;
          Ebpf.WatchName(cmd) in ebpf.mapping && Ebpf.NameKey(Ebpf.WatchName(cmd)) in ebpf.kernelNames
    {
      if ebpf == null {
        return;
      }
      var desired := DesiredMap(desiredConfigs);
      RemoveWatches(desired, unwatchFails);
      ghost var middle := watched;
      assert ToWatch(middle, desired) == ToWatch(old(watched), desired);
      AddWatches(desired, watchFails);
      NewWatchesInPlace(old(ebpf.mapping), old(ebpf.kernelNames), ebpf.mapping, ebpf.kernelNames,
                        old(watched), watched, desired, watchFails, unwatchFails);
    }

    /** First loop of `reconcile_ebpf_monitors`: a watched name that is no
        longer desired leaves the table whether or not the unwatch succeeds. */
    method RemoveWatches(desired: map<string, ProcessConfig>, unwatchFails: set<string>)
      requires ebpf != null
      modifies this, ebpf
      ensures watched == map n | n in old(watched) && n in desired :: old(watched)[n]
      ensures ebpf == old(ebpf) && running == old(running) && nextTaskId == old(nextTaskId) && aborted == old(aborted)
      ensures WatchesRemoved(old(ebpf.mapping), old(ebpf.kernelNames), ebpf.mapping, ebpf.kernelNames,
                             old(watched), old(watched).Keys - desired.Keys, unwatchFails)
    {
      ghost var before := watched;
      ghost var (mapping0, kernel0) := (ebpf.mapping, ebpf.kernelNames);
      var toRemove := watched.Keys - desired.Keys;
      assert WatchNames(before, {}) == {} && WatchKeys(before, {}) == {};
      assert before.Keys - desired.Keys - toRemove == {};
      while toRemove != {}
        invariant ebpf == old(ebpf) && running == old(running) && nextTaskId == old(nextTaskId) && aborted == old(aborted)
        invariant RemoveProgress(before, desired, unwatchFails, mapping0, kernel0, toRemove, watched, ebpf.mapping, ebpf.kernelNames)
        decreases toRemove
      {
        var name :| name in toRemove;
        ghost var (watched1, mapping1, kernel1) := (watched, ebpf.mapping, ebpf.kernelNames);
        Unwatch(name, name !in unwatchFails);
        RemoveStep(before, desired, unwatchFails, mapping0, kernel0, toRemove, watched1, mapping1, kernel1,
                   watched, ebpf.mapping, ebpf.kernelNames, name);
        toRemove := toRemove - {name};
      }
      assert before.Keys - desired.Keys - toRemove == before.Keys - desired.Keys;
    }

    /** One iteration of the first loop: `name` leaves the table, and its
        watch, if it had one, is removed from the eBPF monitor. */
    method Unwatch(name: string, removeOk: bool)
      requires ebpf != null && name in watched
      modifies this, ebpf
      ensures ebpf == old(ebpf) && running == old(running) && nextTaskId == old(nextTaskId) && aborted == old(aborted)
      ensures watched == old(watched) - {name}
      ensures GetEbpfMonitorConfig(old(watched)[name]).Some? ==>
        var w := Ebpf.WatchName(old(watched)[name].command);
        ebpf.mapping == old(ebpf.mapping) - {w}
        && ebpf.kernelNames == if removeOk then old(ebpf.kernelNames) - {Ebpf.NameKey(w)} else old(ebpf.kernelNames)
      ensures GetEbpfMonitorConfig(old(watched)[name]).None? ==>
        ebpf.mapping == old(ebpf.mapping) && ebpf.kernelNames == old(ebpf.kernelNames)
    {
      var config := watched[name];
      watched := watched - {name};
      match GetEbpfMonitorConfig(config)
      case Some(ebpfConfig) =>
        var _ := ebpf.UnwatchConfig(ebpfConfig, removeOk);
      case None =>
    }

    /** Second loop of `reconcile_ebpf_monitors`: a desired name not yet
        watched is entered only if its watch succeeds; every attempt leaves
        its trace on the eBPF monitor as `WatchesAdded` says. */
    method AddWatches(desired: map<string, ProcessConfig>, watchFails: set<string>)
      requires ebpf != null && watched.Keys <= desired.Keys
      modifies this, ebpf
      ensures ebpf == old(ebpf) && running == old(running) && nextTaskId == old(nextTaskId) && aborted == old(aborted)
      ensures forall n :: n in watched <==>
        n in old(watched) || (n in desired && GetEbpfMonitorConfig(desired[n]).Some? && n !in watchFails)
      ensures forall n :: n in watched ==> watched[n] == if n in old(watched) then old(watched)[n] else desired[n]
      ensures WatchesAdded(old(ebpf.mapping), old(ebpf.kernelNames), ebpf.mapping, ebpf.kernelNames,
                           desired, ToWatch(old(watched), desired), watchFails)
    {
      ghost var before := watched;
      ghost var (mapping0, kernel0) := (ebpf.mapping, ebpf.kernelNames);
      var pending := desired.Keys;
      assert WatchNames(desired, {}) == {} && WatchKeys(desired, {}) == {};
      assert ToWatch(before, desired) - pending == {};
      while pending != {}
        invariant ebpf == old(ebpf) && running == old(running) && nextTaskId == old(nextTaskId) && aborted == old(aborted)
        invariant AddProgress(before, desired, watchFails, mapping0, kernel0, pending, watched, ebpf.mapping, ebpf.kernelNames)
        decreases pending
      {
        var name :| name in pending;
        ghost var (watched1, mapping1, kernel1) := (watched, ebpf.mapping, ebpf.kernelNames);
        WatchIfNew(name, desired[name], name !in watchFails);
        AddStep(before, desired, watchFails, mapping0, kernel0, pending, watched1, mapping1, kernel1,
                watched, ebpf.mapping, ebpf.kernelNames, name);
        pending := pending - {name};
      }
      assert ToWatch(before, desired) - pending == ToWatch(before, desired);
    }

    /** One iteration of the second loop: a name not yet watched whose
        configuration has an eBPF monitor gets a watch attempt, and enters the
        table if it succeeds; any other name changes nothing. */
    method WatchIfNew(name: string, config: ProcessConfig, insertOk: bool)
      requires ebpf != null
      modifies this, ebpf
      ensures ebpf == old(ebpf) && running == old(running) && nextTaskId == old(nextTaskId) && aborted == old(aborted)
      ensures name !in old(watched) && GetEbpfMonitorConfig(config).Some? ==>
        var w := Ebpf.WatchName(config.command);
        ebpf.mapping == old(ebpf.mapping)[w := config.name]
        && ebpf.kernelNames == (if insertOk then old(ebpf.kernelNames) + {Ebpf.NameKey(w)} else old(ebpf.kernelNames))
        && watched == if insertOk then old(watched)[name := config] else old(watched)
      ensures !(name !in old(watched) && GetEbpfMonitorConfig(config).Some?) ==>
        ebpf.mapping == old(ebpf.mapping) && ebpf.kernelNames == old(ebpf.kernelNames) && watched == old(watched)
    {
      if name !in watched {
        match GetEbpfMonitorConfig(config)
        case Some(ebpfConfig) =>
          var ok := ebpf.WatchConfig(ebpfConfig, insertOk);
          if ok {
            watched := watched[name := config];
          }
        case None =>
      }
    }

    /** `reconcile_monitors`: stops the tasks of names no longer desired and
        starts a PID or network monitor for each desired name without a
        running task. */
    method ReconcileMonitors(desiredConfigs: seq<ProcessConfig>)
      modifies this
      ensures ebpf == old(ebpf) && watched == old(watched) && nextTaskId >= old(nextTaskId)
      ensures TasksReconciled(old(running), running, DesiredMap(desiredConfigs), old(nextTaskId), nextTaskId)
      ensures aborted == old(aborted) + set n | n in old(running) && n !in DesiredMap(desiredConfigs) :: old(running)[n].id
    {
      var desired := DesiredMap(desiredConfigs);
      StopTasks(desired);
      ghost var middle := running;
      StartTasks(desired);
      assert forall n :: n in desired ==> (Keeps(middle, n, desired[n]) <==> Keeps(old(running), n, desired[n]));
    }

    /** First loop of `reconcile_monitors`: the tasks of undesired names are aborted and removed. */
    method StopTasks(desired: map<string, ProcessConfig>)
      modifies this
      ensures running == map n | n in old(running) && n in desired :: old(running)[n]
      ensures aborted == old(aborted) + set n | n in old(running) && n !in desired :: old(running)[n].id
      ensures ebpf == old(ebpf) && watched == old(watched) && nextTaskId == old(nextTaskId)
    {
      ghost var before := running;
      var toStop := running.Keys - desired.Keys;
      while toStop != {}
        invariant toStop <= running.Keys && toStop * desired.Keys == {}
        invariant forall n :: n in running <==> n in before && (n in desired || n in toStop)
        invariant forall n :: n in running ==> running[n] == before[n]
        invariant aborted == old(aborted) + set n | n in before && n !in desired && n !in toStop :: before[n].id
        invariant ebpf == old(ebpf) && watched == old(watched) && nextTaskId == old(nextTaskId)
        decreases toStop
      {
        var name :| name in toStop;
        var handle := running[name];
        StoppedIdsStep(before, desired, toStop, name);
        running := running - {name};
        toStop := toStop - {name};
        aborted := aborted + {handle.id};
      }
    }

    /** Second loop of `reconcile_monitors`. */
    method StartTasks(desired: map<string, ProcessConfig>)
      requires running.Keys <= desired.Keys
      modifies this
      ensures nextTaskId >= old(nextTaskId)
      ensures TasksReconciled(old(running), running, desired, old(nextTaskId), nextTaskId)
      ensures ebpf == old(ebpf) && watched == old(watched) && aborted == old(aborted)
    {
      ghost var before := running;
      var pending := desired.Keys;
      while pending != {}
        invariant StartProgress(before, running, desired, pending, old(nextTaskId), nextTaskId)
        invariant ebpf == old(ebpf) && watched == old(watched) && aborted == old(aborted)
        decreases pending
      {
        var name :| name in pending;
        ghost var (running0, next0) := (running, nextTaskId);
        StartIfNeeded(name, desired[name]);
        StartStep(before, running0, running, desired, pending, name, old(nextTaskId), next0, nextTaskId);
        pending := pending - {name};
      }
    }

    /** `reconcile`: the enabled processes go to the eBPF watch list when they
        have an eBPF monitor and to the task table otherwise. */
    method Reconcile(processes: seq<ProcessConfig>, watchFails: set<string>, unwatchFails: set<string>)
      modifies this, ebpf
      ensures ebpf == old(ebpf) && nextTaskId >= old(nextTaskId)
      ensures old(ebpf) == null ==> watched == old(watched)
      ensures old(ebpf) != null ==>
        WatchReconciled(old(watched), watched, DesiredMap(SplitEnabled(processes).0), watchFails)
      ensures old(ebpf) != null ==>
        EbpfReconciled(old(ebpf.mapping), old(ebpf.kernelNames), ebpf.mapping, ebpf.kernelNames,
                       old(watched), DesiredMap(SplitEnabled(processes).0), watchFails, unwatchFails)
      ensures TasksReconciled(old(running), running, DesiredMap(SplitEnabled(processes).1), old(nextTaskId), nextTaskId)
      ensures aborted == old(aborted) + set n | n in old(running) && n !in DesiredMap(SplitEnabled(processes).1) :: old(running)[n].id
    {
      var split := SplitEnabled(processes);
      ReconcileEbpfMonitors(split.0, watchFails, unwatchFails);
      ReconcileMonitors(split.1);
    }

    /** `shutdown`: every task is aborted and the table emptied, then the eBPF
        monitor is dropped. */
    method Shutdown()
      modifies this
      ensures running == map[] && ebpf == null
      ensures aborted == old(aborted) + set n | n in old(running) :: old(running)[n].id
      ensures watched == old(watched) && nextTaskId == old(nextTaskId)
    {
      ghost var before := running;
      var names := running.Keys;
      while names != {}
        invariant names == running.Keys
        invariant forall n :: n in running ==> n in before && running[n] == before[n]
        invariant aborted == old(aborted) + set n | n in before && n !in running :: before[n].id
        invariant watched == old(watched) && nextTaskId == old(nextTaskId) && ebpf == old(ebpf)
        decreases names
      {
        var name :| name in names;
        aborted := aborted + {running[name].id};
        running := running - {name};
        names := names - {name};
      }
      ebpf := null;
    }

    /** One iteration of the second loop: a missing or finished task is
        replaced by a fresh PID or network monitor task. */
    method StartIfNeeded(name: string, pc: ProcessConfig)
      modifies this
      ensures (name !in old(running) || old(running)[name].finished) && StartsMonitor(pc) ==>
        running == old(running)[name := TaskHandle(old(nextTaskId), TaskFor(pc), false)]
        && nextTaskId == old(nextTaskId) + 1
      ensures !((name !in old(running) || old(running)[name].finished) && StartsMonitor(pc)) ==>
        running == old(running) && nextTaskId == old(nextTaskId)
      ensures ebpf == old(ebpf) && watched == old(watched) && aborted == old(aborted)
    {
      var shouldStart := name !in running || running[name].finished;
      if shouldStart {
        match GetPidMonitorConfig(pc)
        case Some(pidConfig) =>
          running := running[name := TaskHandle(nextTaskId, PidTask(pidConfig), false)];
          nextTaskId := nextTaskId + 1;
        case None =>
          match GetNetworkMonitorConfig(pc)
          case Some(networkConfig) =>
            running := running[name := TaskHandle(nextTaskId, NetworkTask(networkConfig), false)];
            nextTaskId := nextTaskId + 1;
          case None =>
      }
    }
  }

  /** Every process `reconcile` hands to the task path is enabled and has no
      eBPF monitor, so a task is started for it: after reconciliation the
      running tasks are exactly the enabled non-eBPF processes. */
  lemma NonEbpfStartsTask(processes: seq<ProcessConfig>, n: string)
    requires n in DesiredMap(SplitEnabled(processes).1)
    ensures StartsMonitor(DesiredMap(SplitEnabled(processes).1)[n])
  {
    var pc := DesiredMap(SplitEnabled(processes).1)[n];
    assert pc in SplitEnabled(processes).1;
  }
}
