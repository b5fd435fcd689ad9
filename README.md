# process-healer, modelled in Dafny

process-healer is a Linux daemon that watches configured processes and
restarts them when they die. This project models its core: the loop from
"a process went down" to "restart it or hold back", written out in Dafny and
proved. The model covers these parts:

- **Monitors** detect the death of a process:
  - a PID-file monitor reads the PID file and probes the process with signal 0;
  - an eBPF monitor has a kernel tracepoint that reports the exit of a watched
    thread-group leader, whose `comm` appears in a kernel hash map.
- **Monitor manager** keeps the monitor set in line with the configured
  process list.
- **Dependency coordinator** holds back a recovery while a hard `requires`
  dependency is itself still recovering. A held-back recovery gets retries
  with backoff, timeout policies (abort, skip, degrade) and a release once
  its dependencies are no longer blocking.
- **Process healer** runs a per-process circuit breaker (Closed, Open,
  HalfOpen) over a sliding retry window and decides whether to restart.
- **Configuration** includes the projections, dependency defaults and
  daemon paths.
- **Name handling** covers the 15-byte `comm` truncation, matching, the
  executable name of a command, and the UTF-8 encoding behind both.
- **Command line** covers the config-path search and the foreground switch.
- **Test fixture**: the dummy HTTP service used by the tests.

How the model is built:

- Time is a `nat` count of seconds.
- Everything the daemon gets from outside comes in as a parameter: file
  contents, the result of `kill(pid, 0)`, whether a lock was acquired in
  time, whether a kernel-map insert or removal succeeds, and which files
  exist.
- Stateful components are classes whose fields are the Rust struct's maps.
  Each method's contract gives its new state in terms of the old state,
  through pure functions (such as `Healer.BreakerStep`) or ghost predicates
  (such as `Manager.TasksReconciled` and `Manager.EbpfReconciled`). The
  properties are proved as lemmas about those functions and predicates.
- Announcements the coordinator publishes, and the retries it schedules,
  are recorded in ghost sequences. The tasks the monitor manager aborts are
  recorded in a ghost set.

Where the code and its tests disagree, the model follows the code:

- `check_circuit_breaker` blocks a name that has no statistics entry
  (process_healer.rs:301). The hot-reload test expects otherwise.
- The breaker trips only when the retained window length *equals*
  `retries` (process_healer.rs:190-191). A window that is already longer, for
  example after a reload lowered `retries`, does not trip while its retained
  length stays above `retries`: it trips only once expired start times have
  been dropped and exactly `retries` remain.
- An unreadable PID file publishes nothing (pid_monitor.rs:78-89).
- `reconcile` keeps an existing watch or an unfinished task for a desired
  name even when that name's configuration changed (monitor_manager.rs:114,
  166-169).

## Model

| member | source | states |
|---|---|---|
| Config.ResolveDependency | healer/src/config.rs:199-213 | a bare dependency name gets kind Requires, hard, 30 s wait, on-failure Abort; a detailed one is kept as written |
| Config.ResolvedDependencies | healer/src/config.rs:199-213 | one resolved dependency per raw entry, in order |
| Config.GetPidMonitorConfig | healer/src/config.rs:164-174 | present exactly for a pid monitor, carrying the process name, PID file and interval |
| Config.GetEbpfMonitorConfig | healer/src/config.rs:176-185 | present exactly for an eBPF monitor, carrying the process name and command |
| Config.GetNetworkMonitorConfig | healer/src/config.rs:187-197 | present exactly for a network monitor, carrying the name, URL and interval |
| Config.ExactlyOneMonitorProjection | healer/src/config.rs:164-197 | every process has exactly one of the three monitor projections |
| Config.FindProcessIndex | healer/src/config.rs:223-228 | the first index whose name matches, or none when no entry has that name |
| Config.ProcessNames | healer/src/config.rs:8-147 | the set of configured process names |
| Config.GetProcessConfigFor | healer/src/config.rs:223-228 | a configured process with the requested name, present iff some process has that name |
| Config.JoinPath | healer/src/config.rs:235 | the join of a directory and a file name: an absolute file name replaces the directory, and a separator is inserted only when missing |
| Config.ToDaemonizeConfig | healer/src/config.rs:230-247 | the daemon's PID file, log directory and working directory, with defaults /tmp/healer.pid, /tmp/healer and / |
| Utf8.Width | healer/src/utils.rs:25 | a char takes 1 to 4 bytes, 1 exactly when it is ASCII |
| Utf8.ByteLen | healer/src/utils.rs:25 | the byte length of a string is at least its char count |
| Utf8.AsciiByteLen | healer/src/utils.rs:25 | an ASCII string's byte length is its char count |
| Utf8.ByteLenAppend | healer/src/utils.rs:25 | byte length is additive over concatenation |
| Utf8.ByteLenPrefix | healer/src/utils.rs:28 | a char prefix has no more bytes than the whole string |
| Utf8.EncodeChar | healer/src/monitor/ebpf_monitor.rs:214 | a char encodes to exactly its width in bytes |
| Utf8.Encode | healer/src/monitor/ebpf_monitor.rs:214 | a string encodes to exactly its byte length |
| Utf8.EncodeAppend | healer/src/monitor/ebpf_monitor.rs:214 | encoding distributes over concatenation |
| Utf8.EncodeHasZero | healer/src/monitor/ebpf_monitor.rs:213-216 | the encoding has a zero byte iff the string has a NUL char |
| Utf8.DecodeFirst | healer/src/monitor/ebpf_monitor.rs:99-106 | a successful decoding step consumes between 1 and 4 bytes |
| Utf8.DecodeFirstTwo | healer/src/monitor/ebpf_monitor.rs:99-106 | the decoder reads back a two-byte encoded char |
| Utf8.DecodeFirstThree | healer/src/monitor/ebpf_monitor.rs:99-106 | the decoder reads back a three-byte encoded char |
| Utf8.DecodeFirstFour | healer/src/monitor/ebpf_monitor.rs:99-106 | the decoder reads back a four-byte encoded char |
| Utf8.DecodeFirstEncodeChar | healer/src/monitor/ebpf_monitor.rs:99-106 | decoding an encoded char yields that char and its width, whatever follows |
| Utf8.DecodeEncode | healer/src/monitor/ebpf_monitor.rs:99-106 | round trip: decoding the encoding of any string succeeds and gives the string back |
| Utils.TruncateProcessName | healer/src/utils.rs:22-30 | the result is a prefix of the name: the whole name when it fits in 15 bytes, otherwise its first 15 chars |
| Utils.TruncateIdempotent | healer/src/utils.rs:22-30 | truncating twice equals truncating once |
| Utils.TruncateAsciiFits | healer/src/utils.rs:22-30 | a truncated ASCII name fits the 15-byte kernel limit |
| Utils.Matching | healer/src/utils.rs:34-48 | there are never more matches than configured names |
| Utils.MatchingMembership | healer/src/utils.rs:34-48 | a name matches iff it is configured and truncates to the query |
| Utils.MatchingSnoc | healer/src/utils.rs:40-45 | one more configured name extends the matches by that name exactly when it truncates to the query |
| Utils.FindProcessConfigsByTruncatedName | healer/src/utils.rs:34-48 | the loop returns exactly the configured names, in order, that truncate to the query |
| Utils.MatchingOutsideTruncations | healer/src/utils.rs:34-48 | a query that is no truncation of any name has no matches |
| Utils.NameMappingSnoc | healer/src/utils.rs:55-61 | one more name appends it to the bucket of its truncation and leaves other buckets alone |
| Utils.BuildProcessNameMapping | healer/src/utils.rs:52-64 | keys are exactly the truncations; every name sits in its truncation's bucket; no bucket is empty |
| Utils.SmartMatchProcessName | healer/src/utils.rs:76-99 | a match exists iff the bucket is present and non-empty, and it is the bucket's first name |
| Utils.SmartMatchIsFirstMatch | healer/src/utils.rs:76-99 | smart matching over the built mapping returns the first configured name with that truncation |
| Utils.Fields | healer/src/utils.rs:68-74 | splitting at '/' gives at least one field, none containing '/' |
| Utils.FieldsNoSlash | healer/src/utils.rs:68-74 | a string without '/' is one field |
| Utils.FieldsSlash | healer/src/utils.rs:68-74 | splitting distributes over a '/' join |
| Utils.Components | healer/src/utils.rs:68-74 | path components are non-empty, not "." and contain no '/' |
| Utils.NonTrivial | healer/src/utils.rs:68-74 | dropping empty and "." fields leaves only real components |
| Utils.NonTrivialAppend | healer/src/utils.rs:68-74 | that filter distributes over concatenation |
| Utils.FileName | healer/src/utils.rs:70 | a file name, when present, is a real component other than ".." |
| Utils.ExtractExecutableName | healer/src/utils.rs:66-74 | the result is the command itself or a name without '/' |
| Utils.ExtractWithoutSlash | healer/src/utils.rs:66-74 | a command without '/' is its own executable name |
| Utils.ExtractLastComponent | healer/src/utils.rs:66-74 | dir/exe yields exe |
| Utils.FieldsChars | healer/src/utils.rs:68-74 | fields use only chars of the input |
| Utils.NonTrivialSubset | healer/src/utils.rs:68-74 | the filtered components are among the fields |
| Utils.ExtractChars | healer/src/utils.rs:66-74 | the executable name uses only chars of the command |
| Utils.ExtractNginx | healer/src/utils.rs:67 | "/usr/bin/nginx" gives "nginx" |
| KernelProbe.TryHealerExit | healer-ebpf/src/main.rs:23-54 | always returns 0; emits an exit event iff pid equals tgid, comm is readable and comm is a monitored key, and the event carries that pid and comm |
| EbpfMonitor.NameKey | healer/src/monitor/ebpf_monitor.rs:212-216 | the 16-byte key is the first min(len, 15) UTF-8 bytes of the name followed by zeros, so the last byte is 0 |
| EbpfMonitor.EncodeNameKey | healer/src/monitor/ebpf_monitor.rs:212-216 | the byte-copy loop builds exactly that key |
| EbpfMonitor.FirstZero | healer/src/monitor/ebpf_monitor.rs:100-104 | the position of the first zero byte, or the length when there is none |
| EbpfMonitor.FirstZeroAt | healer/src/monitor/ebpf_monitor.rs:100-104 | a zero byte preceded only by non-zero bytes is where the first-zero search stops |
| EbpfMonitor.KeyRoundTrip | healer/src/monitor/ebpf_monitor.rs:99-106 | decoding the kernel key of a NUL-free name of at most 15 bytes gives the name back |
| EbpfMonitor.ExitToProcessEvent | healer/src/monitor/ebpf_monitor.rs:99-123 | a ProcessDown with the event's pid, named by the mapping entry of the decoded comm, or by the comm itself when unmapped |
| EbpfMonitor.EbpfMonitor.constructor | healer/src/monitor/ebpf_monitor.rs:17-29 | a new monitor has an empty mapping and an empty kernel name set |
| EbpfMonitor.EbpfMonitor.WatchConfig | healer/src/monitor/ebpf_monitor.rs:197-263 | maps the truncated executable name to the config name; adds the kernel key iff the insert succeeds; reports that outcome |
| EbpfMonitor.EbpfMonitor.UnwatchConfig | healer/src/monitor/ebpf_monitor.rs:265-283 | removes the mapping entry; removes the kernel key iff the removal succeeds; reports that outcome |
| EbpfMonitor.WatchedExitPublishedUnderConfigName | healer/src/monitor/ebpf_monitor.rs:197-216 | after a watch whose key holds the whole truncated name, the exit of a watched process is published under the configured name |
| EbpfMonitor.AsciiWatchNameFits | healer/src/monitor/ebpf_monitor.rs:199-200 | for an ASCII command without NUL, the watch name fits the kernel key |
| PidMonitor.TrimStart | healer/src/monitor/pid_monitor.rs:92 | a suffix of the input that does not start with whitespace, and everything cut off before it is whitespace |
| PidMonitor.TrimEnd | healer/src/monitor/pid_monitor.rs:92 | a prefix of the input that does not end with whitespace, and everything cut off after it is whitespace |
| PidMonitor.Trim | healer/src/monitor/pid_monitor.rs:92 | a slice `s[a..b]` of the input with only whitespace before `a` and after `b`; a non-empty result starts and ends with non-whitespace |
| PidMonitor.CutBetweenWhitespace | healer/src/monitor/pid_monitor.rs:92 | cutting leading and then trailing whitespace leaves a slice of the input with only whitespace on either side |
| PidMonitor.ParseI32 | healer/src/monitor/pid_monitor.rs:92-103 | a successful i32 parse lies in [-2^31, 2^31-1] |
| PidMonitor.ParsePid | healer/src/monitor/pid_monitor.rs:92-103 | a PID is present iff the trimmed content parses as an i32 greater than 0 |
| PidMonitor.ProcessDownEvent | healer/src/monitor/pid_monitor.rs:29-33 | ProcessDown with the monitored name and the pid |
| PidMonitor.CheckAndPublish | healer/src/monitor/pid_monitor.rs:69-125 | nothing is published for an unreadable file or an unparsable PID; ProcessDown is published exactly when the probe reports no such process |
| PidMonitor.Decimal | healer/src/monitor/pid_monitor.rs:92 | the decimal rendering of a number is a non-empty digit string |
| PidMonitor.DecimalValue | healer/src/monitor/pid_monitor.rs:92 | a rendered number parses back as the same value |
| PidMonitor.TrimDigitsLine | healer/src/monitor/pid_monitor.rs:92 | trimming a digit line with its newline yields the digits |
| PidMonitor.ParseDecimal | healer/src/monitor/pid_monitor.rs:92-103 | the i32 parse of a rendered positive PID gives that PID |
| PidMonitor.PidFileOfExitedProcess | healer/src/monitor/pid_monitor.rs:69-125 | a PID file holding "pid\n" of a vanished process publishes ProcessDown for that pid |
| Healer.Retain | healer/src/subscriber/process_healer.rs:185-188 | keeps exactly the attempts younger than the window, in order |
| Healer.RetainKeepsYoung | healer/src/subscriber/process_healer.rs:185-188 | a window of young attempts is kept whole |
| Healer.CooldownSecs | healer/src/subscriber/process_healer.rs:226-234 | the configured cooldown for a regular recovery policy, otherwise the 5 s fallback |
| Healer.BreakerStep | healer/src/subscriber/process_healer.rs:172-303 | a step blocks exactly when the new state is Open, which always carries a cooldown deadline no earlier than now |
| Healer.BreakerPreservesWindowBound | healer/src/subscriber/process_healer.rs:177-223 | invariant: a window no longer than `retries` stays so |
| Healer.ClosedRegular | healer/src/subscriber/process_healer.rs:177-223 | in Closed with a regular policy, a retained window of exactly `retries` attempts trips to Open until now + cooldown with an empty window; any other length admits the restart and appends now |
| Healer.ClosedWithoutRegular | healer/src/subscriber/process_healer.rs:177-223 | in Closed without a regular policy nothing changes and the restart is admitted |
| Healer.Run | healer/src/subscriber/process_healer.rs:172-303 | a trace of breaker steps has one decision per call |
| Healer.RunWithinWindow | healer/src/subscriber/process_healer.rs:177-223 | up to `retries` failures inside one window are all admitted and recorded |
| Healer.Admitted | healer/src/subscriber/process_healer.rs:203-210 | the answers of n admitted triggers: n answers, none of them blocking |
| Healer.RunSnoc | healer/src/subscriber/process_healer.rs:172-303 | one more trigger extends a run by exactly one breaker step |
| Healer.InWindowAllYoung | healer/src/subscriber/process_healer.rs:185-188 | non-decreasing triggers spanning less than the window are all young at every later trigger |
| Healer.AllYoungInit | healer/src/subscriber/process_healer.rs:185-188 | dropping the last trigger keeps the others young |
| Healer.AllYoungLast | healer/src/subscriber/process_healer.rs:185-188 | every earlier trigger is young at the last one |
| Healer.AllYoungPrefix | healer/src/subscriber/process_healer.rs:185-188 | a prefix of young triggers is young |
| Healer.RunYoung | healer/src/subscriber/process_healer.rs:177-223 | up to `retries` young triggers from default stats are all admitted and all recorded |
| Healer.TripAfterYoung | healer/src/subscriber/process_healer.rs:190-202 | `retries` young triggers followed by one more: all admitted, then the breaker trips until now + cooldown |
| Healer.YoungWindowAdmits | healer/src/subscriber/process_healer.rs:185-211 | a Closed window of fewer than `retries` attempts, all young at now, admits the restart and appends now |
| Healer.AllowsRetriesThenTrips | healer/src/subscriber/process_healer.rs:177-223 | `retries` failures inside the window are admitted and the next one trips the breaker |
| Healer.FullWindowTrips | healer/src/subscriber/process_healer.rs:190-202 | a full window of young attempts trips to Open with cooldown now + cooldown |
| Healer.OpenBlocksUntilCooldown | healer/src/subscriber/process_healer.rs:224-256 | before the deadline Open stays Open and blocks |
| Healer.HalfOpenAdmitsOneAttempt | healer/src/subscriber/process_healer.rs:224-298 | after the deadline one attempt gets through into HalfOpen; a second trigger within 2 s re-opens with a fresh cooldown, a later one closes the breaker |
| Healer.InitialTable | healer/src/subscriber/process_healer.rs:44-62 | one default statistics entry for every configured name |
| Healer.TableStep | healer/src/subscriber/process_healer.rs:172-303 | an unknown name is blocked and the table unchanged; otherwise only that name's entry changes |
| Healer.HealDecision | healer/src/subscriber/process_healer.rs:64-171 | a restart with that name's configuration happens iff the breaker admits it, the lock was acquired and the name is configured |
| Healer.ProcessHealer.constructor | healer/src/subscriber/process_healer.rs:44-62 | the statistics table starts as the initial table |
| Healer.ProcessHealer.CheckCircuitBreaker | healer/src/subscriber/process_healer.rs:172-303 | the new table and the blocked flag are one table step |
| Healer.ProcessHealer.HealProcess | healer/src/subscriber/process_healer.rs:64-171 | the table takes one step and the restart is the heal decision |
| Healer.ProcessHealer.HandleEvent | healer/src/subscriber/process_healer.rs:308-317 | down and disconnected events go through healing; other events change nothing |
| Coordinator.IsRecovering | healer/src/coordinator/dependency_coordinator.rs:91-96 | recovering only if the name has a deadline |
| Coordinator.Prune | healer/src/coordinator/dependency_coordinator.rs:98-101 | keeps exactly the deadlines still in the future |
| Coordinator.PruneKeepsRecovering | healer/src/coordinator/dependency_coordinator.rs:98-101 | pruning does not change who is recovering |
| Coordinator.ManualRequires | healer/src/coordinator/dependency_coordinator.rs:179-193 | the resolved `requires` dependencies of the configured process, empty for an unknown name |
| Coordinator.ManagedHard | healer/src/coordinator/dependency_coordinator.rs:132-146 | exactly the hard dependencies on managed processes |
| Coordinator.Targets | healer/src/coordinator/dependency_coordinator.rs:155-160 | the target names, one per dependency |
| Coordinator.BlockingTargets | healer/src/coordinator/dependency_coordinator.rs:155-160 | exactly the targets other than the process itself that are recovering |
| Coordinator.BlockingDependencies | healer/src/coordinator/dependency_coordinator.rs:132-160 | a hard `requires` on a managed, recovering process blocks |
| Coordinator.NewDeferred | healer/src/coordinator/dependency_coordinator.rs:195-225 | a new deferral counts 1, first retry 5 s later, waits on the blockers, and tracks every hard `requires`, all Waiting |
| Coordinator.ComputeBackoff | healer/src/coordinator/dependency_coordinator.rs:236-243 | between 5 and 30 s: 5 for the first two attempts, 30 from the fifth |
| Coordinator.BackoffMonotone | healer/src/coordinator/dependency_coordinator.rs:236-243 | the backoff never shrinks and at most doubles per attempt |
| Coordinator.CurrentlyBlocking | healer/src/coordinator/dependency_coordinator.rs:266-281 | exactly the targets of Waiting dependencies that are managed, recovering and not the process itself |
| Coordinator.MarkTimedOut | healer/src/coordinator/dependency_coordinator.rs:284-314 | only the dependency's status changes |
| Coordinator.ApplyTimeoutsFrom | healer/src/coordinator/dependency_coordinator.rs:284-314 | the dependencies keep their configurations and their number |
| Coordinator.ApplyTimeouts | healer/src/coordinator/dependency_coordinator.rs:284-314 | the timeout pass keeps the number of dependencies |
| Coordinator.AbortTimeoutDropsFrom | healer/src/coordinator/dependency_coordinator.rs:304-320 | a timed-out dependency with on-failure Abort aborts the deferral |
| Coordinator.AbortTimeoutDrops | healer/src/coordinator/dependency_coordinator.rs:304-320 | the same for the whole pass |
| Coordinator.TimeoutsMarkTimedOutFrom | healer/src/coordinator/dependency_coordinator.rs:284-314 | without an abort, each timed-out dependency is marked skipped or degraded, and the rest are untouched |
| Coordinator.TimeoutsMarkTimedOut | healer/src/coordinator/dependency_coordinator.rs:284-314 | the same for the whole pass |
| Coordinator.NoAbortFrom | healer/src/coordinator/dependency_coordinator.rs:284-320 | with no timed-out Abort dependency, the pass does not abort |
| Coordinator.StillBlocking | healer/src/coordinator/dependency_coordinator.rs:323-331 | exactly the Waiting dependencies whose targets are currently blocking |
| Coordinator.ExpiredSkipsRelease | healer/src/coordinator/dependency_coordinator.rs:284-352 | when every blocking dependency has timed out with a non-abort policy, nothing is still blocking and the event is released |
| Coordinator.DependencyCoordinator.constructor | healer/src/coordinator/dependency_coordinator.rs:17-30 | a new coordinator has empty tables and has published nothing |
| Coordinator.DependencyCoordinator.MarkRecoveringUntil | healer/src/coordinator/dependency_coordinator.rs:84-89 | records a recovery deadline 10 s from now |
| Coordinator.DependencyCoordinator.RefreshSnapshot | healer/src/coordinator/dependency_coordinator.rs:103-113 | managed becomes the configured names, and recovering is pruned |
| Coordinator.DependencyCoordinator.DeferProcess | healer/src/coordinator/dependency_coordinator.rs:195-234 | stores the new deferral and schedules its first retry after 5 s |
| Coordinator.DependencyCoordinator.DecideAndPublish | healer/src/coordinator/dependency_coordinator.rs:115-177 | other events are forwarded; a down event marks recovering and is dropped if already deferred, published if nothing blocks, or deferred otherwise |
| Coordinator.DependencyCoordinator.CollectBlocking | healer/src/coordinator/dependency_coordinator.rs:266-281 | the loop computes the currently blocking set |
| Coordinator.DependencyCoordinator.ApplyTimeoutPolicies | healer/src/coordinator/dependency_coordinator.rs:284-314 | the loop computes the timeout pass, stopping at the first abort |
| Coordinator.DependencyCoordinator.CollectStillBlocking | healer/src/coordinator/dependency_coordinator.rs:323-331 | the loop collects the still-blocking targets |
| Coordinator.DependencyCoordinator.HandleRetry | healer/src/coordinator/dependency_coordinator.rs:245-353 | an unknown name does nothing; otherwise the deferral is dropped on abort, released and published when nothing blocks, or rescheduled with backoff |
| Manager.DesiredMap | healer/src/monitor_manager.rs:85-88 | keys are exactly the names in the list, each mapped to a configuration of that name from the list |
| Manager.DesiredMapLastWins | healer/src/monitor_manager.rs:85-88 | the last configuration of a name is the one kept |
| Manager.SplitEnabled | healer/src/monitor_manager.rs:59-62 | the enabled processes split into those with an eBPF monitor and the rest |
| Manager.TaskFor | healer/src/monitor_manager.rs:171-188 | a PID monitor task when there is a PID config, otherwise a network monitor task |
| Manager.ReconciledIsSettled | healer/src/monitor_manager.rs:136-193 | after reconciliation the task table matches the desired list |
| Manager.SettledIsFixpoint | healer/src/monitor_manager.rs:136-193 | reconciling a table that already matches changes nothing |
| Manager.NonEbpfStartsTask | healer/src/monitor_manager.rs:55-72 | every enabled non-eBPF process gets a task |
| Manager.StartStep | healer/src/monitor_manager.rs:165-190 | one iteration of the start loop keeps the loop's invariant |
| Manager.StartFresh | healer/src/monitor_manager.rs:171-188 | starting a task for a missing or finished desired name keeps the invariant, with a fresh and distinct id |
| Manager.StoppedIdsStep | healer/src/monitor_manager.rs:151-162 | the set of aborted ids grows by exactly the id of the task stopped next |
| Manager.MonitorManager.constructor | healer/src/monitor_manager.rs:32-52 | an eBPF monitor exists iff it could be loaded, and both tables start empty |
| Manager.MonitorManager.TaskExited | healer/src/monitor_manager.rs:166-169 | the task of that name is marked finished; nothing else changes |
| Manager.MonitorManager.Reconcile | healer/src/monitor_manager.rs:55-72 | eBPF processes are watched as in `reconcile_ebpf_monitors`, with the eBPF mapping and kernel key set changed as `EbpfReconciled` says; other enabled processes get tasks as in `reconcile_monitors`; tasks of dropped names are aborted |
| Manager.MonitorManager.ReconcileEbpfMonitors | healer/src/monitor_manager.rs:75-133 | without eBPF nothing changes; otherwise watched becomes the desired names that were watched or whose watch succeeded, and the eBPF state is the old one with the undesired watches removed and then a watch attempt for every desired name not watched before (`EbpfReconciled`); each newly watched name is in the mapping and the kernel set |
| Manager.MonitorManager.RemoveWatches | healer/src/monitor_manager.rs:91-110 | undesired names leave the watched table even when unwatch fails; the mapping loses the watch names of the undesired eBPF configurations, and the kernel set loses their keys except where the removal failed |
| Manager.MonitorManager.Unwatch | healer/src/monitor_manager.rs:98-109 | the name leaves the table; an eBPF configuration loses its mapping entry, and its kernel key iff the removal succeeds; otherwise the eBPF state is unchanged |
| Manager.RemoveStep | healer/src/monitor_manager.rs:98-109 | one iteration of the remove loop keeps its invariant `RemoveProgress` |
| Manager.UnwatchStep | healer/src/monitor_manager.rs:98-109 | one more removed name keeps `WatchesRemoved` |
| Manager.UnwatchMappingStep | healer/src/monitor_manager.rs:98-109 | removing one more watch name from the mapping is removing the watch names of one more name |
| Manager.UnwatchKernelStep | healer/src/monitor_manager.rs:98-109 | removing one more kernel key, unless the removal fails, is removing the keys of one more successfully removed name |
| Manager.MonitorManager.AddWatches | healer/src/monitor_manager.rs:113-130 | a desired, unwatched eBPF name is added iff its watch succeeds; the mapping gains the watch names of all attempted names, each mapped to the config name of an attempted name with that watch name, other entries unchanged; the kernel set gains the keys of the successful attempts (`WatchesAdded`) |
| Manager.MonitorManager.WatchIfNew | healer/src/monitor_manager.rs:114-128 | a name not yet watched with an eBPF configuration writes its mapping entry, gains its kernel key iff the insert succeeds and enters the table iff it succeeds; anything else changes nothing |
| Manager.AddStep | healer/src/monitor_manager.rs:113-130 | one iteration of the add loop keeps its invariant `AddProgress` |
| Manager.AddTableStep | healer/src/monitor_manager.rs:113-130 | one iteration of the add loop keeps the table half of its invariant |
| Manager.WatchAttemptStep | healer/src/monitor_manager.rs:117-119 | one more watch attempt keeps `WatchesAdded` |
| Manager.MappingAttemptStep | healer/src/monitor_manager.rs:117-119 | one more mapping write keeps `MappingAdded`: the new key maps to the attempted name, other keys keep an owner |
| Manager.WatchNamesStep | healer/src/monitor_manager.rs:98-128 | one more name adds its watch name, if it has an eBPF monitor |
| Manager.WatchKeysStep | healer/src/monitor_manager.rs:98-128 | one more name adds its kernel key, if it has an eBPF monitor |
| Manager.WatchOwnersGrow | healer/src/monitor_manager.rs:113-130 | more attempted names only add owners of a watch name |
| Manager.NewWatchesInPlace | healer/src/monitor_manager.rs:113-130 | after reconciliation every newly watched name has its mapping entry and kernel key |
| Manager.UndesiredWatchGone | healer/src/monitor_manager.rs:91-110 | an undesired name's mapping entry is gone unless a new watch reuses its watch name, and its kernel key is gone if the removal succeeded and no successful new watch put it back |
| Manager.MonitorManager.ReconcileMonitors | healer/src/monitor_manager.rs:136-193 | undesired tasks are aborted; a desired name with no task or a finished one gets a fresh task when it has a monitor |
| Manager.MonitorManager.StopTasks | healer/src/monitor_manager.rs:144-162 | the tasks of undesired names are removed and their ids recorded as aborted |
| Manager.MonitorManager.StartTasks | healer/src/monitor_manager.rs:165-190 | desired names are reconciled, and new tasks get distinct fresh ids |
| Manager.MonitorManager.StartIfNeeded | healer/src/monitor_manager.rs:166-189 | a missing or finished task is replaced by a fresh one iff the config has a PID or network monitor |
| Manager.MonitorManager.Shutdown | healer/src/monitor_manager.rs:196-224 | every task is aborted, the table emptied and the eBPF monitor dropped |
| Cli.Candidates | healer/src/main.rs:40-65 | an explicit path is the only candidate; otherwise 4 to 7 candidates |
| Cli.CandidateOrder | healer/src/main.rs:45-64 | order: HEALER_CONFIG, the four fixed paths, then the XDG and home paths when those variables are set |
| Cli.CandidateConfigPaths | healer/src/main.rs:40-65 | the pushes build exactly the candidate list |
| Cli.ResolveConfigPath | healer/src/main.rs:67-81 | the explicit path, else HEALER_CONFIG, else the first existing candidate, else config.yaml |
| Cli.AsciiLower | healer/src/main.rs:109-116 | lower-cases ASCII letters only, keeping the length |
| Cli.AsciiLowerIdempotent | healer/src/main.rs:109-116 | lower-casing twice equals once |
| Cli.RunForeground | healer/src/main.rs:109-116 | foreground when the flag is set, or HEALER_NO_DAEMON is 1, true or yes in any case |
| Cli.ForegroundValuesIgnoreCase | healer/src/main.rs:109-116 | "TRUE" and "Yes" select foreground; "0" and "on" do not |
| Fixture.DoGet | healer/tests/fixtures/dummy_service.py:5-11 | /health answers 200 "OK"; /crash answers 200 "DIE" and exits 1; any other path 404 with no body |
| Fixture.Serve | tests/fixtures/dummy_service.py:5-13 | the server answers requests in order until one exits |
| Fixture.CrashEndsSession | tests/fixtures/dummy_service.py:5-13 | the session stops at the first /crash with exit code 1, having answered every request up to it |

## Left out

- Asynchrony is not modelled. This covers tokio tasks, broadcast channels,
  `select!`, mutexes and the 100 ms sleep after abort. Each method is one
  atomic step, and the scheduled retry is a recorded (name, delay) pair, not
  a sleeping task.
- Loading the eBPF program and attaching the tracepoint are left out. So are
  reading the perf buffers, the eBPF monitor's own shutdown, and the
  `EVENTS` perf array. They are I/O with the kernel.
- The kernel map's capacity of 1024 entries is not modelled. Insert and
  removal outcomes are inputs.
- Process spawning is left out: command lines, log files, `setsid`, and
  switching to another user and group. `heal_process` returns the
  configuration it would restart with.
- The restart lock's timeout, the PID file's contents, the signal-0 probe
  and the set of existing files are parameters. They come from the clock
  and the file system.
- Integer widths are modelled as unbounded `nat`. The exception is the i32
  parse of a PID file. `Instant` arithmetic overflow and `u32` counter
  wrap-around are left out because they cannot occur in practice.
- HashMap iteration order is not modelled. The loops pick an arbitrary
  remaining key, and the contracts hold for every order.
- The network monitor's loop, `find_pid_by_exe_path`,
  `AppConfig::load_from_file` and the monitor loops' sleep intervals are
  left out. They need HTTP, the process table, YAML parsing and timers.
- Manager.MonitorManager.TaskExited is an environment step. It stands for a
  task ending on its own, which the daemon does not do itself.
- Config.ProcessNames: the names come from the YAML records, so it cites
  the record definitions.
- Healer.ProcessHealer.HandleEvent: a NotRegular recovery policy has no
  payload. The model keeps only that it is not Regular.
- The dummy service's socket listener is left out. It is I/O; the model
  keeps its request handling.
