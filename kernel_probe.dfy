/** The tracepoint program attached to `sched/sched_process_exit`: it reports
    the exit of a whole process (not of a single thread) whose command name is
    one of the keys user space put in `PROCESS_NAMES_TO_MONITOR`. */
module KernelProbe {
  import opened Common
  import opened Events

  /** What one tracepoint hit produces: its return code and the event it
      writes to the `EVENTS` perf array, if any. */
  datatype TraceOutcome = TraceOutcome(ret: nat, emitted: Option<ProcessExitEvent>)

  /** `try_healer_exit` (and `healer_exit`, which returns its code). `comm`
      is the result of `bpf_get_current_comm`, None when the helper fails;
      `monitored` holds the keys of `PROCESS_NAMES_TO_MONITOR`. */
  function TryHealerExit(pid: nat, tgid: nat, comm: Option<Comm>, monitored: set<Comm>): (r: TraceOutcome)
    ensures r.ret == 0
    ensures r.emitted.Some? <==> pid == tgid && comm.Some? && comm.value in monitored
    ensures r.emitted.Some? ==> r.emitted.value == ProcessExitEvent(pid, comm.value)
  {
    if pid != tgid then TraceOutcome(0, None)
    else match comm
      case None => TraceOutcome(0, None)
      case Some(c) =>
        if c in monitored then TraceOutcome(0, Some(ProcessExitEvent(pid, c)))
        else TraceOutcome(0, None)
  }
}
