/** The events that flow over the daemon's broadcast bus, and the record the
    kernel program emits on a process exit. */
module Events {
  import opened Common

  /** Events published by the monitors and consumed by the coordinator and healer. */
  datatype ProcessEvent =
    | ProcessDown(name: string, pid: nat)
    | ProcessDisconnected(name: string, url: string)
    | ProcessDependencyDetected(name: string, dependencies: seq<string>)
    | ProcessRestartSuccess
    | ProcessRestartFailed
  {
    /** The two events that ask for a recovery. */
    predicate IsDownEvent()
    {
      ProcessDown? || ProcessDisconnected?
    }
  }

  /** Size of the `comm` array the kernel keeps for a task (15 bytes and a NUL). */
  const CommLen: nat := 16

  /** A `[u8; 16]` command-name field. */
  type Comm = s: seq<byte> | |s| == CommLen witness seq(CommLen, _ => 0)

  /** `ProcessExitEvent`: the exiting process's id and its kernel command name. */
  datatype ProcessExitEvent = ProcessExitEvent(pid: nat, comm: Comm)
}
