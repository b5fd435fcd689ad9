/** The daemon's configuration records (`AppConfig`, `ProcessConfig` and the
    monitor, recovery and dependency sections), their serde defaults and the
    projections the other components read. Paths are strings. */
module Config {
  import opened Common

  datatype DependencyKind = Requires | After

  datatype OnFailure = Abort | Skip | Degrade

  datatype DependencyConfig = DependencyConfig(
    target: string,
    kind: DependencyKind,
    hard: bool,
    maxWaitSecs: nat,
    onFailure: OnFailure)

  /** A dependency as written in YAML: a bare name or a full record. */
  datatype RawDependency = Simple(name: string) | Detailed(config: DependencyConfig)

  datatype MonitorConfig =
    | Pid(pidFilePath: string, intervalSecs: nat)
    | Ebpf
    | Network(targetUrl: string, intervalSecs: nat)

  datatype RegularHealerFields = RegularHealerFields(retries: nat, retryWindowSecs: nat, cooldownSecs: nat)

  datatype RecoveryConfig = Regular(fields: RegularHealerFields) | NotRegular

  datatype ProcessConfig = ProcessConfig(
    name: string,
    enabled: bool,
    command: string,
    args: seq<string>,
    runAsUser: Option<string>,
    runAsRoot: bool,
    workingDir: Option<string>,
    monitor: MonitorConfig,
    recovery: RecoveryConfig,
    dependencies: seq<RawDependency>)

  datatype AppConfig = AppConfig(
    logLevel: Option<string>,
    logDirectory: Option<string>,
    pidFileDirectory: Option<string>,
    processes: seq<ProcessConfig>,
    workingDirectory: Option<string>)

  datatype PidMonitorConfig = PidMonitorConfig(name: string, pidFilePath: string, intervalSecs: nat)
  datatype EbpfMonitorConfig = EbpfMonitorConfig(name: string, command: string)
  datatype NetworkMonitorConfig = NetworkMonitorConfig(name: string, targetUrl: string, intervalSecs: nat)

  /** What `DaemonConfig` receives from `to_daemonize_config`. */
  datatype DaemonConfig = DaemonConfig(pidFile: string, logDirectory: string, workingDir: string)

  // serde defaults of a detailed dependency
  const DefaultKind: DependencyKind := Requires
  const DefaultHard: bool := true
  const DefaultMaxWaitSecs: nat := 30
  const DefaultOnFailure: OnFailure := Abort

  /** `RegularHealerFields::default()` and `RecoveryConfig::default()`. */
  const DefaultRegularFields: RegularHealerFields := RegularHealerFields(3, 60, 180)
  const DefaultRecovery: RecoveryConfig := Regular(DefaultRegularFields)

  /** The record a bare dependency name stands for. */
  function ResolveDependency(raw: RawDependency): (d: DependencyConfig)
    ensures raw.Simple? ==> d == DependencyConfig(raw.name, Requires, true, 30, Abort)
    ensures raw.Detailed? ==> d == raw.config
  {
    match raw
    case Simple(name) => DependencyConfig(name, DefaultKind, DefaultHard, DefaultMaxWaitSecs, DefaultOnFailure)
    case Detailed(d) => d
  }

  /** `resolved_dependencies`: every raw dependency resolved, same length and order. */
  function ResolvedDependencies(p: ProcessConfig): (r: seq<DependencyConfig>)
    ensures |r| == |p.dependencies|
    ensures forall i :: 0 <= i < |r| ==> r[i] == ResolveDependency(p.dependencies[i])
  {
    seq(|p.dependencies|, i requires 0 <= i < |p.dependencies| => ResolveDependency(p.dependencies[i]))
  }

  function GetPidMonitorConfig(p: ProcessConfig): (r: Option<PidMonitorConfig>)
    ensures r.Some? <==> p.monitor.Pid?
    ensures r.Some? ==> r.value == PidMonitorConfig(p.name, p.monitor.pidFilePath, p.monitor.intervalSecs)
  {
    match p.monitor
    case Pid(path, interval) => Some(PidMonitorConfig(p.name, path, interval))
    case _ => None
  }

  function GetEbpfMonitorConfig(p: ProcessConfig): (r: Option<EbpfMonitorConfig>)
    ensures r.Some? <==> p.monitor.Ebpf?
    ensures r.Some? ==> r.value == EbpfMonitorConfig(p.name, p.command)
  {
    if p.monitor.Ebpf? then Some(EbpfMonitorConfig(p.name, p.command)) else None
  }

  function GetNetworkMonitorConfig(p: ProcessConfig): (r: Option<NetworkMonitorConfig>)
    ensures r.Some? <==> p.monitor.Network?
    ensures r.Some? ==> r.value == NetworkMonitorConfig(p.name, p.monitor.targetUrl, p.monitor.intervalSecs)
  {
    match p.monitor
    case Network(url, interval) => Some(NetworkMonitorConfig(p.name, url, interval))
    case _ => None
  }

  /** Exactly one of the three monitor projections is present. */
  lemma ExactlyOneMonitorProjection(p: ProcessConfig)
    ensures (if GetPidMonitorConfig(p).Some? then 1 else 0)
          + (if GetEbpfMonitorConfig(p).Some? then 1 else 0)
          + (if GetNetworkMonitorConfig(p).Some? then 1 else 0) == 1
  {
  }

  /** Index of the first process named `name`, if there is one. */
  function FindProcessIndex(ps: seq<ProcessConfig>, name: string): (r: Option<nat>)
    ensures r.Some? ==> r.value < |ps| && ps[r.value].name == name
                        && forall j :: 0 <= j < r.value ==> ps[j].name != name
    ensures r.None? ==> forall j :: 0 <= j < |ps| ==> ps[j].name != name
  {
    if ps == [] then None
    else if ps[0].name == name then Some(0)
    else match FindProcessIndex(ps[1..], name)
      case None => None
      case Some(k) => Some(k + 1)
  }

  /** The set of configured process names. */
  function ProcessNames(processes: seq<ProcessConfig>): (names: set<string>)
    ensures forall n :: n in names <==> exists p :: p in processes && p.name == n
  {
    set p | p in processes :: p.name
  }

  /** `get_process_config_for`: the first process whose name equals the query. */
  function GetProcessConfigFor(cfg: AppConfig, name: string): (r: Option<ProcessConfig>)
    ensures r.Some? ==> r.value.name == name && r.value in cfg.processes
    ensures r.Some? ==> exists i :: 0 <= i < |cfg.processes| && cfg.processes[i] == r.value
                          && forall j :: 0 <= j < i ==> cfg.processes[j].name != name
    ensures r.None? <==> forall p :: p in cfg.processes ==> p.name != name
  {
    match FindProcessIndex(cfg.processes, name)
    case None => None
    case Some(i) => Some(cfg.processes[i])
  }

  /** `Path::join`: an absolute `rel` replaces `base`; a separator is added
      unless `base` is empty or already ends in one. */
  function JoinPath(base: string, rel: string): (r: string)
    ensures |rel| > 0 && rel[0] == '/' ==> r == rel
    ensures (|rel| == 0 || rel[0] != '/') && |base| > 0 && base[|base| - 1] != '/' ==> r == base + "/" + rel
    ensures (|rel| == 0 || rel[0] != '/') && (|base| == 0 || base[|base| - 1] == '/') ==> r == base + rel
  {
    if |rel| > 0 && rel[0] == '/' then rel
    else if |base| == 0 || base[|base| - 1] == '/' then base + rel
    else base + "/" + rel
  }

  /** `to_daemonize_config`: unset directories fall back to fixed defaults. */
  function ToDaemonizeConfig(cfg: AppConfig): (d: DaemonConfig)
    ensures cfg.pidFileDirectory.None? ==> d.pidFile == "/tmp/healer.pid"
    ensures cfg.pidFileDirectory.Some? ==> d.pidFile == JoinPath(cfg.pidFileDirectory.value, "healer.pid")
    ensures d.logDirectory == (if cfg.logDirectory.Some? then cfg.logDirectory.value else "/tmp/healer")
    ensures d.workingDir == (if cfg.workingDirectory.Some? then cfg.workingDirectory.value else "/")
  {
    DaemonConfig(
      match cfg.pidFileDirectory
      case Some(dir) => JoinPath(dir, "healer.pid")
      case None => "/tmp/healer.pid",
      match cfg.logDirectory
      case Some(dir) => dir
      case None => "/tmp/healer",
      match cfg.workingDirectory
      case Some(dir) => dir
      case None => "/")
  }
}
