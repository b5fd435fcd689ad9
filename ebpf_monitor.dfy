/** The user-space half of eBPF monitoring: the table from truncated command
    names to configured process names, the 16-byte key written to the kernel
    map, and the translation of a kernel exit record into a `ProcessDown`
    event. */
module EbpfMonitor {
  import opened Common
  import opened Utf8
  import opened Utils
  import opened Config
  import opened Events
  import KernelProbe

  /** The key layout: the first min(len, 15) bytes of the name's UTF-8
      encoding, then zeros up to 16 bytes, so the last byte is always NUL. */
  function NameKey(name: string): (key: Comm)
    ensures key[CommLen - 1] == 0
    ensures forall i :: 0 <= i < Min(ByteLen(name), MaxCommLen) ==> key[i] == Encode(name)[i]
    ensures forall i :: Min(ByteLen(name), MaxCommLen) <= i < CommLen ==> key[i] == 0
  {
    var bytes := Encode(name);
    var n := Min(|bytes|, MaxCommLen);
    bytes[..n] + Zeros(CommLen - n)
  }

  /** The `[0u8; 16]` buffer filled with `copy_from_slice`, as `watch_config`
      and `unwatch_config` build it. */
  method EncodeNameKey(name: string) returns (key: Comm)
    ensures key == NameKey(name)
  {
    var bytes := Encode(name);
    var buffer := new byte[CommLen](_ => 0);
    var copyLen := Min(|bytes|, MaxCommLen);
    for i := 0 to copyLen
      invariant forall j :: 0 <= j < i ==> buffer[j] == bytes[j]
      invariant forall j :: i <= j < CommLen ==> buffer[j] == 0
    {
      buffer[i] := bytes[i];
    }
    key := buffer[..];
    assert key == NameKey(name);
  }

  /** Index of the first NUL, or the length when there is none. */
  function FirstZero(s: seq<byte>): (k: nat)
    ensures k <= |s|
    ensures forall j :: 0 <= j < k ==> s[j] != 0
    ensures k < |s| ==> s[k] == 0
  {
    if s == [] then 0 else if s[0] == 0 then 0 else 1 + FirstZero(s[1..])
  }

  /** The worker's reading of `comm`: the bytes before the first NUL, decoded
      as UTF-8, or "unknown" when they are not valid UTF-8. */
  function DecodeComm(comm: Comm): string
  {
    match Decode(comm[..FirstZero(comm)])
    case Some(s) => s
    case None => "unknown"
  }

  /** A name of at most 15 bytes without NUL survives the 16-byte key. */
  lemma KeyRoundTrip(name: string)
    requires '\0' !in name && ByteLen(name) <= MaxCommLen
    ensures DecodeComm(NameKey(name)) == name
  {
    var bytes := Encode(name);
    var key := NameKey(name);
    EncodeHasZero(name);
    assert key == bytes + Zeros(CommLen - |bytes|);
    assert forall j :: 0 <= j < |bytes| ==> key[j] == bytes[j];
    assert FirstZero(key) == |bytes| by {
      FirstZeroAt(key, |bytes|);
    }
    assert key[..|bytes|] == bytes;
    DecodeEncode(name);
  }

  lemma FirstZeroAt(s: seq<byte>, k: nat)
    requires k < |s| && s[k] == 0
    requires forall j :: 0 <= j < k ==> s[j] != 0
    ensures FirstZero(s) == k
  {
  }

  /** The event the worker publishes for one kernel exit record: the
      configured name registered for the decoded comm, else the comm itself. */
  function ExitToProcessEvent(mapping: map<string, string>, event: ProcessExitEvent): (e: ProcessEvent)
    ensures e.ProcessDown? && e.pid == event.pid
    ensures DecodeComm(event.comm) in mapping ==> e.name == mapping[DecodeComm(event.comm)]
    ensures DecodeComm(event.comm) !in mapping ==> e.name == DecodeComm(event.comm)
  {
    var comm := DecodeComm(event.comm);
    ProcessDown(if comm in mapping then mapping[comm] else comm, event.pid)
  }

  /** The name under which a command is watched. */
  function WatchName(command: string): string
  {
    TruncateProcessName(ExtractExecutableName(command))
  }

  class EbpfMonitor {
    /** `process_name_mapping`: truncated executable name to configured name. */
    var mapping: map<string, string>
    /** The keys of the kernel map `PROCESS_NAMES_TO_MONITOR`. */
    var kernelNames: set<Comm>

    /** A freshly loaded monitor (program load and attach are not modelled). */
    constructor ()
      ensures mapping == map[] && kernelNames == {}
    {
      mapping := map[];
      kernelNames := {};
    }

    /** `watch_config`. The mapping is updated before the kernel insert is
        tried, so it changes even when `insertOk` is false and Err is returned. */
    method WatchConfig(config: EbpfMonitorConfig, insertOk: bool) returns (ok: bool)
      modifies this
      ensures mapping == old(mapping)[WatchName(config.command) := config.name]
      ensures kernelNames == if insertOk then old(kernelNames) + {NameKey(WatchName(config.command))}
                             else old(kernelNames)
      ensures ok == insertOk
    {
      var executableName := ExtractExecutableName(config.command);
      var truncatedName := TruncateProcessName(executableName);
      mapping := mapping[truncatedName := config.name];
      var key := EncodeNameKey(truncatedName);
      if insertOk {
        kernelNames := kernelNames + {key};
      }
      ok := insertOk;
    }

    /** `unwatch_config`: the mapping entry goes whatever the kernel says. */
    method UnwatchConfig(config: EbpfMonitorConfig, removeOk: bool) returns (ok: bool)
      modifies this
      ensures mapping == old(mapping) - {WatchName(config.command)}
      ensures kernelNames == if removeOk then old(kernelNames) - {NameKey(WatchName(config.command))}
                             else old(kernelNames)
      ensures ok == removeOk
    {
      var executableName := ExtractExecutableName(config.command);
      var truncatedName := TruncateProcessName(executableName);
      mapping := mapping - {truncatedName};
      var key := EncodeNameKey(truncatedName);
      if removeOk {
        kernelNames := kernelNames - {key};
      }
      ok := removeOk;
    }
  }

  /** End to end: once a command is watched (both the mapping entry and the
      kernel key are in place), the exit of a process whose comm is that key
      passes the kernel filter and is published under the configured name,
      provided the watched name fits in 15 bytes and holds no NUL. */
  lemma WatchedExitPublishedUnderConfigName(
    mapping: map<string, string>, kernelNames: set<Comm>, config: EbpfMonitorConfig, pid: nat)
    requires var t := WatchName(config.command); '\0' !in t && ByteLen(t) <= MaxCommLen
    ensures var t := WatchName(config.command);
            var key := NameKey(t);
            var outcome := KernelProbe.TryHealerExit(pid, pid, Some(key), kernelNames + {key});
            outcome.emitted.Some?
            && ExitToProcessEvent(mapping[t := config.name], outcome.emitted.value)
               == ProcessDown(config.name, pid)
  {
    KeyRoundTrip(WatchName(config.command));
  }

  /** ASCII commands without NUL always meet the conditions above. */
  lemma AsciiWatchNameFits(command: string)
    requires IsAscii(command) && '\0' !in command
    ensures ByteLen(WatchName(command)) <= MaxCommLen && '\0' !in WatchName(command)
  {
    var e := ExtractExecutableName(command);
    ExtractChars(command);
    assert IsAscii(e) by {
      forall i | 0 <= i < |e| ensures (e[i] as int) < 0x80 {
        assert e[i] in command;
      }
    }
    TruncateAsciiFits(e);
  }
}
