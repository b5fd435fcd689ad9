/** The start-up decisions of the `healer` binary: where the configuration
    file is looked for, which one is used, and whether the daemon stays in
    the foreground. Environment variables, the home directory and the set of
    existing files are inputs. */
module Cli {
  import opened Common
  import opened Config

  /** The environment as `main` reads it. An entry is None when the
      variable is unset or not valid Unicode (`env::var` fails). */
  datatype Env = Env(healerConfig: Option<string>, xdgConfigHome: Option<string>, homeDir: Option<string>)

  /** The fixed search locations, in order. */
  const FixedCandidates: seq<string> :=
    ["./config.yaml", "./healer.yaml", "/etc/healer/config.yaml", "/etc/healer/healer.yaml"]

  /** Used when no candidate exists. */
  const FallbackConfigPath: string := "config.yaml"

  /** The search list of `candidate_config_paths`. */
  function Candidates(explicit: Option<string>, env: Env): (paths: seq<string>)
    ensures explicit.Some? ==> paths == [explicit.value]
    ensures explicit.None? ==> 4 <= |paths| <= 7
  {
    match explicit
    case Some(p) => [p]
    case None =>
      (if env.healerConfig.Some? then [env.healerConfig.value] else [])
      + FixedCandidates
      + (if env.xdgConfigHome.Some? then [JoinPath(env.xdgConfigHome.value, "healer/config.yaml")] else [])
      + (if env.homeDir.Some? then [JoinPath(env.homeDir.value, ".config/healer/config.yaml")] else [])
  }

  /** Without an explicit path the list starts with `HEALER_CONFIG` when it
      is set, then the four fixed locations, and ends with the per-user
      locations that are known. */
  lemma CandidateOrder(env: Env)
    ensures var paths := Candidates(None, env);
            var k := if env.healerConfig.Some? then 1 else 0;
            (env.healerConfig.Some? ==> paths[0] == env.healerConfig.value)
            && paths[k..k + 4] == FixedCandidates
            && |paths| == 4 + k + (if env.xdgConfigHome.Some? then 1 else 0) + (if env.homeDir.Some? then 1 else 0)
            && (env.homeDir.Some? ==>
                  paths[|paths| - 1] == JoinPath(env.homeDir.value, ".config/healer/config.yaml"))
            && (env.xdgConfigHome.Some? ==>
                  paths[k + 4] == JoinPath(env.xdgConfigHome.value, "healer/config.yaml"))
  {
  }

  /** `candidate_config_paths`. */
  method CandidateConfigPaths(explicit: Option<string>, env: Env) returns (cands: seq<string>)
    ensures cands == Candidates(explicit, env)
  {
    if explicit.Some? {
      return [explicit.value];
    }
    cands := [];
    if env.healerConfig.Some? {
      cands := cands + [env.healerConfig.value];
    }
    cands := cands + ["./config.yaml"];
    cands := cands + ["./healer.yaml"];
    cands := cands + ["/etc/healer/config.yaml"];
    cands := cands + ["/etc/healer/healer.yaml"];
    if env.xdgConfigHome.Some? {
      cands := cands + [JoinPath(env.xdgConfigHome.value, "healer/config.yaml")];
    }
    if env.homeDir.Some? {
      cands := cands + [JoinPath(env.homeDir.value, ".config/healer/config.yaml")];
    }
  }

  /** `resolve_config_path`: an explicit path wins, then `HEALER_CONFIG`
      whether or not that file exists, then the first existing candidate,
      else `config.yaml`. `existing` holds the paths that exist. */
  method ResolveConfigPath(explicit: Option<string>, env: Env, existing: set<string>) returns (path: string)
    ensures explicit.Some? ==> path == explicit.value
    ensures explicit.None? && env.healerConfig.Some? ==> path == env.healerConfig.value
    ensures explicit.None? && env.healerConfig.None? ==>
      var cands := Candidates(None, env);
      (path == FallbackConfigPath && forall i :: 0 <= i < |cands| ==> cands[i] !in existing)
      || exists i :: 0 <= i < |cands| && cands[i] == path && path in existing
                     && forall j :: 0 <= j < i ==> cands[j] !in existing
  {
    if explicit.Some? {
      return explicit.value;
    }
    if env.healerConfig.Some? {
      return env.healerConfig.value;
    }
    var cands := CandidateConfigPaths(None, env);
    for i := 0 to |cands|
      invariant forall j :: 0 <= j < i ==> cands[j] !in existing
    {
      if cands[i] in existing {
        return cands[i];
      }
    }
    return FallbackConfigPath;
  }

  /** `str::to_ascii_lowercase`. */
  function AsciiLower(s: string): (r: string)
    ensures |r| == |s|
    ensures forall i :: 0 <= i < |s| ==> r[i] == if 'A' <= s[i] <= 'Z' then (s[i] as int + 32) as char else s[i]
  {
    seq(|s|, i requires 0 <= i < |s| => if 'A' <= s[i] <= 'Z' then (s[i] as int + 32) as char else s[i])
  }

  lemma AsciiLowerIdempotent(s: string)
    ensures AsciiLower(AsciiLower(s)) == AsciiLower(s)
  {
  }

  /** The values of `HEALER_NO_DAEMON` that mean "stay in the foreground". */
  const ForegroundValues: set<string> := {"1", "true", "yes"}

  /** Foreground detection: the `--foreground` flag, or `HEALER_NO_DAEMON`
      equal to 1, true or yes ignoring ASCII case; unset counts as "0". */
  function RunForeground(foregroundFlag: bool, noDaemon: Option<string>): (r: bool)
    ensures foregroundFlag ==> r
    ensures noDaemon.None? ==> r == foregroundFlag
    ensures !foregroundFlag && noDaemon.Some? ==> (r <==> AsciiLower(noDaemon.value) in ForegroundValues)
  {
    var value := if noDaemon.Some? then noDaemon.value else "0";
    assert AsciiLower("0") == "0";
    foregroundFlag || AsciiLower(value) in ForegroundValues
  }

  /** Case does not matter, so "TRUE" and "Yes" keep the daemon in the
      foreground, while "0" and "on" do not. */
  lemma ForegroundValuesIgnoreCase()
    ensures RunForeground(false, Some("TRUE")) && RunForeground(false, Some("Yes"))
    ensures !RunForeground(false, Some("0")) && !RunForeground(false, Some("on"))
  {
    assert AsciiLower("TRUE") == "true";
    assert AsciiLower("Yes") == "yes";
    assert AsciiLower("on") == "on";
    assert AsciiLower("0") == "0";
  }
}
