/** The HTTP test fixture used by the end-to-end tests: a GET handler with
    three routes. A response carries the status, the body bytes and, for the
    crash route, the exit status the server process then ends with. */
module Fixture {
  import opened Common

  /** 200 OK (section 15.3.1 of RFC 9110). */
  const StatusOk: nat := 200
  /** 404 Not Found (section 15.5.5 of RFC 9110). */
  const StatusNotFound: nat := 404

  const HealthPath: string := "/health"
  const CrashPath: string := "/crash"

  /** The ASCII bytes of "OK" and "DIE". */
  const OkBody: seq<byte> := [0x4F, 0x4B]
  const DieBody: seq<byte> := [0x44, 0x49, 0x45]

  /** The exit status of `sys.exit(1)`. */
  const CrashExitCode: nat := 1

  datatype Response = Response(status: nat, body: seq<byte>, exitCode: Option<nat>)

  /** `H.do_GET`: the path is compared for exact, case-sensitive equality,
      `/health` first, then `/crash`; the crash body is written before the exit. */
  function DoGet(path: string): (r: Response)
    ensures r.status == StatusOk <==> path == HealthPath || path == CrashPath
    ensures r.status == StatusNotFound <==> path != HealthPath && path != CrashPath
    ensures r.exitCode.Some? <==> path == CrashPath
    ensures r.exitCode.Some? ==> r.exitCode.value == CrashExitCode && r.body == DieBody
    ensures path == HealthPath ==> r.body == OkBody
    ensures r.status == StatusNotFound ==> r.body == []
  {
    if path == HealthPath then Response(StatusOk, OkBody, None)
    else if path == CrashPath then Response(StatusOk, DieBody, Some(CrashExitCode))
    else Response(StatusNotFound, [], None)
  }

  /** A session of the server: the requests' paths are answered in order
      until one of them makes the process exit; the later ones get no answer. */
  function Serve(paths: seq<string>): (session: (seq<Response>, Option<nat>))
    ensures |session.0| <= |paths|
  {
    if paths == [] then ([], None)
    else
      var r := DoGet(paths[0]);
      if r.exitCode.Some? then ([r], r.exitCode)
      else
        var rest := Serve(paths[1..]);
        ([r] + rest.0, rest.1)
  }

  /** The server exits, with status 1, exactly when `/crash` is requested;
      it answers every request up to and including the first `/crash`, and
      each answer is the one `do_GET` gives for that path. */
  lemma {:induction false} CrashEndsSession(paths: seq<string>)
    ensures var (responses, exit) := Serve(paths);
            (exit.Some? <==> CrashPath in paths)
            && (exit.Some? ==> exit.value == CrashExitCode)
            && (CrashPath !in paths ==> |responses| == |paths|)
            && (CrashPath in paths ==>
                  exists k :: 0 <= k < |paths| && paths[k] == CrashPath && CrashPath !in paths[..k] && |responses| == k + 1)
            && forall i :: 0 <= i < |responses| ==> responses[i] == DoGet(paths[i])
  {
    if paths != [] {
      CrashEndsSession(paths[1..]);
      assert forall x :: x in paths <==> x == paths[0] || x in paths[1..];
      if paths[0] != CrashPath && CrashPath in paths {
        var k' :| 0 <= k' < |paths[1..]| && paths[1..][k'] == CrashPath
                  && CrashPath !in paths[1..][..k'] && |Serve(paths[1..]).0| == k' + 1;
        assert paths[..k' + 1] == [paths[0]] + paths[1..][..k'];
        assert paths[k' + 1] == CrashPath;
      }
      if paths[0] == CrashPath {
        assert paths[..0] == [];
      }
    }
  }
}
