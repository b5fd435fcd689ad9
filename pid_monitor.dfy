/** One health check of a PID-file monitor: read the PID file, parse the PID,
    probe it with signal 0, and publish `ProcessDown` only when the probe says
    the process does not exist. File contents and the probe are inputs. */
module PidMonitor {
  import opened Common
  import opened Config
  import opened Events

  /** `char::is_whitespace`: the Unicode White_Space property. */
  predicate IsWhitespace(c: char)
  {
    var n := c as int;
    (0x09 <= n <= 0x0D) || n == 0x20 || n == 0x85 || n == 0xA0 || n == 0x1680
    || (0x2000 <= n <= 0x200A) || n == 0x2028 || n == 0x2029 || n == 0x202F
    || n == 0x205F || n == 0x3000
  }

  function TrimStart(s: string): (r: string)
    ensures |r| <= |s| && r == s[|s| - |r|..]
    ensures r != [] ==> !IsWhitespace(r[0])
    ensures forall i :: 0 <= i < |s| - |r| ==> IsWhitespace(s[i])
  {
    if s != [] && IsWhitespace(s[0]) then TrimStart(s[1..]) else s
  }

  function TrimEnd(s: string): (r: string)
    ensures r <= s
    ensures r != [] ==> !IsWhitespace(r[|r| - 1])
    ensures forall i :: |r| <= i < |s| ==> IsWhitespace(s[i])
  {
    if s != [] && IsWhitespace(s[|s| - 1]) then TrimEnd(s[..|s| - 1]) else s
  }

  /** Cutting leading whitespace off `s` (leaving `t`) and then trailing
      whitespace off `t` (leaving `r`) leaves a slice of `s` with only
      whitespace on either side. */
  lemma CutBetweenWhitespace(s: string, t: string, r: string)
    requires |t| <= |s| && t == s[|s| - |t|..] && r <= t
    requires forall i :: 0 <= i < |s| - |t| ==> IsWhitespace(s[i])
    requires forall i :: |r| <= i < |t| ==> IsWhitespace(t[i])
    ensures exists a, b :: 0 <= a <= b <= |s| && r == s[a..b]
              && (forall i :: 0 <= i < a ==> IsWhitespace(s[i]))
              && (forall i :: b <= i < |s| ==> IsWhitespace(s[i]))
    ensures forall c :: c in r ==> c in s
  {
    var a := |s| - |t|;
    var b := a + |r|;
    assert r == s[a..b] by {
      assert r == t[..|r|];
    }
    forall i | b <= i < |s|
      ensures IsWhitespace(s[i])
    {
      assert s[i] == t[i - a];
    }
    forall c | c in r
      ensures c in s
    {
      var k :| 0 <= k < |r| && r[k] == c;
      assert s[a + k] == c;
    }
  }

  /** `str::trim`. */
  function Trim(s: string): (r: string)
    ensures r != [] ==> !IsWhitespace(r[0]) && !IsWhitespace(r[|r| - 1])
    ensures forall c :: c in r ==> c in s
    ensures exists a, b :: 0 <= a <= b <= |s| && r == s[a..b]
              && (forall i :: 0 <= i < a ==> IsWhitespace(s[i]))
              && (forall i :: b <= i < |s| ==> IsWhitespace(s[i]))
  {
    var t := TrimStart(s);
    var r := TrimEnd(t);
    CutBetweenWhitespace(s, t, r);
    r
  }

  predicate IsDigit(c: char)
  {
    '0' <= c <= '9'
  }

  predicate AllDigits(s: string)
  {
    forall i :: 0 <= i < |s| ==> IsDigit(s[i])
  }

  /** The value of a decimal digit string (most significant digit first). */
  function DigitsValue(s: string): (v: nat)
    requires AllDigits(s)
  {
    if s == [] then 0 else DigitsValue(s[..|s| - 1]) * 10 + (s[|s| - 1] as int - '0' as int)
  }

  const I32Min: int := -0x8000_0000
  const I32Max: int := 0x7FFF_FFFF

  /** `str::parse::<i32>`: an optional `+` or `-`, then one or more ASCII
      digits, and a value that fits in 32 bits; anything else is an error. */
  function ParseI32(s: string): (r: Option<int>)
    ensures r.Some? ==> I32Min <= r.value <= I32Max
  {
    var negative := |s| > 0 && s[0] == '-';
    var digits := if |s| > 0 && (s[0] == '+' || s[0] == '-') then s[1..] else s;
    if digits == [] || !AllDigits(digits) then None
    else
      var v: int := if negative then -(DigitsValue(digits) as int) else DigitsValue(digits);
      if I32Min <= v <= I32Max then Some(v) else None
  }

  /** The PID the monitor accepts from the file's content: the trimmed text
      parsed as an i32, kept only when it is positive. */
  function ParsePid(content: string): (r: Option<nat>)
    ensures r.Some? ==> 0 < r.value <= I32Max
    ensures r.Some? <==> ParseI32(Trim(content)).Some? && ParseI32(Trim(content)).value > 0
  {
    match ParseI32(Trim(content))
    case Some(p) => if p > 0 then Some(p) else None
    case None => None
  }

  /** Outcome of `kill(pid, None)`. */
  datatype ProbeResult = Alive | NoSuchProcess | ProbeFailed

  /** `publish_process_down`: the event carries the monitor's own name. */
  function ProcessDownEvent(config: PidMonitorConfig, pid: nat): (e: ProcessEvent)
    ensures e.ProcessDown? && e.name == config.name && e.pid == pid
  {
    ProcessDown(config.name, pid)
  }

  /** `check_and_publish`. `content` is None when the file cannot be read;
      `probe(pid)` is what the signal probe reports for that PID. At most one
      event is published. */
  function CheckAndPublish(config: PidMonitorConfig, content: Option<string>, probe: nat -> ProbeResult)
    : (published: Option<ProcessEvent>)
    ensures content.None? ==> published.None?
    ensures content.Some? && ParsePid(content.value).None? ==> published.None?
    ensures published.Some? <==>
      content.Some? && ParsePid(content.value).Some? && probe(ParsePid(content.value).value) == NoSuchProcess
    ensures published.Some? ==> published.value == ProcessDown(config.name, ParsePid(content.value).value)
  {
    match content
    case None => None
    case Some(text) =>
      match ParsePid(text)
      case None => None
      case Some(pid) =>
        match probe(pid)
        case Alive => None
        case NoSuchProcess => Some(ProcessDownEvent(config, pid))
        case ProbeFailed => None
  }

  /** The decimal text of a number, as a PID file holds it. */
  function Decimal(n: nat): (s: string)
    ensures s != [] && AllDigits(s)
    decreases n
  {
    if n < 10 then [('0' as int + n) as char] else Decimal(n / 10) + [('0' as int + n % 10) as char]
  }

  lemma {:induction false} DecimalValue(n: nat)
    ensures DigitsValue(Decimal(n)) == n
    decreases n
  {
    if n >= 10 {
      DecimalValue(n / 10);
      var s := Decimal(n);
      assert s[..|s| - 1] == Decimal(n / 10);
    }
  }

  lemma TrimDigitsLine(s: string)
    requires s != [] && AllDigits(s)
    ensures Trim(s + "\n") == s
  {
    assert !IsWhitespace(s[0]);
    assert (s + "\n")[0] == s[0];
    assert TrimStart(s + "\n") == s + "\n";
    assert (s + "\n")[..|s + "\n"| - 1] == s;
    assert TrimEnd(s) == s;
  }

  /** A positive PID written as decimal text parses back to itself. */
  lemma ParseDecimal(pid: nat)
    requires 0 < pid <= I32Max
    ensures ParseI32(Decimal(pid)) == Some(pid)
  {
    var text := Decimal(pid);
    DecimalValue(pid);
    assert IsDigit(text[0]);
  }

  /** A PID file holding a positive PID and a newline, for a process that is
      gone, produces exactly `ProcessDown` with that PID. */
  lemma PidFileOfExitedProcess(config: PidMonitorConfig, pid: nat, probe: nat -> ProbeResult)
    requires 0 < pid <= I32Max && probe(pid) == NoSuchProcess
    ensures CheckAndPublish(config, Some(Decimal(pid) + "\n"), probe) == Some(ProcessDown(config.name, pid))
  {
    var text := Decimal(pid);
    TrimDigitsLine(text);
    ParseDecimal(pid);
    assert ParsePid(text + "\n") == Some(pid);
  }
}
