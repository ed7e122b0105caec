/**
 `run_command` of the orchestration layer: it builds one shell string, starts
 one process for it, forwards the process output and turns the exit status into
 either a fixed success string or an error carrying the status and the command.

 The process itself is an oracle: a `Shell` maps the shell string it is given
 to the lines the process writes and the status it exits with.
 */
module CommandRunner {
  import opened Wrappers
  import Decimal
  import Paths

  const SuccessMessage: string := "Command executed successfully"
  const FailurePrefix: string := "Command failed with return code "

  /** What one finished process reports: its standard output lines, its standard
      error lines (each with its own line ending) and its return code. */
  datatype ProcessResult = ProcessResult(stdout: seq<string>, stderr: seq<string>, returnCode: int)

  /** The operating system, seen from the pipeline: the result of running a shell string. */
  type Shell = string -> ProcessResult

  /** What `run_command` hands back: its success string, or the exception it raises. */
  datatype Outcome = Returned(message: string) | Raised(returnCode: int, fullCommand: string)

  /** One call of `run_command`: the shell strings it started a process for, in
      order, the lines it forwarded to its own output, and its outcome. */
  datatype Invocation = Invocation(started: seq<string>, forwarded: seq<string>, outcome: Outcome)

  /** Python truthiness of the optional `project_dir` argument: `None` and `""` are false. */
  predicate Truthy(projectDir: Option<string>) {
    projectDir.Some? && projectDir.value != ""
  }

  /** The shell string actually executed for `command` run from `projectDir`. */
  function FullCommand(command: string, projectDir: Option<string>): (full: string)
    ensures Paths.EndsWith(full, command)
    ensures |full| == |command| <==> !Truthy(projectDir)
    ensures !Truthy(projectDir) ==> full == command
    ensures Truthy(projectDir) ==> full == "cd " + projectDir.value + " && " + command
  {
    if Truthy(projectDir) then "cd " + projectDir.value + " && " + command else command
  }

  /** Stdout is drained completely before stderr: every stdout line verbatim,
      then every stderr line verbatim. */
  function Forward(p: ProcessResult): (lines: seq<string>)
    ensures |lines| == |p.stdout| + |p.stderr|
    ensures forall i :: 0 <= i < |p.stdout| ==> lines[i] == p.stdout[i]
    ensures forall j :: 0 <= j < |p.stderr| ==> lines[|p.stdout| + j] == p.stderr[j]
  {
    p.stdout + p.stderr
  }

  /** One call of `run_command(command, project_dir)` against the shell `sh`. */
  function RunCommand(command: string, projectDir: Option<string>, sh: Shell): (r: Invocation)
    ensures |r.started| == 1 && r.started[0] == FullCommand(command, projectDir)
    ensures r.forwarded == Forward(sh(r.started[0]))
    ensures r.outcome.Returned? <==> sh(r.started[0]).returnCode == 0
    ensures r.outcome.Returned? ==> r.outcome.message == SuccessMessage
    ensures r.outcome.Raised? ==>
              r.outcome.returnCode == sh(r.started[0]).returnCode && r.outcome.fullCommand == r.started[0]
  {
    var full := FullCommand(command, projectDir);
    var p := sh(full);
    Invocation([full], Forward(p), if p.returnCode == 0 then Returned(SuccessMessage) else Raised(p.returnCode, full))
  }

  /** The text of the exception raised for a non-zero return code. */
  function FailureMessage(code: int, fullCommand: string): (m: string)
    ensures Paths.StartsWith(m, FailurePrefix) && Paths.EndsWith(m, fullCommand)
  {
    FailurePrefix + Decimal.IntToString(code) + ": " + fullCommand
  }

  /** Python's `s.find(c)`: the first index holding `c`, or -1. */
  function IndexOf(s: string, c: char): (r: int)
    ensures -1 <= r < |s|
    ensures r >= 0 ==> s[r] == c
    ensures forall k :: 0 <= k < |s| && (r < 0 || k < r) ==> s[k] != c
  {
    if |s| == 0 then -1
    else if s[0] == c then 0
    else var rest := IndexOf(s[1..], c); if rest < 0 then -1 else rest + 1
  }

  /** Reads the return code and the command back out of an error text. */
  function DecodeFailureMessage(msg: string): Option<(int, string)> {
    if !Paths.StartsWith(msg, FailurePrefix) then None
    else
      var rest := msg[|FailurePrefix|..];
      var colon := IndexOf(rest, ':');
      if colon < 0 || colon + 1 >= |rest| || rest[colon + 1] != ' ' then None
      else match Decimal.ParseInt(rest[..colon])
        case None => None
        case Some(code) => Some((code, rest[colon + 2..]))
  }

  /** The error text carries both the return code and the whole shell string:
      both can be read back from it, so no two failures share a message. */
  lemma FailureMessageRoundTrip(code: int, fullCommand: string)
    ensures DecodeFailureMessage(FailureMessage(code, fullCommand)) == Some((code, fullCommand))
  {
    var digits := Decimal.IntToString(code);
    var msg := FailureMessage(code, fullCommand);
    assert Paths.StartsWith(msg, FailurePrefix);
    var rest := msg[|FailurePrefix|..];
    assert rest == digits + ": " + fullCommand;
    assert forall k :: 0 <= k < |digits| ==> rest[k] == digits[k] && digits[k] != ':';
    assert rest[|digits|] == ':';
    assert IndexOf(rest, ':') == |digits|;
    assert rest[..|digits|] == digits;
    assert rest[|digits| + 2..] == fullCommand;
    Decimal.ParseIntOfIntToString(code);
  }

  /** A failed call's message names its return code and ends with the shell string. */
  lemma FailureMessageNamesCodeAndCommand(command: string, projectDir: Option<string>, sh: Shell)
    requires sh(FullCommand(command, projectDir)).returnCode != 0
    ensures var r := RunCommand(command, projectDir, sh);
            && r.outcome.Raised?
            && DecodeFailureMessage(FailureMessage(r.outcome.returnCode, r.outcome.fullCommand))
               == Some((sh(FullCommand(command, projectDir)).returnCode, FullCommand(command, projectDir)))
            && Paths.EndsWith(FailureMessage(r.outcome.returnCode, r.outcome.fullCommand), FullCommand(command, projectDir))
  {
    var r := RunCommand(command, projectDir, sh);
    FailureMessageRoundTrip(r.outcome.returnCode, r.outcome.fullCommand);
  }
}
