/**
 The Dagster job `end_to_end_telegram_pipeline`: four ops wired in a line
 (scrape, load, dbt, YOLO), each taking the previous op's return value, each
 running its shell commands through `run_command`. An op whose command fails
 raises, produces no value, and so no op downstream of it runs.
 */
module Pipeline {
  import opened Wrappers
  import opened CommandRunner

  /** One command an op hands to `run_command`, with its optional `project_dir`. */
  datatype Command = Command(text: string, projectDir: Option<string>)

  /** An op: its Dagster name, the line it logs on entry and the commands it runs in order. */
  datatype Op = Op(name: string, startMessage: string, commands: seq<Command>)

  /** A `context.log.info` line, tagged with the op that wrote it. */
  datatype LogEntry = Info(op: string, text: string)

  /** Terminal state of one job run. */
  datatype JobOutcome = Succeeded | Failed(op: string, returnCode: int, fullCommand: string)

  /** What one op call did: processes started, lines forwarded, lines logged, and
      either its return value or the failure it raised. */
  datatype OpRun = OpRun(started: seq<string>, forwarded: seq<string>, log: seq<string>, outcome: Outcome)

  /** What one job run did: processes started, lines forwarded, log lines, the
      input each op that ran received, and the terminal state. */
  datatype JobRun = JobRun(
    started: seq<string>,
    forwarded: seq<string>,
    log: seq<LogEntry>,
    received: seq<Option<string>>,
    outcome: JobOutcome)

  // ----- The declared job -----

  const DbtProject: string := "kara_dbt_project"

  const ScrapeOp: Op := Op("scrape_telegram_data", "Starting Telegram scraping.",
                           [Command("python src/scraping/scraper.py", None)])
  const LoadOp: Op := Op("load_raw_to_postgres", "Loading raw data to PostgreSQL.",
                         [Command("python src/loading/load_to_raw.py", None)])
  const DbtOp: Op := Op("run_dbt_transformations", "Running dbt transformations.",
                        [Command("dbt run", Some(DbtProject)), Command("dbt test", Some(DbtProject))])
  const YoloOp: Op := Op("run_yolo_enrichment", "Running YOLO enrichment.",
                         [Command("python src/enrichment/run_yolo.py", None)])

  /** The job body: scrape feeds load, load feeds dbt, dbt feeds YOLO. */
  const FullPipelineJob: seq<Op> := [ScrapeOp, LoadOp, DbtOp, YoloOp]

  /** The daily trigger: a constant configuration, never evaluated by the code. */
  datatype ScheduleSpec = ScheduleSpec(cron: string, timezone: string, job: string)
  const DailySchedule: ScheduleSpec := ScheduleSpec("0 0 * * *", "UTC", "end_to_end_telegram_pipeline")

  // ----- Declared order and forwarded output -----

  /** The shell strings a list of commands would start, in order. */
  function CommandLine(cmds: seq<Command>): (lines: seq<string>)
    ensures |lines| == |cmds|
    ensures forall i :: 0 <= i < |cmds| ==> lines[i] == FullCommand(cmds[i].text, cmds[i].projectDir)
  {
    if |cmds| == 0 then [] else [FullCommand(cmds[0].text, cmds[0].projectDir)] + CommandLine(cmds[1..])
  }

  /** The shell strings a chain of ops would start if every command succeeded. */
  function Declared(ops: seq<Op>): seq<string> {
    if |ops| == 0 then [] else CommandLine(ops[0].commands) + Declared(ops[1..])
  }

  /** Everything forwarded by running the given shell strings one after another. */
  function ForwardAll(started: seq<string>, sh: Shell): seq<string> {
    if |started| == 0 then [] else Forward(sh(started[0])) + ForwardAll(started[1..], sh)
  }

  lemma {:induction false} ForwardAllAppend(a: seq<string>, b: seq<string>, sh: Shell)
    ensures ForwardAll(a + b, sh) == ForwardAll(a, sh) + ForwardAll(b, sh)
  {
    if |a| == 0 {
      assert a + b == b;
    } else {
      assert (a + b)[0] == a[0];
      assert (a + b)[1..] == a[1..] + b;
      ForwardAllAppend(a[1..], b, sh);
    }
  }

  /** `started` is what running `declared` in order and stopping at the first
      non-zero return code starts: a prefix of `declared` whose every element
      but the last returned 0, and whose last element failed exactly when the
      run stopped short or `failed` holds. */
  ghost predicate HaltsAtFirstFailure(declared: seq<string>, started: seq<string>, sh: Shell, failed: bool) {
    && started <= declared
    && (forall i :: 0 <= i < |started| - 1 ==> sh(started[i]).returnCode == 0)
    && (failed <==> |started| > 0 && sh(started[|started| - 1]).returnCode != 0)
    && (!failed ==> started == declared)
  }

  // ----- Running ops -----

  /** The commands of one op, in order, stopping at the first that raises. Each
      success is logged with `context.log.info`; the op's value is the message of
      its last command. */
  function RunCommands(cmds: seq<Command>, sh: Shell): (r: OpRun)
    requires |cmds| > 0
    ensures |r.started| > 0
    ensures r.outcome.Returned? ==> r.outcome.message == SuccessMessage && |r.log| == |cmds|
    ensures r.outcome.Raised? ==> |r.log| == |r.started| - 1
    ensures forall i :: 0 <= i < |r.log| ==> r.log[i] == SuccessMessage
    decreases |cmds|
  {
    var first := RunCommand(cmds[0].text, cmds[0].projectDir, sh);
    if first.outcome.Raised? then
      OpRun(first.started, first.forwarded, [], first.outcome)
    else if |cmds| == 1 then
      OpRun(first.started, first.forwarded, [first.outcome.message], first.outcome)
    else
      var rest := RunCommands(cmds[1..], sh);
      OpRun(first.started + rest.started, first.forwarded + rest.forwarded,
            [first.outcome.message] + rest.log, rest.outcome)
  }

  /** One op call: log the entry line, then run the commands. The upstream value
      is accepted and not inspected. */
  function RunOp(op: Op, upstream: Option<string>, sh: Shell): (r: OpRun)
    requires |op.commands| > 0
    ensures |r.log| > 0 && r.log[0] == op.startMessage
    ensures forall i :: 1 <= i < |r.log| ==> r.log[i] == SuccessMessage
    ensures r.outcome.Returned? ==> r.outcome.message == SuccessMessage && |r.log| == 1 + |op.commands|
    ensures r.outcome.Raised? ==> |r.log| == |r.started|
  {
    var body := RunCommands(op.commands, sh);
    OpRun(body.started, body.forwarded, [op.startMessage] + body.log, body.outcome)
  }

  function Tag(op: string, lines: seq<string>): (entries: seq<LogEntry>)
    ensures |entries| == |lines|
    ensures forall i :: 0 <= i < |lines| ==> entries[i] == Info(op, lines[i])
  {
    if |lines| == 0 then [] else [Info(op, lines[0])] + Tag(op, lines[1..])
  }

  predicate Runnable(ops: seq<Op>) {
    forall k :: 0 <= k < |ops| ==> |ops[k].commands| > 0
  }

  /** The job body as a fold over the op chain. The first op receives `upstream`;
      every later op receives the value returned by the op before it. A failing
      op returns nothing, so the fold ends there. */
  function RunOps(ops: seq<Op>, upstream: Option<string>, sh: Shell): (r: JobRun)
    requires Runnable(ops)
    ensures |r.received| <= |ops|
    ensures r.outcome.Succeeded? ==> |r.received| == |ops|
    ensures |ops| > 0 ==> |r.received| > 0 && r.received[0] == upstream
    ensures forall k :: 0 < k < |r.received| ==> r.received[k] == Some(SuccessMessage)
    decreases |ops|
  {
    if |ops| == 0 then JobRun([], [], [], [], Succeeded)
    else
      var first := RunOp(ops[0], upstream, sh);
      var firstLog := Tag(ops[0].name, first.log);
      match first.outcome
      case Raised(code, full) =>
        JobRun(first.started, first.forwarded, firstLog, [upstream], Failed(ops[0].name, code, full))
      case Returned(value) =>
        var rest := RunOps(ops[1..], Some(value), sh);
        JobRun(first.started + rest.started, first.forwarded + rest.forwarded,
               firstLog + rest.log, [upstream] + rest.received, rest.outcome)
  }

  /** One run of `end_to_end_telegram_pipeline` against the shell `sh`. */
  function RunJob(sh: Shell): (r: JobRun)
    ensures r.started <= DeclaredPipeline
    ensures r.outcome.Succeeded? <==> r.started == DeclaredPipeline && sh(DeclaredPipeline[4]).returnCode == 0
  {
    assert Runnable(FullPipelineJob);
    DeclaredFullPipeline();
    RunOpsHalts(FullPipelineJob, None, sh);
    RunOps(FullPipelineJob, None, sh)
  }

  // ----- Properties of one run -----

  /** Running `d1` to completion and then `d2` halts where `d2` halts. */
  lemma HaltsAppend(d1: seq<string>, d2: seq<string>, s2: seq<string>, sh: Shell, failed: bool)
    requires HaltsAtFirstFailure(d1, d1, sh, false)
    requires HaltsAtFirstFailure(d2, s2, sh, failed)
    ensures HaltsAtFirstFailure(d1 + d2, d1 + s2, sh, failed)
  {
    var s := d1 + s2;
    forall i | 0 <= i < |s| - 1 ensures sh(s[i]).returnCode == 0 {
      if i >= |d1| {
        assert s[i] == s2[i - |d1|];
      } else {
        assert s[i] == d1[i];
      }
    }
    if |s2| == 0 {
      assert s == d1;
    } else {
      assert s[|s| - 1] == s2[|s2| - 1];
    }
  }

  /** A single started command halts the run exactly when it fails. */
  lemma HaltsSingle(c: string, rest: seq<string>, sh: Shell)
    requires sh(c).returnCode != 0 || rest == []
    ensures HaltsAtFirstFailure([c] + rest, [c], sh, sh(c).returnCode != 0)
  {
    assert [c] <= [c] + rest;
  }

  lemma ForwardAllSingle(c: string, sh: Shell)
    ensures ForwardAll([c], sh) == Forward(sh(c))
  {
    assert [c][1..] == [];
  }

  /** Within an op, commands run in their written order, each at most once, and
      the op stops at the first that fails. */
  lemma {:induction false} RunCommandsHalts(cmds: seq<Command>, sh: Shell)
    requires |cmds| > 0
    ensures HaltsAtFirstFailure(CommandLine(cmds), RunCommands(cmds, sh).started, sh, RunCommands(cmds, sh).outcome.Raised?)
    decreases |cmds|
  {
    var first := RunCommand(cmds[0].text, cmds[0].projectDir, sh);
    var c := first.started[0];
    assert CommandLine(cmds) == [c] + CommandLine(cmds[1..]);
    if first.outcome.Returned? && |cmds| > 1 {
      RunCommandsHalts(cmds[1..], sh);
      HaltsSingle(c, [], sh);
      HaltsAppend([c], CommandLine(cmds[1..]), RunCommands(cmds[1..], sh).started, sh, RunCommands(cmds[1..], sh).outcome.Raised?);
    } else {
      HaltsSingle(c, CommandLine(cmds[1..]), sh);
    }
  }

  /** An op forwards the output of exactly the processes it started, in order. */
  lemma {:induction false} RunCommandsForwards(cmds: seq<Command>, sh: Shell)
    requires |cmds| > 0
    ensures RunCommands(cmds, sh).forwarded == ForwardAll(RunCommands(cmds, sh).started, sh)
    decreases |cmds|
  {
    var first := RunCommand(cmds[0].text, cmds[0].projectDir, sh);
    ForwardAllSingle(first.started[0], sh);
    if first.outcome.Returned? && |cmds| > 1 {
      RunCommandsForwards(cmds[1..], sh);
      ForwardAllAppend(first.started, RunCommands(cmds[1..], sh).started, sh);
    }
  }

  /** The failure an op raises names the last command it started and that
      command's return code. */
  lemma {:induction false} RunCommandsFailure(cmds: seq<Command>, sh: Shell)
    requires |cmds| > 0
    ensures RaisesAtLastStarted(RunCommands(cmds, sh), sh)
    decreases |cmds|
  {
    var first := RunCommand(cmds[0].text, cmds[0].projectDir, sh);
    if first.outcome.Returned? && |cmds| > 1 {
      RunCommandsFailure(cmds[1..], sh);
      RaisesAtLastStartedShift(RunCommands(cmds, sh), first.started, RunCommands(cmds[1..], sh), sh);
    }
  }

  /** A raising op run `r` raised for its last started command, with that
      command's return code. */
  ghost predicate RaisesAtLastStarted(r: OpRun, sh: Shell) {
    r.outcome.Raised? ==>
      && |r.started| > 0
      && r.outcome.fullCommand == r.started[|r.started| - 1]
      && r.outcome.returnCode == sh(r.outcome.fullCommand).returnCode
  }

  lemma RaisesAtLastStartedShift(r: OpRun, firstStarted: seq<string>, rest: OpRun, sh: Shell)
    requires RaisesAtLastStarted(rest, sh)
    requires r.started == firstStarted + rest.started && r.outcome == rest.outcome
    ensures RaisesAtLastStarted(r, sh)
  {
    if r.outcome.Raised? {
      assert r.started[|r.started| - 1] == rest.started[|rest.started| - 1];
    }
  }

  /** The job is a fold that halts at the first failing command: the started
      shell strings are a prefix of the declared order, all but the last returned
      0, the run failed exactly when the last one did not, and a successful run
      started every declared command. */
  lemma {:induction false} RunOpsHalts(ops: seq<Op>, upstream: Option<string>, sh: Shell)
    requires Runnable(ops)
    ensures HaltsAtFirstFailure(Declared(ops), RunOps(ops, upstream, sh).started, sh, RunOps(ops, upstream, sh).outcome.Failed?)
    decreases |ops|
  {
    if |ops| > 0 {
      var first := RunOp(ops[0], upstream, sh);
      RunCommandsHalts(ops[0].commands, sh);
      assert Declared(ops) == CommandLine(ops[0].commands) + Declared(ops[1..]);
      if first.outcome.Returned? {
        var next := Some(first.outcome.message);
        RunOpsHalts(ops[1..], next, sh);
        HaltsAppend(first.started, Declared(ops[1..]), RunOps(ops[1..], next, sh).started, sh, RunOps(ops[1..], next, sh).outcome.Failed?);
      } else {
        assert first.started <= Declared(ops);
      }
    }
  }

  /** The job forwards the output of exactly the processes it started, in order. */
  lemma {:induction false} RunOpsForwards(ops: seq<Op>, upstream: Option<string>, sh: Shell)
    requires Runnable(ops)
    ensures RunOps(ops, upstream, sh).forwarded == ForwardAll(RunOps(ops, upstream, sh).started, sh)
    decreases |ops|
  {
    if |ops| > 0 {
      var first := RunOp(ops[0], upstream, sh);
      RunCommandsForwards(ops[0].commands, sh);
      if first.outcome.Returned? {
        var next := Some(first.outcome.message);
        RunOpsForwards(ops[1..], next, sh);
        ForwardAllAppend(first.started, RunOps(ops[1..], next, sh).started, sh);
      }
    }
  }

  /** A failed run names the last command started and that command's return code. */
  lemma {:induction false} RunOpsFailure(ops: seq<Op>, upstream: Option<string>, sh: Shell)
    requires Runnable(ops)
    ensures FailsAtLastStarted(RunOps(ops, upstream, sh), sh)
    decreases |ops|
  {
    if |ops| > 0 {
      RunOpsStep(ops, upstream, sh);
      var first := RunOp(ops[0], upstream, sh);
      RunCommandsFailure(ops[0].commands, sh);
      assert first.started == RunCommands(ops[0].commands, sh).started;
      if first.outcome.Returned? {
        var next := Some(first.outcome.message);
        RunOpsFailure(ops[1..], next, sh);
        FailsAtLastStartedShift(RunOps(ops, upstream, sh), first.started, RunOps(ops[1..], next, sh), sh);
      }
    }
  }

  /** A failed job run `r` failed at its last started command, with that
      command's return code. */
  ghost predicate FailsAtLastStarted(r: JobRun, sh: Shell) {
    r.outcome.Failed? ==>
      && |r.started| > 0
      && r.outcome.fullCommand == r.started[|r.started| - 1]
      && r.outcome.returnCode == sh(r.outcome.fullCommand).returnCode
  }

  lemma FailsAtLastStartedShift(r: JobRun, firstStarted: seq<string>, rest: JobRun, sh: Shell)
    requires FailsAtLastStarted(rest, sh)
    requires r.started == firstStarted + rest.started && r.outcome == rest.outcome
    ensures FailsAtLastStarted(r, sh)
  {
    if r.outcome.Failed? {
      assert r.started[|r.started| - 1] == rest.started[|rest.started| - 1];
    }
  }

  /** One step of the fold: what a run of `ops` is, in terms of its first op
      and the run of the rest. */
  lemma RunOpsStep(ops: seq<Op>, upstream: Option<string>, sh: Shell)
    requires Runnable(ops) && |ops| > 0
    ensures var r := RunOps(ops, upstream, sh);
            var first := RunOp(ops[0], upstream, sh);
            && (first.outcome.Raised? ==>
                  && r.received == [upstream] && r.started == first.started
                  && r.outcome == Failed(ops[0].name, first.outcome.returnCode, first.outcome.fullCommand))
            && (first.outcome.Returned? ==>
                  var rest := RunOps(ops[1..], Some(first.outcome.message), sh);
                  && r.received == [upstream] + rest.received && r.started == first.started + rest.started
                  && r.outcome == rest.outcome)
  {
  }

  /** A failed run blames the op that was running: the last op that received a
      value, which is the op whose command failed. */
  lemma {:induction false} RunOpsFailureNamesOp(ops: seq<Op>, upstream: Option<string>, sh: Shell)
    requires Runnable(ops)
    ensures BlamesLastReceiver(ops, RunOps(ops, upstream, sh))
    decreases |ops|
  {
    if |ops| > 0 {
      RunOpsStep(ops, upstream, sh);
      var first := RunOp(ops[0], upstream, sh);
      if first.outcome.Returned? {
        var next := Some(first.outcome.message);
        RunOpsFailureNamesOp(ops[1..], next, sh);
        BlamesLastReceiverShift(ops, RunOps(ops, upstream, sh), upstream, RunOps(ops[1..], next, sh));
      }
    }
  }

  /** A failed run `r` of `ops` blames the last op that received a value. */
  ghost predicate BlamesLastReceiver(ops: seq<Op>, r: JobRun) {
    r.outcome.Failed? ==> 0 < |r.received| <= |ops| && r.outcome.op == ops[|r.received| - 1].name
  }

  lemma BlamesLastReceiverShift(ops: seq<Op>, r: JobRun, upstream: Option<string>, rest: JobRun)
    requires |ops| > 0
    requires BlamesLastReceiver(ops[1..], rest)
    requires r.received == [upstream] + rest.received && r.outcome == rest.outcome
    ensures BlamesLastReceiver(ops, r)
  {
    if r.outcome.Failed? {
      assert ops[|r.received| - 1] == ops[1..][|rest.received| - 1];
    }
  }

  lemma DeclaredOne(op: Op)
    ensures Declared([op]) == CommandLine(op.commands)
  {
    assert [op][1..] == [];
  }

  lemma DeclaredPrefixStep(ops: seq<Op>, m: nat)
    requires 0 < m <= |ops|
    ensures Declared(ops[..m]) == CommandLine(ops[0].commands) + Declared(ops[1..][..m - 1])
  {
    assert ops[..m][1..] == ops[1..][..m - 1];
  }

  /** The failing command belongs to the blamed op: the run started all the
      commands of the ops before it, and at most the commands of that op. */
  lemma {:induction false} RunOpsFailureWithinOp(ops: seq<Op>, upstream: Option<string>, sh: Shell)
    requires Runnable(ops)
    ensures FailsWithinOp(ops, RunOps(ops, upstream, sh))
    decreases |ops|
  {
    if |ops| > 0 {
      RunOpsStep(ops, upstream, sh);
      var first := RunOp(ops[0], upstream, sh);
      RunCommandsHalts(ops[0].commands, sh);
      assert first.started == RunCommands(ops[0].commands, sh).started;
      if first.outcome.Returned? {
        var next := Some(first.outcome.message);
        RunOpsFailureWithinOp(ops[1..], next, sh);
        FailsWithinOpShift(ops, RunOps(ops, upstream, sh), upstream, first.started, RunOps(ops[1..], next, sh));
      } else {
        DeclaredFirstOp(ops);
      }
    }
  }

  /** A failed run `r` of `ops` started every command of the ops before the
      last one that received a value, and at most the commands of that op. */
  ghost predicate FailsWithinOp(ops: seq<Op>, r: JobRun) {
    r.outcome.Failed? ==>
      && 0 < |r.received| <= |ops|
      && |Declared(ops[..|r.received| - 1])| < |r.started| <= |Declared(ops[..|r.received|])|
  }

  lemma FailsWithinOpShift(ops: seq<Op>, r: JobRun, upstream: Option<string>, firstStarted: seq<string>, rest: JobRun)
    requires |ops| > 0 && |firstStarted| == |ops[0].commands|
    requires FailsWithinOp(ops[1..], rest)
    requires r.received == [upstream] + rest.received && r.started == firstStarted + rest.started
    requires r.outcome == rest.outcome
    ensures FailsWithinOp(ops, r)
  {
    if r.outcome.Failed? {
      DeclaredPrefixShift(ops, |rest.received|, |rest.started|);
    }
  }

  /** The commands of the first op come before those of the first `m` later ops. */
  lemma DeclaredPrefixShift(ops: seq<Op>, m: nat, restStarted: nat)
    requires 0 < m < |ops|
    requires |Declared(ops[1..][..m - 1])| < restStarted <= |Declared(ops[1..][..m])|
    ensures |Declared(ops[..m])| < |ops[0].commands| + restStarted <= |Declared(ops[..m + 1])|
  {
    DeclaredPrefixStep(ops, m + 1);
    DeclaredPrefixStep(ops, m);
  }

  lemma DeclaredFirstOp(ops: seq<Op>)
    requires |ops| > 0
    ensures |Declared(ops[..0])| == 0 && |Declared(ops[..1])| == |ops[0].commands|
  {
    assert ops[..1] == [ops[0]];
    DeclaredOne(ops[0]);
    assert ops[..0] == [];
  }

  /** Whatever the shell does, the run starts exactly the declared commands up to
      and including the first that returns non-zero, and fails there; when none
      does, it starts all of them and succeeds. */
  lemma HaltsAtFirstNonZero(declared: seq<string>, started: seq<string>, sh: Shell, failed: bool, k: nat)
    requires HaltsAtFirstFailure(declared, started, sh, failed)
    requires k < |declared| && sh(declared[k]).returnCode != 0
    requires forall i :: 0 <= i < k ==> sh(declared[i]).returnCode == 0
    ensures started == declared[..k + 1] && failed
  {
  }

  lemma SucceedsWhenAllZero(declared: seq<string>, started: seq<string>, sh: Shell, failed: bool)
    requires HaltsAtFirstFailure(declared, started, sh, failed)
    requires forall i :: 0 <= i < |declared| ==> sh(declared[i]).returnCode == 0
    ensures started == declared && !failed
  {
  }

  /** A command placed after a failing one is never started (when it is not
      also declared elsewhere). */
  lemma NotStartedAfterFailure(declared: seq<string>, started: seq<string>, sh: Shell, failed: bool, k: nat, j: nat)
    requires HaltsAtFirstFailure(declared, started, sh, failed)
    requires k < j < |declared| && sh(declared[k]).returnCode != 0
    requires forall i :: 0 <= i < |declared| && i != j ==> declared[i] != declared[j]
    ensures declared[j] !in started
  {
  }

  /** The shell strings of `end_to_end_telegram_pipeline`, in the order the job body wires them. */
  const DeclaredPipeline: seq<string> := [
    "python src/scraping/scraper.py",
    "python src/loading/load_to_raw.py",
    "cd kara_dbt_project && dbt run",
    "cd kara_dbt_project && dbt test",
    "python src/enrichment/run_yolo.py"]

  lemma DbtShellStrings()
    ensures FullCommand("dbt run", Some(DbtProject)) == "cd kara_dbt_project && dbt run"
    ensures FullCommand("dbt test", Some(DbtProject)) == "cd kara_dbt_project && dbt test"
  {
  }

  lemma DbtCommandLine()
    ensures CommandLine(DbtOp.commands) == DeclaredPipeline[2..4]
  {
    DbtShellStrings();
    assert DbtOp.commands[1..][1..] == [];
  }

  lemma DeclaredFullPipeline()
    ensures Declared(FullPipelineJob) == DeclaredPipeline
  {
    DbtCommandLine();
    assert FullPipelineJob[1..][1..] == FullPipelineJob[2..];
    assert FullPipelineJob[2..][1..] == FullPipelineJob[3..];
    assert FullPipelineJob[3..][1..] == [];
    assert Declared(FullPipelineJob[3..]) == DeclaredPipeline[4..];
    assert Declared(FullPipelineJob[2..]) == DeclaredPipeline[2..];
    assert Declared(FullPipelineJob[1..]) == DeclaredPipeline[1..];
  }

  /** The five shell strings of the pipeline are pairwise distinct. */
  lemma DeclaredPipelineDistinct()
    ensures forall i, j :: 0 <= i < j < |DeclaredPipeline| ==> DeclaredPipeline[i] != DeclaredPipeline[j]
  {
    assert |DeclaredPipeline[0]| == 30 && |DeclaredPipeline[1]| == 33 && |DeclaredPipeline[2]| == 30;
    assert |DeclaredPipeline[3]| == 31 && |DeclaredPipeline[4]| == 33;
    assert DeclaredPipeline[0][0] != DeclaredPipeline[2][0];
    assert DeclaredPipeline[1][11] != DeclaredPipeline[4][11];
  }

  /** A run in which every command returns 0 starts scraper, loader, `dbt run`,
      `dbt test` and YOLO, in that order, each once, and succeeds; every op after
      the first receives the success string returned by the op before it. */
  lemma FullPipelineSucceeds(sh: Shell)
    requires forall i :: 0 <= i < |DeclaredPipeline| ==> sh(DeclaredPipeline[i]).returnCode == 0
    ensures RunJob(sh).outcome == Succeeded
    ensures RunJob(sh).started == DeclaredPipeline
    ensures RunJob(sh).received == [None, Some(SuccessMessage), Some(SuccessMessage), Some(SuccessMessage)]
  {
    DeclaredFullPipeline();
    RunOpsHalts(FullPipelineJob, None, sh);
    SucceedsWhenAllZero(DeclaredPipeline, RunJob(sh).started, sh, RunJob(sh).outcome.Failed?);
  }

  /** The log of a run in which every op returns: each op's entry line, then one
      success line per command it ran. */
  function SuccessLog(ops: seq<Op>): seq<LogEntry> {
    if |ops| == 0 then []
    else Tag(ops[0].name, [ops[0].startMessage] + seq(|ops[0].commands|, _ => SuccessMessage)) + SuccessLog(ops[1..])
  }

  /** A successful run logs, op by op, the entry line and a success line per command. */
  lemma {:induction false} RunOpsLog(ops: seq<Op>, upstream: Option<string>, sh: Shell)
    requires Runnable(ops)
    ensures RunOps(ops, upstream, sh).outcome.Succeeded? ==> RunOps(ops, upstream, sh).log == SuccessLog(ops)
    decreases |ops|
  {
    if |ops| > 0 {
      var first := RunOp(ops[0], upstream, sh);
      if first.outcome.Returned? {
        assert first.log == [ops[0].startMessage] + seq(|ops[0].commands|, _ => SuccessMessage);
        RunOpsLog(ops[1..], Some(first.outcome.message), sh);
      }
    }
  }

  /** The log lines of one op that returned. */
  function OpSuccessLog(op: Op): seq<LogEntry> {
    Tag(op.name, [op.startMessage] + seq(|op.commands|, _ => SuccessMessage))
  }

  lemma SuccessLogOfPipeline()
    ensures SuccessLog(FullPipelineJob)
            == OpSuccessLog(ScrapeOp) + OpSuccessLog(LoadOp) + OpSuccessLog(DbtOp) + OpSuccessLog(YoloOp)
  {
    assert FullPipelineJob[1..][1..] == FullPipelineJob[2..];
    assert FullPipelineJob[2..][1..] == FullPipelineJob[3..];
    assert FullPipelineJob[3..][1..] == [];
    assert SuccessLog(FullPipelineJob[3..]) == OpSuccessLog(YoloOp);
    assert SuccessLog(FullPipelineJob[2..]) == OpSuccessLog(DbtOp) + OpSuccessLog(YoloOp);
  }

  /** The log lines of a returning op with one command. */
  lemma OpSuccessLogOne(op: Op)
    requires |op.commands| == 1
    ensures OpSuccessLog(op) == [Info(op.name, op.startMessage), Info(op.name, SuccessMessage)]
  {
    assert [op.startMessage] + seq(1, _ => SuccessMessage) == [op.startMessage, SuccessMessage];
  }

  /** The log lines of a returning op with two commands. */
  lemma OpSuccessLogTwo(op: Op)
    requires |op.commands| == 2
    ensures OpSuccessLog(op)
            == [Info(op.name, op.startMessage), Info(op.name, SuccessMessage), Info(op.name, SuccessMessage)]
  {
    assert [op.startMessage] + seq(2, _ => SuccessMessage) == [op.startMessage, SuccessMessage, SuccessMessage];
  }

  /** The operator-visible log of a fully successful pipeline run, line by line. */
  lemma FullPipelineLog(sh: Shell)
    requires forall i :: 0 <= i < |DeclaredPipeline| ==> sh(DeclaredPipeline[i]).returnCode == 0
    ensures RunJob(sh).log == [
      Info("scrape_telegram_data", "Starting Telegram scraping."), Info("scrape_telegram_data", SuccessMessage),
      Info("load_raw_to_postgres", "Loading raw data to PostgreSQL."), Info("load_raw_to_postgres", SuccessMessage),
      Info("run_dbt_transformations", "Running dbt transformations."),
      Info("run_dbt_transformations", SuccessMessage), Info("run_dbt_transformations", SuccessMessage),
      Info("run_yolo_enrichment", "Running YOLO enrichment."), Info("run_yolo_enrichment", SuccessMessage)]
  {
    FullPipelineSucceeds(sh);
    RunOpsLog(FullPipelineJob, None, sh);
    SuccessLogOfPipeline();
    OpSuccessLogOne(ScrapeOp);
    OpSuccessLogOne(LoadOp);
    OpSuccessLogTwo(DbtOp);
    OpSuccessLogOne(YoloOp);
  }

  /** How many of the declared commands the first `m` ops of the job own. */
  lemma DeclaredPipelinePrefixes()
    ensures |Declared(FullPipelineJob[..0])| == 0
    ensures |Declared(FullPipelineJob[..1])| == 1
    ensures |Declared(FullPipelineJob[..2])| == 2
    ensures |Declared(FullPipelineJob[..3])| == 4
    ensures |Declared(FullPipelineJob[..4])| == 5
  {
    assert FullPipelineJob[..0] == [];
    DeclaredOne(ScrapeOp);
    assert FullPipelineJob[..1] == [ScrapeOp];
    DeclaredPrefixStep(FullPipelineJob, 2);
    assert FullPipelineJob[1..][..1] == [LoadOp];
    DeclaredOne(LoadOp);
    DeclaredPrefixStep(FullPipelineJob, 3);
    DeclaredPrefixStep(FullPipelineJob[1..], 2);
    assert FullPipelineJob[1..][1..][..1] == [DbtOp];
    DeclaredOne(DbtOp);
    assert FullPipelineJob[..4] == FullPipelineJob;
    DeclaredFullPipeline();
  }

  /** The op a failure at declared command `k` is reported against. */
  function OpOfCommand(k: nat): string {
    if k == 0 then "scrape_telegram_data"
    else if k == 1 then "load_raw_to_postgres"
    else if k <= 3 then "run_dbt_transformations"
    else "run_yolo_enrichment"
  }

  /** A run whose first non-zero command is `k` fails against the op owning `k`. */
  lemma FullPipelineBlames(sh: Shell, k: nat)
    requires k < |DeclaredPipeline|
    requires RunJob(sh).outcome.Failed? && |RunJob(sh).started| == k + 1
    ensures RunJob(sh).outcome.op == OpOfCommand(k)
  {
    RunOpsFailureNamesOp(FullPipelineJob, None, sh);
    RunOpsFailureWithinOp(FullPipelineJob, None, sh);
    BlamedByCount(RunJob(sh), k);
  }

  lemma BlamedByCount(r: JobRun, k: nat)
    requires FailsWithinOp(FullPipelineJob, r) && BlamesLastReceiver(FullPipelineJob, r)
    requires r.outcome.Failed? && |r.started| == k + 1
    ensures r.outcome.op == OpOfCommand(k)
  {
    DeclaredPipelinePrefixes();
  }

  /** If the command at position `k` is the first to return non-zero, the run
      starts exactly the first `k + 1` commands and ends `Failed` at that
      command, with its return code. */
  lemma FullPipelineFailsAt(sh: Shell, k: nat)
    requires k < |DeclaredPipeline| && sh(DeclaredPipeline[k]).returnCode != 0
    requires forall i :: 0 <= i < k ==> sh(DeclaredPipeline[i]).returnCode == 0
    ensures RunJob(sh).started == DeclaredPipeline[..k + 1]
    ensures RunJob(sh).outcome.Failed?
    ensures RunJob(sh).outcome.fullCommand == DeclaredPipeline[k]
    ensures RunJob(sh).outcome.returnCode == sh(DeclaredPipeline[k]).returnCode
    ensures RunJob(sh).outcome.op == OpOfCommand(k)
  {
    DeclaredFullPipeline();
    RunOpsHalts(FullPipelineJob, None, sh);
    RunOpsFailure(FullPipelineJob, None, sh);
    HaltsAtFirstNonZero(DeclaredPipeline, RunJob(sh).started, sh, RunJob(sh).outcome.Failed?, k);
    FullPipelineBlames(sh, k);
  }

  /** `dbt test` is reached only through a successful `dbt run`. */
  lemma DbtTestOnlyAfterDbtRun(sh: Shell)
    requires sh("cd kara_dbt_project && dbt run").returnCode != 0
    ensures "cd kara_dbt_project && dbt test" !in RunJob(sh).started
  {
    DeclaredFullPipeline();
    RunOpsHalts(FullPipelineJob, None, sh);
    DeclaredPipelineDistinct();
    NotStartedAfterFailure(DeclaredPipeline, RunJob(sh).started, sh, RunJob(sh).outcome.Failed?, 2, 3);
  }

  /** The dbt op runs `dbt run` then `dbt test` in the dbt project; once `dbt run`
      succeeds, the op's value or failure is that of `dbt test`. */
  lemma DbtOpReturnsTestResult(upstream: Option<string>, sh: Shell)
    requires sh("cd kara_dbt_project && dbt run").returnCode == 0
    ensures RunOp(DbtOp, upstream, sh).started == DeclaredPipeline[2..4]
    ensures RunOp(DbtOp, upstream, sh).outcome == RunCommand("dbt test", Some(DbtProject), sh).outcome
  {
    assert FullCommand("dbt run", Some(DbtProject)) == DeclaredPipeline[2];
    assert FullCommand("dbt test", Some(DbtProject)) == DeclaredPipeline[3];
    assert DbtOp.commands[1..] == [Command("dbt test", Some(DbtProject))];
    var first := RunCommand("dbt run", Some(DbtProject), sh);
    assert first.outcome.Returned?;
    var rest := RunCommands(DbtOp.commands[1..], sh);
    assert rest.started == [DeclaredPipeline[3]];
  }

  /** No command is started more often than it is declared: nothing is retried. */
  lemma NothingRetried(ops: seq<Op>, upstream: Option<string>, sh: Shell)
    requires Runnable(ops)
    ensures multiset(RunOps(ops, upstream, sh).started) <= multiset(Declared(ops))
  {
    RunOpsHalts(ops, upstream, sh);
    var started := RunOps(ops, upstream, sh).started;
    var declared := Declared(ops);
    assert declared == started + declared[|started|..];
  }

  /** Each command of the pipeline is started at most once per run. */
  lemma FullPipelineStartsEachCommandOnce(sh: Shell)
    ensures forall i, j :: 0 <= i < j < |RunJob(sh).started| ==> RunJob(sh).started[i] != RunJob(sh).started[j]
  {
    DeclaredFullPipeline();
    DeclaredPipelineDistinct();
    RunOpsHalts(FullPipelineJob, None, sh);
    var started := RunJob(sh).started;
    assert started <= DeclaredPipeline;
    forall i, j | 0 <= i < j < |started| ensures started[i] != started[j] {
      assert started[i] == DeclaredPipeline[i] && started[j] == DeclaredPipeline[j];
    }
  }

  /** An op does not look at the value it is given. */
  lemma RunOpIgnoresUpstream(op: Op, a: Option<string>, b: Option<string>, sh: Shell)
    requires |op.commands| > 0
    ensures RunOp(op, a, sh) == RunOp(op, b, sh)
  {
  }

  // ----- Repeated triggers -----

  /** The job run once per trigger, the `i`-th trigger meeting the shell `days[i]`. */
  function RunTriggers(days: seq<Shell>): (runs: seq<JobRun>)
    ensures |runs| == |days|
    ensures forall i :: 0 <= i < |days| ==> runs[i] == RunJob(days[i])
  {
    if |days| == 0 then [] else [RunJob(days[0])] + RunTriggers(days[1..])
  }

  /** Every triggered run starts again from the scraper, whatever earlier runs
      did: no success or failure is remembered between runs. */
  lemma EveryTriggerStartsFromScratch(days: seq<Shell>, i: nat)
    requires i < |days|
    ensures RunTriggers(days)[i].started[0] == DeclaredPipeline[0]
    ensures RunTriggers(days)[i].received[0] == None
  {
    assert RunTriggers(days)[i] == RunJob(days[i]);
    JobStartsWithScraper(days[i]);
  }

  lemma JobStartsWithScraper(sh: Shell)
    ensures |RunJob(sh).started| > 0 && RunJob(sh).started[0] == DeclaredPipeline[0]
    ensures |RunJob(sh).received| > 0 && RunJob(sh).received[0] == None
  {
    DeclaredFullPipeline();
    RunOpsHalts(FullPipelineJob, None, sh);
    RunOpsStep(FullPipelineJob, None, sh);
    assert |RunOp(ScrapeOp, None, sh).started| > 0;
  }

  /** A second successful run re-invokes every command, just as the first did. */
  lemma RerunRepeatsEveryCommand(days: seq<Shell>, i: nat, j: nat)
    requires i < j < |days|
    requires forall k :: 0 <= k < |DeclaredPipeline| ==> days[i](DeclaredPipeline[k]).returnCode == 0
    requires forall k :: 0 <= k < |DeclaredPipeline| ==> days[j](DeclaredPipeline[k]).returnCode == 0
    ensures RunTriggers(days)[i].started == RunTriggers(days)[j].started == DeclaredPipeline
  {
    FullPipelineSucceeds(days[i]);
    FullPipelineSucceeds(days[j]);
  }
}
