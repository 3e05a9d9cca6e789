/** execute_pipeline of src/execute.c, as the plan it carries out: which
    pipes the parent creates, which children it forks and how each child's
    standard input and output are wired, which pipes the parent closes, and
    whether it then registers a background job or waits. The outcomes of
    pipe() and fork() are parameters. */
module Executor {
  import opened Wrappers
  import opened Parser
  import opened Jobs

  /** A process id fork() hands to the parent. */
  type Pid = p: int | p > 0 witness 1

  /** What one fork() call does in the parent. */
  datatype ForkOutcome = Forked(pid: Pid) | ForkFailed

  /** Where a child's standard input comes from. */
  datatype Input = InheritStdin | ReadPipe(pipe: nat) | ReadFile(path: string)

  /** Where a child's standard output goes; a file is opened for writing,
      created if missing and truncated, with mode 0644. */
  datatype Output = InheritStdout | WritePipe(pipe: nat) | WriteFile(path: string)

  /** What a child runs once wired: execvp of its argument vector, or exit(0). */
  datatype Program = Exec(argv: seq<string>) | ExitZero

  /** The plan of one child: its wiring, how many pipes it closes before
      running, and what it runs. */
  datatype Child = Child(stdin: Input, stdout: Output, closesPipes: nat, program: Program)

  /** One fork the parent performed, and the child it made. */
  datatype Spawn = Spawn(pid: Pid, child: Child)

  /** How the parent ends: nothing more (after an error or an empty
      command), one background job registered, waitpid on one child, or
      wait() called a number of times. */
  datatype Finish = NoFinish | RegisterJob(pid: Pid, command: string) | WaitFor(pid: Pid) | WaitAny(times: nat)

  /** What one call did, in order: the pipes created, the children
      forked, the pipes the parent closed, and how it finished. */
  datatype Run = Run(status: int, pipesMade: nat, spawned: seq<Spawn>, pipesClosed: nat, finish: Finish)

  /** An argument vector that is NULL or has no first word. */
  predicate NoCommand(argv: Option<seq<string>>)
  {
    argv.None? || |argv.value| == 0
  }

  /** The plan of child i of an n-stage pipeline. */
  function StageChild(stages: seq<Stage>, n: nat, i: nat): (c: Child)
    requires i < n <= |stages|
    ensures c.stdin.ReadPipe? <==> i > 0
    ensures i > 0 ==> c.stdin == ReadPipe(i - 1)
    ensures c.stdin.ReadFile? <==> i == 0 && stages[0].infile.Some?
    ensures c.stdin.ReadFile? ==> c.stdin.path == stages[0].infile.value
    ensures c.stdout.WritePipe? <==> i < n - 1
    ensures i < n - 1 ==> c.stdout == WritePipe(i)
    ensures c.stdout.WriteFile? <==> i == n - 1 && stages[i].outfile.Some?
    ensures c.stdout.WriteFile? ==> c.stdout.path == stages[n - 1].outfile.value
    ensures c.closesPipes == n - 1
    ensures c.program == ExitZero <==> NoCommand(stages[i].argv)
    ensures !NoCommand(stages[i].argv) ==> c.program == Exec(stages[i].argv.value)
  {
    Child(
      if i > 0 then ReadPipe(i - 1)
      else if stages[i].infile.Some? then ReadFile(stages[i].infile.value)
      else InheritStdin,
      if i < n - 1 then WritePipe(i)
      else if stages[i].outfile.Some? then WriteFile(stages[i].outfile.value)
      else InheritStdout,
      n - 1,
      if NoCommand(stages[i].argv) then ExitZero else Exec(stages[i].argv.value))
  }

  /** The fork loop from child i on: it stops at the first failed fork and
      tells whether every fork succeeded. */
  function ForkFrom(stages: seq<Stage>, n: nat, forks: seq<ForkOutcome>, i: nat): (r: (seq<Spawn>, bool))
    requires i <= n <= |stages| && n <= |forks|
    decreases n - i
  {
    if i == n then ([], true)
    else match forks[i]
      case ForkFailed => ([], false)
      case Forked(pid) =>
        var rest := ForkFrom(stages, n, forks, i + 1);
        ([Spawn(pid, StageChild(stages, n, i))] + rest.0, rest.1)
  }

  /** execute_pipeline as written. `pipesOk` is how many pipe() calls
      succeed before one fails, and forks[i] is the outcome of the i-th fork(). */
  function ExecutePipeline(stages: seq<Stage>, ncmds: int, background: bool, cmdline: Option<string>,
                           pipesOk: nat, forks: seq<ForkOutcome>): (r: Run)
    requires ncmds <= |stages| && ncmds <= |forks|
    ensures r.status == 0 || r.status == -1
    ensures ncmds <= 0 ==> r == Run(-1, 0, [], 0, NoFinish)
    ensures ncmds == 1 && NoCommand(stages[0].argv) ==> r == Run(0, 0, [], 0, NoFinish)
    ensures r.status == -1 ==> r.finish == NoFinish
  {
    if ncmds <= 0 then Run(-1, 0, [], 0, NoFinish)
    else if ncmds == 1 then
      var argv := stages[0].argv;
      if NoCommand(argv) then Run(0, 0, [], 0, NoFinish)
      else match forks[0]
        case ForkFailed => Run(-1, 0, [], 0, NoFinish)
        case Forked(pid) =>
          var spawned := [Spawn(pid, StageChild(stages, 1, 0))];
          if background then Run(0, 0, spawned, 0, RegisterJob(pid, cmdline.GetOr(argv.value[0])))
          else Run(0, 0, spawned, 0, WaitFor(pid))
    else if pipesOk < ncmds - 1 then Run(-1, pipesOk, [], 0, NoFinish)
    else
      var (spawned, ok) := ForkFrom(stages, ncmds, forks, 0);
      if !ok then Run(-1, ncmds - 1, spawned, 0, NoFinish)
      else if background then
        ForkAllSpawned(stages, ncmds, forks);
        Run(0, ncmds - 1, spawned, ncmds - 1, RegisterJob(spawned[0].pid, cmdline.GetOr("(pipeline)")))
      else Run(0, ncmds - 1, spawned, ncmds - 1, WaitAny(ncmds))
  }

  /** execute_pipeline with its error returns corrected: when a pipe() or
      fork() fails, the parent first closes every pipe it has created. */
  function ExecutePipelineReleasing(stages: seq<Stage>, ncmds: int, background: bool, cmdline: Option<string>,
                                    pipesOk: nat, forks: seq<ForkOutcome>): (r: Run)
    requires ncmds <= |stages| && ncmds <= |forks|
    ensures r.pipesClosed == r.pipesMade
    ensures r.status == 0 ==> r == ExecutePipeline(stages, ncmds, background, cmdline, pipesOk, forks)
    ensures r.status == -1 ==> r == ExecutePipeline(stages, ncmds, background, cmdline, pipesOk, forks).(pipesClosed := r.pipesMade)
  {
    var r := ExecutePipeline(stages, ncmds, background, cmdline, pipesOk, forks);
    PipesClosedOnSuccess(stages, ncmds, background, cmdline, pipesOk, forks);
    if r.status == -1 then r.(pipesClosed := r.pipesMade) else r
  }

  // ---------------------------------------------------------------------
  // The fork loop

  /** The children forked from i on, in order, each wired as its stage
      demands; all n - i of them when every fork succeeds, and otherwise
      those before the first failed fork. */
  predicate ForkedInOrder(stages: seq<Stage>, n: nat, forks: seq<ForkOutcome>, i: nat, spawned: seq<Spawn>, ok: bool)
    requires i <= n <= |stages| && n <= |forks|
  {
    && |spawned| <= n - i
    && (ok <==> |spawned| == n - i)
    && (!ok ==> forks[i + |spawned|] == ForkFailed)
    && (forall k :: i <= k < i + |spawned| ==> forks[k].Forked?)
    && (forall k :: 0 <= k < |spawned| ==> spawned[k] == Spawn(forks[i + k].pid, StageChild(stages, n, i + k)))
  }

  /** The fork loop forks in stage order and stops at the first failure. */
  lemma {:induction false} ForkFromPlan(stages: seq<Stage>, n: nat, forks: seq<ForkOutcome>, i: nat)
    requires i <= n <= |stages| && n <= |forks|
    ensures ForkedInOrder(stages, n, forks, i, ForkFrom(stages, n, forks, i).0, ForkFrom(stages, n, forks, i).1)
    decreases n - i
  {
    if i < n && forks[i].Forked? {
      ForkFromPlan(stages, n, forks, i + 1);
      ForkFromStep(stages, n, forks, i);
    }
  }

  /** One step of ForkFromPlan, given the plan from i + 1 on. */
  lemma ForkFromStep(stages: seq<Stage>, n: nat, forks: seq<ForkOutcome>, i: nat)
    requires i < n <= |stages| && n <= |forks| && forks[i].Forked?
    requires ForkedInOrder(stages, n, forks, i + 1, ForkFrom(stages, n, forks, i + 1).0, ForkFrom(stages, n, forks, i + 1).1)
    ensures ForkedInOrder(stages, n, forks, i, ForkFrom(stages, n, forks, i).0, ForkFrom(stages, n, forks, i).1)
  {
    var rest := ForkFrom(stages, n, forks, i + 1).0;
    var ok := ForkFrom(stages, n, forks, i + 1).1;
    var spawned := [Spawn(forks[i].pid, StageChild(stages, n, i))] + rest;
    assert ForkFrom(stages, n, forks, i) == (spawned, ok);
    forall k | 0 < k < |spawned|
      ensures spawned[k] == Spawn(forks[i + k].pid, StageChild(stages, n, i + k))
    {
      assert spawned[k] == rest[k - 1];
    }
  }

  /** With every fork successful, all of them are made; a failed fork
      stops the loop there. */
  lemma ForkFromAll(stages: seq<Stage>, n: nat, forks: seq<ForkOutcome>)
    requires n <= |stages| && n <= |forks|
    ensures ForkFrom(stages, n, forks, 0).1 <==> forall k :: 0 <= k < n ==> forks[k].Forked?
  {
    ForkFromPlan(stages, n, forks, 0);
    var (spawned, ok) := ForkFrom(stages, n, forks, 0);
    if !ok {
      assert forks[|spawned|] == ForkFailed;
    }
  }

  /** When every fork succeeds the loop forks n children. */
  lemma ForkAllSpawned(stages: seq<Stage>, n: nat, forks: seq<ForkOutcome>)
    requires 0 < n <= |stages| && n <= |forks|
    ensures ForkFrom(stages, n, forks, 0).1 ==> |ForkFrom(stages, n, forks, 0).0| == n
  {
    ForkFromPlan(stages, n, forks, 0);
  }

  // ---------------------------------------------------------------------
  // Properties of execute_pipeline

  /** A run that returns 0 closed every pipe it made: ncmds - 1 of them
      for a pipeline, none for a single command. */
  lemma PipesClosedOnSuccess(stages: seq<Stage>, ncmds: int, background: bool, cmdline: Option<string>,
                             pipesOk: nat, forks: seq<ForkOutcome>)
    requires ncmds <= |stages| && ncmds <= |forks|
    ensures var r := ExecutePipeline(stages, ncmds, background, cmdline, pipesOk, forks);
            r.status == 0 ==> r.pipesMade == r.pipesClosed == (if ncmds > 1 then ncmds - 1 else 0)
  {
  }

  /** The children of a run are forked in stage order, each wired by
      StageChild with the pid its fork returned; a run that returns 0
      forks every stage, except a lone command with nothing to run. */
  lemma ChildrenFollowStages(stages: seq<Stage>, ncmds: int, background: bool, cmdline: Option<string>,
                             pipesOk: nat, forks: seq<ForkOutcome>)
    requires ncmds <= |stages| && ncmds <= |forks|
    ensures var r := ExecutePipeline(stages, ncmds, background, cmdline, pipesOk, forks);
            && |r.spawned| <= (if ncmds > 0 then ncmds else 0)
            && (forall k :: 0 <= k < |r.spawned| ==>
                  forks[k].Forked? && r.spawned[k] == Spawn(forks[k].pid, StageChild(stages, ncmds, k)))
            && (r.status == 0 && !(ncmds == 1 && NoCommand(stages[0].argv)) ==> |r.spawned| == ncmds)
  {
    if ncmds > 1 && pipesOk >= ncmds - 1 {
      ForkFromPlan(stages, ncmds, forks, 0);
    }
  }

  /** A run fails exactly when one of the pipe() or fork() calls it makes
      fails; otherwise it returns 0, whatever the children later do. */
  lemma FailsOnlyOnSystemError(stages: seq<Stage>, ncmds: int, background: bool, cmdline: Option<string>,
                               pipesOk: nat, forks: seq<ForkOutcome>)
    requires 0 < ncmds <= |stages| && ncmds <= |forks|
    requires !(ncmds == 1 && NoCommand(stages[0].argv))
    ensures ExecutePipeline(stages, ncmds, background, cmdline, pipesOk, forks).status == -1 <==>
              (ncmds > 1 && pipesOk < ncmds - 1) || (exists k :: 0 <= k < ncmds && forks[k] == ForkFailed)
  {
    if ncmds > 1 && pipesOk >= ncmds - 1 {
      ForkFromAll(stages, ncmds, forks);
    }
  }

  /** In a pipeline that ran, pipe k joins child k to child k + 1 and no
      other child: child k is its only writer and child k + 1 its only
      reader. Input files reach only the first child and output files only
      the last. */
  lemma PipesJoinNeighbours(stages: seq<Stage>, ncmds: int, background: bool, cmdline: Option<string>,
                            pipesOk: nat, forks: seq<ForkOutcome>, k: nat)
    requires 1 < ncmds <= |stages| && ncmds <= |forks|
    requires ExecutePipeline(stages, ncmds, background, cmdline, pipesOk, forks).status == 0
    requires k < ncmds - 1
    ensures var s := ExecutePipeline(stages, ncmds, background, cmdline, pipesOk, forks).spawned;
            && |s| == ncmds
            && (forall c :: 0 <= c < |s| ==> (s[c].child.stdout == WritePipe(k) <==> c == k))
            && (forall c :: 0 <= c < |s| ==> (s[c].child.stdin == ReadPipe(k) <==> c == k + 1))
            && (forall c :: 0 <= c < |s| && s[c].child.stdin.ReadFile? ==> c == 0)
            && (forall c :: 0 <= c < |s| && s[c].child.stdout.WriteFile? ==> c == ncmds - 1)
  {
    ChildrenFollowStages(stages, ncmds, background, cmdline, pipesOk, forks);
  }

  /** A stage with nothing to run inside a pipeline is still forked and
      wired, and its child exits 0. */
  lemma EmptyStageExits(stages: seq<Stage>, ncmds: int, background: bool, cmdline: Option<string>,
                        pipesOk: nat, forks: seq<ForkOutcome>, i: nat)
    requires 1 < ncmds <= |stages| && ncmds <= |forks|
    requires ExecutePipeline(stages, ncmds, background, cmdline, pipesOk, forks).status == 0
    requires i < ncmds && NoCommand(stages[i].argv)
    ensures var s := ExecutePipeline(stages, ncmds, background, cmdline, pipesOk, forks).spawned;
            i < |s| && s[i].child.program == ExitZero
  {
    ChildrenFollowStages(stages, ncmds, background, cmdline, pipesOk, forks);
  }

  /** In the background the job recorded is the first child's pid, under
      the command line, or argv[0] for a single command and "(pipeline)"
      for several when there is no command line; in the foreground the
      parent waits for every child instead. */
  lemma BackgroundJobIsFirstChild(stages: seq<Stage>, ncmds: int, background: bool, cmdline: Option<string>,
                                  pipesOk: nat, forks: seq<ForkOutcome>)
    requires 0 < ncmds <= |stages| && ncmds <= |forks|
    requires !(ncmds == 1 && NoCommand(stages[0].argv))
    ensures var r := ExecutePipeline(stages, ncmds, background, cmdline, pipesOk, forks);
            r.status == 0 ==>
              && forks[0].Forked?
              && (background ==> r.finish == RegisterJob(forks[0].pid,
                    cmdline.GetOr(if ncmds == 1 then stages[0].argv.value[0] else "(pipeline)")))
              && (!background ==> r.finish == if ncmds == 1 then WaitFor(forks[0].pid) else WaitAny(ncmds))
  {
    ChildrenFollowStages(stages, ncmds, background, cmdline, pipesOk, forks);
  }

  /** A single command's child is planned exactly as stage 0 of a
      one-stage pipeline: its own redirections, no pipe. */
  lemma SingleCommandWiring(stages: seq<Stage>, background: bool, cmdline: Option<string>,
                            pipesOk: nat, forks: seq<ForkOutcome>)
    requires 1 <= |stages| && 1 <= |forks| && !NoCommand(stages[0].argv) && forks[0].Forked?
    ensures var r := ExecutePipeline(stages, 1, background, cmdline, pipesOk, forks);
            && r.status == 0 && r.pipesMade == 0 && |r.spawned| == 1
            && r.spawned[0].child.stdin == (if stages[0].infile.Some? then ReadFile(stages[0].infile.value) else InheritStdin)
            && r.spawned[0].child.stdout == (if stages[0].outfile.Some? then WriteFile(stages[0].outfile.value) else InheritStdout)
            && r.spawned[0].child.program == Exec(stages[0].argv.value)
  {
  }

  // ---------------------------------------------------------------------
  // The error paths leak pipes

  /** As written, a fork that fails after the pipes were created returns
      -1 without closing any of them: with two stages and the second fork
      failing, one pipe is made and none is closed. */
  lemma ForkFailureLeaksPipe(stages: seq<Stage>)
    requires |stages| == 2
    ensures var r := ExecutePipeline(stages, 2, false, None, 1, [Forked(7), ForkFailed]);
            r.status == -1 && r.pipesMade == 1 && r.pipesClosed == 0 && |r.spawned| == 1
  {
  }

  /** As written, every failure after at least one pipe was made leaves
      pipes open. */
  lemma ErrorPathsLeak(stages: seq<Stage>, ncmds: int, background: bool, cmdline: Option<string>,
                       pipesOk: nat, forks: seq<ForkOutcome>)
    requires ncmds <= |stages| && ncmds <= |forks|
    ensures var r := ExecutePipeline(stages, ncmds, background, cmdline, pipesOk, forks);
            r.status == -1 ==> r.pipesClosed == 0
  {
  }

  // ---------------------------------------------------------------------
  // Registering the job

  /** Every pipe() and fork() a background launch needs succeeds, and there
      is a command to run. */
  predicate LaunchSucceeds(stages: seq<Stage>, ncmds: int, pipesOk: nat, forks: seq<ForkOutcome>)
    requires ncmds <= |stages| && ncmds <= |forks|
  {
    && ncmds > 0
    && !(ncmds == 1 && NoCommand(stages[0].argv))
    && (ncmds == 1 || pipesOk >= ncmds - 1)
    && (forall k :: 0 <= k < ncmds ==> forks[k].Forked?)
  }

  /** The label a background job is recorded under: the command line, else
      argv[0] for a single command and "(pipeline)" for several. */
  function JobLabel(stages: seq<Stage>, ncmds: int, cmdline: Option<string>): string
    requires 0 < ncmds <= |stages| && !(ncmds == 1 && NoCommand(stages[0].argv))
  {
    cmdline.GetOr(if ncmds == 1 then stages[0].argv.value[0] else "(pipeline)")
  }

  /** A background run registers the first child's pid under the job label
      exactly when the launch succeeds, and registers nothing otherwise. */
  lemma BackgroundFinish(stages: seq<Stage>, ncmds: int, cmdline: Option<string>,
                         pipesOk: nat, forks: seq<ForkOutcome>)
    requires ncmds <= |stages| && ncmds <= |forks|
    ensures var f := ExecutePipeline(stages, ncmds, true, cmdline, pipesOk, forks).finish;
            && (LaunchSucceeds(stages, ncmds, pipesOk, forks) ==>
                  forks[0].Forked? && f == RegisterJob(forks[0].pid, JobLabel(stages, ncmds, cmdline)))
            && (!LaunchSucceeds(stages, ncmds, pipesOk, forks) ==> !f.RegisterJob?)
  {
    if ncmds > 0 && !(ncmds == 1 && NoCommand(stages[0].argv)) {
      FailsOnlyOnSystemError(stages, ncmds, true, cmdline, pipesOk, forks);
      BackgroundJobIsFirstChild(stages, ncmds, true, cmdline, pipesOk, forks);
    }
  }

  /** A background pipeline run with the corrected error paths, followed by
      add_job on the table: when the launch succeeds the table is add_job's
      result for the first child's pid and the job label, and otherwise it
      is unchanged. */
  function LaunchInBackground(table: Table, stages: seq<Stage>, ncmds: int, cmdline: Option<string>,
                              pipesOk: nat, forks: seq<ForkOutcome>): (r: (Run, Table))
    requires Valid(table) && ncmds <= |stages| && ncmds <= |forks|
    ensures Valid(r.1)
    ensures r.0 == ExecutePipelineReleasing(stages, ncmds, true, cmdline, pipesOk, forks)
    ensures LaunchSucceeds(stages, ncmds, pipesOk, forks) ==>
              forks[0].Forked? && r.1 == AddJob(table, forks[0].pid, Some(JobLabel(stages, ncmds, cmdline))).0
    ensures !LaunchSucceeds(stages, ncmds, pipesOk, forks) ==> r.1 == table
  {
    var run := ExecutePipelineReleasing(stages, ncmds, true, cmdline, pipesOk, forks);
    BackgroundFinish(stages, ncmds, cmdline, pipesOk, forks);
    match run.finish
    case RegisterJob(pid, command) => (run, AddJob(table, pid, Some(command)).0)
    case _ => (run, table)
  }

  /** After a successful background launch into a table with a free slot,
      the first child's pid is listed as a job under the job label. */
  lemma LaunchedJobListed(table: Table, stages: seq<Stage>, ncmds: int, cmdline: Option<string>,
                          pipesOk: nat, forks: seq<ForkOutcome>)
    requires Valid(table) && ncmds <= |stages| && ncmds <= |forks|
    requires LaunchSucceeds(stages, ncmds, pipesOk, forks)
    requires exists i :: 0 <= i < |table| && !Occupied(table, i)
    ensures forks[0].Forked?
    ensures Job(forks[0].pid, JobLabel(stages, ncmds, cmdline))
              in ListJobs(LaunchInBackground(table, stages, ncmds, cmdline, pipesOk, forks).1)
  {
    assert forks[0].Forked?;
    AddedJobListed(table, forks[0].pid, Some(JobLabel(stages, ncmds, cmdline)));
  }
}
