/**
 * The post-install test runner: for every plugin directory it looks for exactly one
 * `run_api_tests.py` below it and runs it from that script's directory; the first
 * failing test script ends the program with its exit status.
 */
module PostInstallTests {
  import opened Results
  import opened Host

  /** `glob.glob` and `os.path.dirname` stand in as functions; `runIn` is the outcome of
      running a command line in a working directory. */
  datatype Context = Context(
    home: string, interpreter: string,
    glob: string -> seq<string>, dirname: string -> string,
    runIn: (seq<string>, string) -> Launch)

  /** A test script launch: the command line and its working directory. */
  datatype TestRun = TestRun(argv: seq<string>, cwd: string)

  datatype LoopState = LoopState(
    ran: seq<TestRun>,
    untested: seq<string>,      // plugins with no run_api_tests.py (warning)
    ambiguous: seq<string>,     // plugins with several (error message, skipped)
    stopped: Option<int>)

  function Pattern(ctx: Context, plugin: string): string {
    ctx.home + "/" + plugin + "/**/run_api_tests.py"
  }

  /** The status a test launch leaves the program with: the script's exit code, or 1 for
      the uncaught exception when the interpreter cannot be started. */
  function Status(l: Launch): (s: int)
    ensures Succeeded(l) <==> s == 0
  {
    if l.Exited? then l.code else 1
  }

  /** What running `run` gives. */
  function Outcome(ctx: Context, run: TestRun): Launch {
    ctx.runIn(run.argv, run.cwd)
  }

  function Step(st: LoopState, tree: Tree, name: string, ctx: Context): LoopState {
    if st.stopped.Some? || name == "include" || name !in tree || !tree[name].Dir? then st
    else
      var matches := ctx.glob(Pattern(ctx, name));
      if |matches| == 0 then st.(untested := st.untested + [name])
      else if |matches| > 1 then st.(ambiguous := st.ambiguous + [name])
      else
        var run := TestRun([ctx.interpreter, matches[0]], ctx.dirname(matches[0]));
        var ran := st.ran + [run];
        match ctx.runIn(run.argv, run.cwd)
        case Exited(code) => st.(ran := ran, stopped := if code == 0 then None else Some(code))
        case LaunchFailed(_) => st.(ran := ran, stopped := Some(1))
  }

  function Loop(tree: Tree, names: seq<string>, ctx: Context): LoopState
    decreases |names|
  {
    if |names| == 0 then LoopState([], [], [], None)
    else Step(Loop(tree, names[..|names| - 1], ctx), tree, names[|names| - 1], ctx)
  }

  method RunPluginTests(tree: Tree, listing: seq<string>, ctx: Context) returns (st: LoopState)
    ensures st == Loop(tree, listing, ctx)
  {
    st := LoopState([], [], [], None);
    var i := 0;
    while i < |listing|
      invariant 0 <= i <= |listing|
      invariant st == Loop(tree, listing[..i], ctx)
      invariant st.stopped.None?
    {
      var name := listing[i];
      assert listing[..i + 1][..i] == listing[..i];
      if name == "include" || name !in tree || !tree[name].Dir? {
        i := i + 1;
        continue;
      }
      var matches := ctx.glob(Pattern(ctx, name));
      if |matches| == 0 {
        st := st.(untested := st.untested + [name]);
        i := i + 1;
        continue;
      }
      if |matches| > 1 {
        st := st.(ambiguous := st.ambiguous + [name]);
        i := i + 1;
        continue;
      }
      var script := matches[0];
      var dir := ctx.dirname(script);
      var outcome := ctx.runIn([ctx.interpreter, script], dir);
      st := st.(ran := st.ran + [TestRun([ctx.interpreter, script], dir)]);
      if !Succeeded(outcome) {
        st := st.(stopped := Some(Status(outcome)));
        StoppedStaysStopped(tree, listing[..i + 1], listing[i + 1..], ctx);
        assert listing[..i + 1] + listing[i + 1..] == listing;
        return;
      }
      i := i + 1;
    }
    assert listing[..|listing|] == listing;
  }

  /** After the first failing test script no further plugin is examined. */
  lemma {:induction false} StoppedStaysStopped(tree: Tree, names: seq<string>, rest: seq<string>, ctx: Context)
    requires Loop(tree, names, ctx).stopped.Some?
    ensures Loop(tree, names + rest, ctx) == Loop(tree, names, ctx)
    decreases |rest|
  {
    if |rest| > 0 {
      var front := rest[..|rest| - 1];
      assert (names + rest)[..|names + rest| - 1] == names + front;
      assert (names + rest)[|names + rest| - 1] == rest[|rest| - 1];
      assert Loop(tree, names + rest, ctx) == Step(Loop(tree, names + front, ctx), tree, rest[|rest| - 1], ctx);
      StoppedStaysStopped(tree, names, front, ctx);
    } else {
      assert names + rest == names;
    }
  }

  /** `run` is the launch of the single test script of plugin directory `n`, from that
      script's own directory. */
  predicate IsTestRunOf(tree: Tree, ctx: Context, n: string, run: TestRun) {
    && n != "include" && n in tree && tree[n].Dir?
    && |ctx.glob(Pattern(ctx, n))| == 1
    && run == TestRun([ctx.interpreter, ctx.glob(Pattern(ctx, n))[0]], ctx.dirname(ctx.glob(Pattern(ctx, n))[0]))
  }

  /** Every launch runs the single test script of some listed plugin directory other than
      `include`, from that script's own directory. */
  lemma {:induction false} OnlyUniqueScriptsRun(tree: Tree, names: seq<string>, ctx: Context)
    ensures forall run :: run in Loop(tree, names, ctx).ran ==>
      exists n :: n in names && IsTestRunOf(tree, ctx, n, run)
    decreases |names|
  {
    if |names| > 0 {
      var front := names[..|names| - 1];
      var n := names[|names| - 1];
      OnlyUniqueScriptsRun(tree, front, ctx);
      var st := Loop(tree, front, ctx);
      var st' := Loop(tree, names, ctx);
      assert st' == Step(st, tree, n, ctx);
      assert st'.ran == st.ran || exists r :: st'.ran == st.ran + [r] && IsTestRunOf(tree, ctx, n, r);
      forall run | run in st'.ran
        ensures exists m :: m in names && IsTestRunOf(tree, ctx, m, run)
      {
        if run in st.ran {
          var m :| m in front && IsTestRunOf(tree, ctx, m, run);
          assert m in names;
        } else {
          assert n in names && IsTestRunOf(tree, ctx, n, run);
        }
      }
    } else {
      assert Loop(tree, names, ctx).ran == [];
    }
  }

  /** A plugin without a test script, or with several, is reported and never fails the run. */
  lemma SkippedPluginsNeverFail(st: LoopState, tree: Tree, name: string, ctx: Context)
    requires st.stopped.None?
    requires |ctx.glob(Pattern(ctx, name))| != 1
    ensures Step(st, tree, name, ctx).stopped.None?
    ensures Step(st, tree, name, ctx).ran == st.ran
  {
  }

  /** The runner stops exactly at the first failing launch: while it goes on every launch
      succeeded; once stopped, the launches before the last one succeeded and the stop
      holds the last launch's status, which is non-zero. */
  lemma {:induction false} StopIsFirstFailure(tree: Tree, names: seq<string>, ctx: Context)
    ensures var st := Loop(tree, names, ctx);
      && (st.stopped.None? ==> forall j :: 0 <= j < |st.ran| ==> Succeeded(Outcome(ctx, st.ran[j])))
      && (st.stopped.Some? ==>
            && |st.ran| > 0
            && st.stopped.value == Status(Outcome(ctx, st.ran[|st.ran| - 1]))
            && st.stopped.value != 0
            && forall j :: 0 <= j < |st.ran| - 1 ==> Succeeded(Outcome(ctx, st.ran[j])))
    decreases |names|
  {
    if |names| > 0 {
      var front := names[..|names| - 1];
      StopIsFirstFailure(tree, front, ctx);
      var st := Loop(tree, front, ctx);
      var st' := Loop(tree, names, ctx);
      assert st' == Step(st, tree, names[|names| - 1], ctx);
      if st'.ran != st.ran {
        assert st.stopped.None?;
        assert st'.ran[..|st.ran|] == st.ran;
      }
    } else {
      assert Loop(tree, names, ctx).ran == [];
    }
  }

  /** Launches are only ever appended: a longer listing extends the launches of a shorter one. */
  lemma {:induction false} RanGrows(tree: Tree, names: seq<string>, rest: seq<string>, ctx: Context)
    ensures Loop(tree, names, ctx).ran <= Loop(tree, names + rest, ctx).ran
    decreases |rest|
  {
    if |rest| > 0 {
      var front := rest[..|rest| - 1];
      assert (names + rest)[..|names + rest| - 1] == names + front;
      assert (names + rest)[|names + rest| - 1] == rest[|rest| - 1];
      assert Loop(tree, names + rest, ctx) == Step(Loop(tree, names + front, ctx), tree, rest[|rest| - 1], ctx);
      RanGrows(tree, names, front, ctx);
    } else {
      assert names + rest == names;
    }
  }

  /** A plugin directory reached before any failure, with exactly one test script, has that
      script run from the script's own directory. */
  lemma ReachedScriptRuns(tree: Tree, names: seq<string>, ctx: Context, i: int)
    requires 0 <= i < |names|
    requires Loop(tree, names[..i], ctx).stopped.None?
    requires names[i] != "include" && names[i] in tree && tree[names[i]].Dir?
    requires |ctx.glob(Pattern(ctx, names[i]))| == 1
    ensures var script := ctx.glob(Pattern(ctx, names[i]))[0];
      TestRun([ctx.interpreter, script], ctx.dirname(script)) in Loop(tree, names, ctx).ran
  {
    var script := ctx.glob(Pattern(ctx, names[i]))[0];
    var run := TestRun([ctx.interpreter, script], ctx.dirname(script));
    assert names[..i + 1][..i] == names[..i];
    assert Loop(tree, names[..i + 1], ctx).ran == Loop(tree, names[..i], ctx).ran + [run];
    RanGrows(tree, names[..i + 1], names[i + 1..], ctx);
    assert names[..i + 1] + names[i + 1..] == names;
  }

  /** Exit status of the program: KeyError (1) for a missing METAFFI_HOME and
      FileNotFoundError (1) for a missing install root; otherwise the status of the
      first failing test script, or 0 once every plugin was handled. */
  method RunPostInstallTests(
    env: map<string, string>, abspath: string -> string, interpreter: string,
    root: Option<Tree>, listing: seq<string>,
    glob: string -> seq<string>, dirname: string -> string, runIn: (seq<string>, string) -> Launch)
    returns (exitCode: int, st: LoopState)
    ensures "METAFFI_HOME" !in env || root.None? ==> exitCode == 1 && st == LoopState([], [], [], None)
    ensures "METAFFI_HOME" in env && root.Some? ==>
      && st == Loop(root.value, listing, Context(abspath(env["METAFFI_HOME"]), interpreter, glob, dirname, runIn))
      && exitCode == (if st.stopped.Some? then st.stopped.value else 0)
      && (exitCode != 0 <==> st.stopped.Some?)
      && (exitCode == 0 ==> forall run :: run in st.ran ==> Succeeded(runIn(run.argv, run.cwd)))
      && (exitCode != 0 ==> |st.ran| > 0 && exitCode == Status(runIn(st.ran[|st.ran| - 1].argv, st.ran[|st.ran| - 1].cwd)))
  {
    if "METAFFI_HOME" !in env || root.None? {
      return 1, LoopState([], [], [], None);
    }
    var ctx := Context(abspath(env["METAFFI_HOME"]), interpreter, glob, dirname, runIn);
    st := RunPluginTests(root.value, listing, ctx);
    StopIsFirstFailure(root.value, listing, ctx);
    exitCode := if st.stopped.Some? then st.stopped.value else 0;
  }
}
