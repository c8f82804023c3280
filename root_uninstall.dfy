/**
 * The root uninstaller: walks the plugins under METAFFI_HOME, runs each plugin's
 * uninstaller, collects failures instead of stopping, then removes METAFFI_HOME from
 * the environment and deletes the install root.  Exit status 1 when METAFFI_HOME is
 * not set, 3 when some plugin failed, 0 otherwise.
 */
module RootUninstall {
  import opened Results
  import opened Text
  import opened Host
  import opened Uninstallers

  /** One entry of `plugin_failures`. */
  datatype Failure =
    | UninstallerExit(plugin: string, code: int)   // CalledProcessError
    | UninstallError(plugin: string, reason: string)   // any other exception

  /** What the plugin loop works with: the absolute install root, the interpreter
      (`sys.executable`), and the outcome of each command line. */
  datatype Context = Context(platform: Platform, home: string, interpreter: string, run: seq<string> -> Launch)

  /** The loop's state: the remaining root entries, the failures so far and the
      command lines launched so far. */
  datatype LoopState = LoopState(tree: Tree, failures: seq<Failure>, launched: seq<seq<string>>)

  function PluginPath(ctx: Context, plugin: string, file: string): string {
    PathJoin(ctx.platform, PathJoin(ctx.platform, ctx.home, plugin), file)
  }

  /** One iteration of the plugin loop for entry `name`. */
  function Step(st: LoopState, name: string, ctx: Context): LoopState {
    if name == "include" || name !in st.tree || !st.tree[name].Dir? then st
    else
      match Selected(ctx.platform, st.tree[name].files)
      case None => st.(tree := st.tree - {name})
      case Some(c) =>
        match CommandFor(ctx.platform, c.kind, PluginPath(ctx, name, c.file), ctx.interpreter)
        case Err(msg) => st.(failures := st.failures + [UninstallError(name, msg)])
        case Ok(argv) =>
          var launched := st.launched + [argv];
          match ctx.run(argv)
          case Exited(code) =>
            if code == 0 then LoopState(st.tree - {name}, st.failures, launched)
            else LoopState(st.tree, st.failures + [UninstallerExit(name, code)], launched)
          case LaunchFailed(reason) =>
            LoopState(st.tree, st.failures + [UninstallError(name, reason)], launched)
  }

  /** The plugin loop over the listing `names`, in order. */
  function Loop(tree: Tree, names: seq<string>, ctx: Context): LoopState
    decreases |names|
  {
    if |names| == 0 then LoopState(tree, [], [])
    else Step(Loop(tree, names[..|names| - 1], ctx), names[|names| - 1], ctx)
  }

  /** The plugin loop as the script runs it. */
  method UninstallPlugins(tree: Tree, listing: seq<string>, ctx: Context) returns (st: LoopState)
    ensures st == Loop(tree, listing, ctx)
  {
    st := LoopState(tree, [], []);
    var i := 0;
    while i < |listing|
      invariant 0 <= i <= |listing|
      invariant st == Loop(tree, listing[..i], ctx)
    {
      var name := listing[i];
      assert listing[..i + 1][..i] == listing[..i];
      if name == "include" || name !in st.tree || !st.tree[name].Dir? {
        i := i + 1;
        continue;
      }
      var sel := SelectUninstaller(ctx.platform, st.tree[name].files);
      match sel {
        case None =>
          st := st.(tree := st.tree - {name});
        case Some(c) =>
          var cmd := CommandFor(ctx.platform, c.kind, PluginPath(ctx, name, c.file), ctx.interpreter);
          match cmd {
            case Err(msg) =>
              st := st.(failures := st.failures + [UninstallError(name, msg)]);
            case Ok(argv) =>
              var outcome := ctx.run(argv);
              st := st.(launched := st.launched + [argv]);
              match outcome {
                case Exited(code) =>
                  if code == 0 {
                    st := st.(tree := st.tree - {name});
                  } else {
                    st := st.(failures := st.failures + [UninstallerExit(name, code)]);
                  }
                case LaunchFailed(reason) =>
                  st := st.(failures := st.failures + [UninstallError(name, reason)]);
              }
          }
      }
      i := i + 1;
    }
    assert listing[..|listing|] == listing;
  }

  // ----- An independent account of the loop, entry by entry -----

  /** What happens to the plugin directory `name` of the original root. */
  datatype PluginOutcome =
    | Skipped                              // `include`, not a directory, or not present
    | RemovedWithoutUninstaller
    | Uninstalled(argv: seq<string>)       // uninstaller succeeded, directory removed
    | Failed(attempted: Option<seq<string>>, failure: Failure)   // directory left in place

  function Classify(tree: Tree, name: string, ctx: Context): PluginOutcome {
    if name == "include" || name !in tree || !tree[name].Dir? then Skipped
    else
      match Selected(ctx.platform, tree[name].files)
      case None => RemovedWithoutUninstaller
      case Some(c) =>
        match CommandFor(ctx.platform, c.kind, PluginPath(ctx, name, c.file), ctx.interpreter)
        case Err(msg) => Failed(None, UninstallError(name, msg))
        case Ok(argv) =>
          match ctx.run(argv)
          case Exited(code) =>
            if code == 0 then Uninstalled(argv) else Failed(Some(argv), UninstallerExit(name, code))
          case LaunchFailed(reason) => Failed(Some(argv), UninstallError(name, reason))
  }

  predicate Removes(o: PluginOutcome) {
    o.RemovedWithoutUninstaller? || o.Uninstalled?
  }

  /** The failures of the listed plugins, one per failing plugin, in listing order. */
  function FailuresOf(tree: Tree, names: seq<string>, ctx: Context): seq<Failure>
    decreases |names|
  {
    if |names| == 0 then []
    else
      var o := Classify(tree, names[|names| - 1], ctx);
      FailuresOf(tree, names[..|names| - 1], ctx) + (if o.Failed? then [o.failure] else [])
  }

  /** The command lines launched, one per plugin that had an uninstaller, in listing order. */
  function LaunchesOf(tree: Tree, names: seq<string>, ctx: Context): seq<seq<string>>
    decreases |names|
  {
    if |names| == 0 then []
    else
      var o := Classify(tree, names[|names| - 1], ctx);
      LaunchesOf(tree, names[..|names| - 1], ctx) +
        (if o.Uninstalled? then [o.argv] else if o.Failed? && o.attempted.Some? then [o.attempted.value] else [])
  }

  /** The listed entries that the loop deletes. */
  function RemovedNames(tree: Tree, names: seq<string>, ctx: Context): set<string> {
    set n | n in names && Removes(Classify(tree, n, ctx))
  }

  /** Failure isolation: on a listing without repetitions, every plugin is handled on its
      own — the loop records exactly one failure per failing plugin, in listing order,
      launches exactly the selected uninstallers, and deletes exactly the plugins that
      had no uninstaller or whose uninstaller succeeded; a failing plugin's directory
      is left in place. */
  lemma {:induction false} LoopIsPerPlugin(tree: Tree, names: seq<string>, ctx: Context)
    requires NoDuplicates(names)
    ensures Loop(tree, names, ctx).failures == FailuresOf(tree, names, ctx)
    ensures Loop(tree, names, ctx).launched == LaunchesOf(tree, names, ctx)
    ensures Loop(tree, names, ctx).tree == tree - RemovedNames(tree, names, ctx)
    decreases |names|
  {
    if |names| > 0 {
      var front := names[..|names| - 1];
      var n := names[|names| - 1];
      assert NoDuplicates(front);
      LoopIsPerPlugin(tree, front, ctx);
      assert n !in front;
      var st := Loop(tree, front, ctx);
      var removed := RemovedNames(tree, front, ctx);
      assert n !in removed;
      assert (n in st.tree) == (n in tree);
      assert n in tree ==> st.tree[n] == tree[n];
      StepIsClassified(st, tree, n, ctx);
      assert forall m :: m in names <==> m in front || m == n;
      var o := Classify(tree, n, ctx);
      if Removes(o) {
        assert RemovedNames(tree, names, ctx) == removed + {n};
        assert st.tree - {n} == tree - (removed + {n});
      } else {
        assert RemovedNames(tree, names, ctx) == removed;
      }
    }
  }

  /** One iteration, in terms of what `Classify` says about the entry in the original
      root, provided the entry is still as it was there. */
  lemma StepIsClassified(st: LoopState, tree: Tree, n: string, ctx: Context)
    requires (n in st.tree) == (n in tree)
    requires n in tree ==> st.tree[n] == tree[n]
    ensures var o := Classify(tree, n, ctx);
      && Step(st, n, ctx).tree == (if Removes(o) then st.tree - {n} else st.tree)
      && Step(st, n, ctx).failures == st.failures + (if o.Failed? then [o.failure] else [])
      && Step(st, n, ctx).launched == st.launched +
           (if o.Uninstalled? then [o.argv] else if o.Failed? && o.attempted.Some? then [o.attempted.value] else [])
  {
  }

  /** The `include` entry and every non-directory entry come out of the loop unchanged,
      whatever the listing. */
  lemma {:induction false} LoopKeepsIncludeAndFiles(tree: Tree, names: seq<string>, ctx: Context, k: string)
    requires k in tree && (k == "include" || tree[k].File?)
    ensures k in Loop(tree, names, ctx).tree && Loop(tree, names, ctx).tree[k] == tree[k]
    decreases |names|
  {
    if |names| > 0 {
      LoopKeepsIncludeAndFiles(tree, names[..|names| - 1], ctx, k);
    }
  }

  /** A failing plugin adds exactly one failure, and the loop goes on: the remaining
      entries are processed exactly as if the failure had not happened. */
  lemma FailureAddsOne(tree: Tree, names: seq<string>, ctx: Context, n: string)
    requires NoDuplicates(names + [n])
    requires Classify(tree, n, ctx).Failed?
    ensures |Loop(tree, names + [n], ctx).failures| == |Loop(tree, names, ctx).failures| + 1
    ensures n in Loop(tree, names + [n], ctx).tree
  {
    var all := names + [n];
    assert all[..|all| - 1] == names;
    assert NoDuplicates(names);
    LoopIsPerPlugin(tree, all, ctx);
    LoopIsPerPlugin(tree, names, ctx);
    assert n !in RemovedNames(tree, all, ctx);
  }

  // ----- The whole script -----

  /** What the program leaves behind. `tree` is None once the install root is deleted;
      `userEnv` is the per-user environment `SysEnv` edits, `machineEnv` the machine-wide
      Windows environment, `profile` the lines of `~/.profile`. */
  datatype Report = Report(
    exitCode: int,
    tree: Option<Tree>,
    userEnv: map<string, string>,
    machineEnv: map<string, string>,
    profile: seq<string>,
    failures: seq<Failure>,
    launched: seq<seq<string>>)

  predicate HomeSet(env: map<string, string>) {
    "METAFFI_HOME" in env && env["METAFFI_HOME"] != ""
  }

  /**
   * The root uninstaller. `root` is None when METAFFI_HOME names no directory (then
   * `os.listdir` raises); `listing` is the order `os.listdir` returns; `unsetOk` says
   * whether `SysEnv().unset` returned normally; `powershell` is what the Windows call
   * clearing the machine variable did.
   */
  method RunRootUninstaller(
    env: map<string, string>, abspath: string -> string, platform: Platform, interpreter: string,
    root: Option<Tree>, listing: seq<string>, run: seq<string> -> Launch,
    userEnv: map<string, string>, machineEnv: map<string, string>, profile: seq<string>,
    unsetOk: bool, powershell: Launch)
    returns (r: Report)
    ensures !HomeSet(env) || root.None? ==>
      r == Report(1, root, userEnv, machineEnv, profile, [], [])
    ensures HomeSet(env) && root.Some? ==>
      var st := Loop(root.value, listing, Context(platform, abspath(env["METAFFI_HOME"]), interpreter, run));
      && r.failures == st.failures
      && r.launched == st.launched
      && r.userEnv == (if unsetOk then userEnv - {"METAFFI_HOME"} else userEnv)
      && (if platform == Windows && !Succeeded(powershell) then
            r.exitCode == 1 && r.tree == Some(st.tree) && r.machineEnv == machineEnv && r.profile == profile
          else
            && r.tree.None?
            && r.exitCode == (if |st.failures| > 0 then 3 else 0)
            && r.machineEnv == (if platform == Windows then machineEnv - {"METAFFI_HOME"} else machineEnv)
            && r.profile == (if platform == Linux then DropLinesContaining(profile, "METAFFI_HOME") else profile))
  {
    if !HomeSet(env) {
      return Report(1, root, userEnv, machineEnv, profile, [], []);
    }
    var home := abspath(env["METAFFI_HOME"]);
    if root.None? {
      return Report(1, root, userEnv, machineEnv, profile, [], []);
    }
    var ctx := Context(platform, home, interpreter, run);
    var st := UninstallPlugins(root.value, listing, ctx);
    var newUserEnv := if unsetOk then userEnv - {"METAFFI_HOME"} else userEnv;
    var newMachineEnv := machineEnv;
    var newProfile := profile;
    if platform == Windows {
      if !Succeeded(powershell) {
        return Report(1, Some(st.tree), newUserEnv, machineEnv, profile, st.failures, st.launched);
      }
      newMachineEnv := machineEnv - {"METAFFI_HOME"};
    }
    if platform == Linux {
      newProfile := DropLinesContaining(profile, "METAFFI_HOME");
    }
    var code := if |st.failures| > 0 then 3 else 0;
    r := Report(code, None, newUserEnv, newMachineEnv, newProfile, st.failures, st.launched);
  }

  /** Exit status 3 exactly when some listed plugin failed (for a listing without
      repetitions and a completed teardown). */
  lemma ExitThreeIffSomePluginFailed(tree: Tree, listing: seq<string>, ctx: Context)
    requires NoDuplicates(listing)
    ensures |Loop(tree, listing, ctx).failures| > 0 <==>
      exists i :: 0 <= i < |listing| && Classify(tree, listing[i], ctx).Failed?
  {
    LoopIsPerPlugin(tree, listing, ctx);
    FailuresOfEmpty(tree, listing, ctx);
  }

  lemma {:induction false} FailuresOfEmpty(tree: Tree, names: seq<string>, ctx: Context)
    ensures |FailuresOf(tree, names, ctx)| == 0 <==>
      forall i :: 0 <= i < |names| ==> !Classify(tree, names[i], ctx).Failed?
    decreases |names|
  {
    if |names| > 0 {
      var front := names[..|names| - 1];
      var last := Classify(tree, names[|names| - 1], ctx);
      assert FailuresOf(tree, names, ctx) == FailuresOf(tree, front, ctx) + (if last.Failed? then [last.failure] else []);
      FailuresOfEmpty(tree, front, ctx);
      assert forall i :: 0 <= i < |front| ==> front[i] == names[i];
    }
  }
}
