/**
 * The older uninstaller: each plugin may ship `uninstall_plugin.py`; the first one
 * that fails ends the whole program with its exit status, leaving the remaining
 * plugins, the environment and the install root in place.
 */
module LegacyUninstall {
  import opened Results
  import opened Text
  import opened Host

  const Script := "uninstall_plugin.py"

  /** Loop state: the remaining root entries, the scripts launched, and the exit status
      the program stopped with, if it stopped inside the loop. */
  datatype LoopState = LoopState(tree: Tree, launched: seq<string>, stopped: Option<int>)

  datatype Context = Context(platform: Platform, home: string, run: seq<string> -> Launch)

  function ScriptPath(ctx: Context, plugin: string): string {
    PathJoin(ctx.platform, PathJoin(ctx.platform, ctx.home, plugin), Script)
  }

  predicate HasScript(tree: Tree, name: string) {
    name in tree && tree[name].Dir? && Script in tree[name].files
  }

  /** `shutil.rmtree(path, ignore_errors=True)`: removes a directory; a plain file, or a
      missing entry, is left as it is. */
  function RemoveTree(tree: Tree, name: string): (r: Tree)
    ensures name in tree && tree[name].File? ==> r == tree
    ensures name !in r || r[name].File?
    ensures forall k :: k in tree && k != name ==> k in r && r[k] == tree[k]
    ensures forall k :: k in r ==> k in tree
  {
    if name in tree && tree[name].Dir? then tree - {name} else tree
  }

  function Step(st: LoopState, name: string, ctx: Context): LoopState {
    if st.stopped.Some? || name == "include" then st
    else if !HasScript(st.tree, name) then st.(tree := RemoveTree(st.tree, name))
    else
      var path := ScriptPath(ctx, name);
      var launched := st.launched + [path];
      match ctx.run([path])
      case Exited(code) =>
        if code == 0 then LoopState(RemoveTree(st.tree, name), launched, None)
        else LoopState(st.tree, launched, Some(code))   // sys.exit(returncode)
      case LaunchFailed(_) => LoopState(st.tree, launched, Some(1))   // uncaught exception
  }

  function Loop(tree: Tree, names: seq<string>, ctx: Context): LoopState
    decreases |names|
  {
    if |names| == 0 then LoopState(tree, [], None)
    else Step(Loop(tree, names[..|names| - 1], ctx), names[|names| - 1], ctx)
  }

  /** The plugin loop; it returns as soon as an uninstaller fails. */
  method UninstallPlugins(tree: Tree, listing: seq<string>, ctx: Context) returns (st: LoopState)
    ensures st == Loop(tree, listing, ctx)
  {
    st := LoopState(tree, [], None);
    var i := 0;
    while i < |listing|
      invariant 0 <= i <= |listing|
      invariant st == Loop(tree, listing[..i], ctx)
      invariant st.stopped.None?
    {
      var name := listing[i];
      LoopPrefixStep(tree, listing, i, ctx);
      if name == "include" {
        i := i + 1;
        continue;
      }
      if !HasScript(st.tree, name) {
        st := st.(tree := RemoveTree(st.tree, name));
        i := i + 1;
        continue;
      }
      var path := ScriptPath(ctx, name);
      var outcome := ctx.run([path]);
      st := st.(launched := st.launched + [path]);
      match outcome {
        case Exited(code) =>
          if code != 0 {
            st := st.(stopped := Some(code));
            StoppedAtPrefix(tree, listing, i, ctx);
            return;
          }
          st := st.(tree := RemoveTree(st.tree, name));
        case LaunchFailed(_) =>
          st := st.(stopped := Some(1));
          StoppedAtPrefix(tree, listing, i, ctx);
          return;
      }
      i := i + 1;
    }
    assert listing[..|listing|] == listing;
  }

  /** One more entry of the listing is one more step of the loop. */
  lemma LoopPrefixStep(tree: Tree, listing: seq<string>, i: nat, ctx: Context)
    requires i < |listing|
    ensures Loop(tree, listing[..i + 1], ctx) == Step(Loop(tree, listing[..i], ctx), listing[i], ctx)
  {
    assert listing[..i + 1][..i] == listing[..i];
  }

  /** A loop that stopped after entry `i` ends in that state. */
  lemma StoppedAtPrefix(tree: Tree, listing: seq<string>, i: nat, ctx: Context)
    requires i < |listing|
    requires Loop(tree, listing[..i + 1], ctx).stopped.Some?
    ensures Loop(tree, listing, ctx) == Loop(tree, listing[..i + 1], ctx)
  {
    StoppedStaysStopped(tree, listing[..i + 1], listing[i + 1..], ctx);
    assert listing[..i + 1] + listing[i + 1..] == listing;
  }

  /** Once an uninstaller has failed, no later entry is looked at: the state is final. */
  lemma {:induction false} StoppedStaysStopped(tree: Tree, names: seq<string>, rest: seq<string>, ctx: Context)
    requires Loop(tree, names, ctx).stopped.Some?
    ensures Loop(tree, names + rest, ctx) == Loop(tree, names, ctx)
    decreases |rest|
  {
    if |rest| > 0 {
      var front := rest[..|rest| - 1];
      assert (names + rest)[..|names + rest| - 1] == names + front;
      assert (names + rest)[|names + rest| - 1] == rest[|rest| - 1];
      assert Loop(tree, names + rest, ctx) == Step(Loop(tree, names + front, ctx), rest[|rest| - 1], ctx);
      StoppedStaysStopped(tree, names, front, ctx);
    } else {
      assert names + rest == names;
    }
  }

  /** After a loop that did not stop, every listed directory except `include` is gone,
      while `include` and plain files remain as they were. */
  lemma {:induction false} CompletedLoopRemovesPlugins(tree: Tree, names: seq<string>, ctx: Context)
    requires Loop(tree, names, ctx).stopped.None?
    ensures forall n :: n in names && n != "include" && n in tree && tree[n].Dir? ==>
      n !in Loop(tree, names, ctx).tree
    ensures forall k :: k in tree && (k == "include" || tree[k].File?) ==>
      k in Loop(tree, names, ctx).tree && Loop(tree, names, ctx).tree[k] == tree[k]
    ensures forall k :: k in Loop(tree, names, ctx).tree ==> k in tree && Loop(tree, names, ctx).tree[k] == tree[k]
    decreases |names|
  {
    if |names| > 0 {
      var front := names[..|names| - 1];
      assert Loop(tree, front, ctx).stopped.None?;
      CompletedLoopRemovesPlugins(tree, front, ctx);
      assert forall n :: n in names ==> n in front || n == names[|names| - 1];
    }
  }

  /** What the program leaves behind; `tree` is None once the install root is deleted. */
  datatype Report = Report(
    exitCode: int,
    tree: Option<Tree>,
    userEnv: map<string, string>,
    machineEnv: map<string, string>,
    profile: seq<string>,
    launched: seq<string>)

  /**
   * The older uninstaller. A missing METAFFI_HOME raises KeyError (exit status 1);
   * `root` is None when the path names no directory. `unsetOk` says whether
   * `SysEnv().unset` returned normally: here its exception is not caught.
   */
  method RunLegacyUninstaller(
    env: map<string, string>, abspath: string -> string, platform: Platform,
    root: Option<Tree>, listing: seq<string>, run: seq<string> -> Launch,
    userEnv: map<string, string>, machineEnv: map<string, string>, profile: seq<string>,
    unsetOk: bool, powershell: Launch)
    returns (r: Report)
    ensures "METAFFI_HOME" !in env || root.None? ==> r == Report(1, root, userEnv, machineEnv, profile, [])
    ensures "METAFFI_HOME" in env && root.Some? ==>
      var st := Loop(root.value, listing, Context(platform, abspath(env["METAFFI_HOME"]), run));
      && r.launched == st.launched
      && (st.stopped.Some? ==>
            r == Report(st.stopped.value, Some(st.tree), userEnv, machineEnv, profile, st.launched))
      && (st.stopped.None? && !unsetOk ==>
            r == Report(1, Some(st.tree), userEnv, machineEnv, profile, st.launched))
      && (st.stopped.None? && unsetOk ==>
            r.userEnv == userEnv - {"METAFFI_HOME"} &&
            if platform == Windows && !Succeeded(powershell) then
              r == Report(1, Some(st.tree), userEnv - {"METAFFI_HOME"}, machineEnv, profile, st.launched)
            else
              && r.exitCode == 0 && r.tree.None?
              && r.machineEnv == (if platform == Windows then machineEnv - {"METAFFI_HOME"} else machineEnv)
              && r.profile == (if platform == Linux then DropLinesContaining(profile, "METAFFI_HOME") else profile))
  {
    if "METAFFI_HOME" !in env || root.None? {
      return Report(1, root, userEnv, machineEnv, profile, []);
    }
    var ctx := Context(platform, abspath(env["METAFFI_HOME"]), run);
    var st := UninstallPlugins(root.value, listing, ctx);
    if st.stopped.Some? {
      return Report(st.stopped.value, Some(st.tree), userEnv, machineEnv, profile, st.launched);
    }
    if !unsetOk {
      return Report(1, Some(st.tree), userEnv, machineEnv, profile, st.launched);
    }
    var newUserEnv := userEnv - {"METAFFI_HOME"};
    var newMachineEnv := machineEnv;
    var newProfile := profile;
    if platform == Windows {
      if !Succeeded(powershell) {
        return Report(1, Some(st.tree), newUserEnv, machineEnv, profile, st.launched);
      }
      newMachineEnv := machineEnv - {"METAFFI_HOME"};
    }
    if platform == Linux {
      newProfile := DropLinesContaining(profile, "METAFFI_HOME");
    }
    r := Report(0, None, newUserEnv, newMachineEnv, newProfile, st.launched);
  }
}
