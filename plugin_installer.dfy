/**
 * The generated plugin installer: how the command line selects an action, the
 * ordered steps of `install`, the `uninstall` action, and the exit status of `main`.
 */
module PluginInstaller {
  import opened Results
  import opened Host
  import opened Uninstallers
  import Base64

  datatype Action = CheckPrerequisites | PrintPrerequisites | Install | Uninstall

  /** The four action switches after `argparse`: -c, -p, -i, -u. */
  datatype ActionFlags = ActionFlags(check: bool, printPrerequisites: bool, install: bool, uninstall: bool)

  datatype ParseError = SeveralActionFlags(given: seq<Action>) | ConflictingActions(positional: Action, flag: Action)

  /** Whether the switch of `a` was given. */
  predicate FlagSet(f: ActionFlags, a: Action) {
    match a
    case CheckPrerequisites => f.check
    case PrintPrerequisites => f.printPrerequisites
    case Install => f.install
    case Uninstall => f.uninstall
  }

  /** `flag_actions`: the given switches, in the order -c, -p, -i, -u. */
  function FlagActions(f: ActionFlags): (r: seq<Action>)
    ensures forall a :: a in r <==> FlagSet(f, a)
    ensures forall i, j :: 0 <= i < j < |r| ==> r[i] != r[j]
  {
    (if f.check then [CheckPrerequisites] else []) +
    (if f.printPrerequisites then [PrintPrerequisites] else []) +
    (if f.install then [Install] else []) +
    (if f.uninstall then [Uninstall] else [])
  }

  /** `parse_action_and_flags` once `argparse` has produced the optional positional
      action and the switches; `silent` is passed through. */
  method ParseActionAndFlags(positional: Option<Action>, f: ActionFlags, silent: bool)
    returns (r: Result<(Action, bool), ParseError>)
    ensures |FlagActions(f)| > 1 ==> r == Err(SeveralActionFlags(FlagActions(f)))
    ensures r.Ok? <==>
      |FlagActions(f)| <= 1 && (positional.None? || |FlagActions(f)| == 0 || FlagActions(f)[0] == positional.value)
    ensures r.Ok? ==> r.value.1 == silent
    ensures r.Ok? && positional.Some? ==> r.value.0 == positional.value
    ensures r.Ok? && positional.None? && |FlagActions(f)| == 1 ==> r.value.0 == FlagActions(f)[0]
    ensures r.Ok? && positional.None? && |FlagActions(f)| == 0 ==> r.value.0 == Install
  {
    var given: seq<Action> := [];
    if f.check {
      given := given + [CheckPrerequisites];
    }
    if f.printPrerequisites {
      given := given + [PrintPrerequisites];
    }
    if f.install {
      given := given + [Install];
    }
    if f.uninstall {
      given := given + [Uninstall];
    }
    assert given == FlagActions(f);
    if |given| > 1 {
      return Err(SeveralActionFlags(given));
    }
    var action: Option<Action> := if |given| == 1 then Some(given[0]) else None;
    if positional.Some? {
      if action.Some? && action.value != positional.value {
        return Err(ConflictingActions(positional.value, action.value));
      }
      action := positional;
    }
    if action.None? {
      action := Some(Install);
    }
    r := Ok((action.value, silent));
  }

  // ----- install -----

  /** Where the installer runs: `is_windows()`, `is_ubuntu()` (with whether the user is
      root), or anything else. */
  datatype InstallHost = OnWindows | OnUbuntu(isRoot: bool) | OnOther

  function PlatformOf(h: InstallHost): Platform {
    if h == OnWindows then Windows else Linux
  }

  /** The file system and environment effects of `install`, in the order they happen. */
  datatype Effect =
    | RefreshedEnvironment
    | CreatedDir(path: string)
    | Unpacked(dir: string, zip: seq<Base64.Byte>)
    | RanSetupEnvironment
    | MadeExecutable(path: string)
    | WroteLauncher(path: string, platform: Platform, dir: string)  // writes LauncherText(platform, dir) to path

  datatype InstallOutcome = Installed(dir: string) | Exit(code: int) | Raised(reason: string)

  /** A step of the launcher script: it runs a copy of the native uninstaller from a
      fresh temporary directory, so that the uninstaller can delete its own directory. */
  datatype LauncherStep =
    | MakeTempDir
    | CopyToTemp(source: string, name: string)
    | MarkExecutable(name: string)
    | RunFromTemp(name: string)
    | RemoveTempDir

  function LauncherPlan(p: Platform, dir: string): seq<LauncherStep> {
    var exe := NativeName(p);
    if p == Windows then
      [MakeTempDir, CopyToTemp(dir + "\\" + exe, exe), RunFromTemp(exe), RemoveTempDir]
    else
      [MakeTempDir, CopyToTemp(dir + "/" + exe, exe), MarkExecutable(exe), RunFromTemp(exe), RemoveTempDir]
  }

  /** The temporary directory is made first and removed last, in between nothing else is
      made or removed, and whatever runs was copied into it earlier from the plugin
      directory. */
  predicate LaunchesCopyOnly(plan: seq<LauncherStep>, dir: string) {
    && |plan| >= 2 && plan[0] == MakeTempDir && plan[|plan| - 1] == RemoveTempDir
    && (forall i :: 0 < i < |plan| - 1 ==> !plan[i].MakeTempDir? && !plan[i].RemoveTempDir?)
    && (forall i :: 0 <= i < |plan| && plan[i].RunFromTemp? ==>
          exists j :: 0 <= j < i && plan[j].CopyToTemp? && plan[j].name == plan[i].name && dir <= plan[j].source)
  }

  /** The launcher is the second uninstaller candidate, and what it runs is a copy of
      the first, the native uninstaller. */
  lemma LauncherRunsNativeCopy(p: Platform, dir: string)
    ensures LaunchesCopyOnly(LauncherPlan(p, dir), dir)
    ensures forall s :: s in LauncherPlan(p, dir) && s.RunFromTemp? ==> s.name == Candidates(p)[0].file
  {
    var plan := LauncherPlan(p, dir);
    assert plan[1].CopyToTemp? && dir <= plan[1].source;
  }

  function RenderStep(p: Platform, dir: string, s: LauncherStep): string {
    if p == Windows then
      match s
      case MakeTempDir => "set TEMP_DIR=%TEMP%\\metaffi_uninstall_%RANDOM%\nmkdir \"%TEMP_DIR%\"\n"
      case CopyToTemp(src, name) => "copy \"" + src + "\" \"%TEMP_DIR%\\" + name + "\"\n"
      case MarkExecutable(name) => ""
      case RunFromTemp(name) => "\"%TEMP_DIR%\\" + name + "\"\n"
      case RemoveTempDir => "rmdir /S /Q \"%TEMP_DIR%\"\n"
    else
      match s
      case MakeTempDir => "TEMP_DIR=$(mktemp -d)\n"
      case CopyToTemp(src, name) => "cp \"" + src + "\" \"$TEMP_DIR/" + name + "\"\n"
      case MarkExecutable(name) => "chmod +x \"$TEMP_DIR/" + name + "\"\n"
      case RunFromTemp(name) => "\"$TEMP_DIR/" + name + "\"\n"
      case RemoveTempDir => "rm -rf \"$TEMP_DIR\"\n"
  }

  function RenderAll(p: Platform, dir: string, plan: seq<LauncherStep>): string
    decreases |plan|
  {
    if |plan| == 0 then "" else RenderStep(p, dir, plan[0]) + RenderAll(p, dir, plan[1..])
  }

  /** The text of `uninstall.bat` / `uninstall.sh`. */
  function LauncherText(p: Platform, dir: string): string {
    (if p == Windows then "@echo off\n" else "#!/bin/bash\n") + RenderAll(p, dir, LauncherPlan(p, dir))
  }

  /** What `install` did: its outcome and its effects in order. */
  datatype InstallRun = InstallRun(outcome: InstallOutcome, effects: seq<Effect>)

  predicate Supported(host: InstallHost) {
    host == OnWindows || host == OnUbuntu(true)
  }

  /** The effects after unpacking: the environment setup, on Ubuntu the executable bit of
      the native uninstaller, and the launcher script (itself executable on Ubuntu). */
  function AfterUnpack(host: InstallHost, dir: string): seq<Effect> {
    var p := PlatformOf(host);
    [RanSetupEnvironment] +
    (if host == OnWindows then [] else [MadeExecutable(PathJoin(p, dir, "uninstall_plugin"))]) +
    [WroteLauncher(dir + "/" + ScriptName(p), p, dir)] +
    (if host == OnWindows then [] else [MadeExecutable(dir + "/" + ScriptName(p))])
  }

  /** Every effect of an installation into `dir` that unpacks `zip`, in order: the
      environment refresh, the directory if it is missing, the archive, then `AfterUnpack`. */
  function InstallPlan(host: InstallHost, dir: string, dirExists: bool, zip: seq<Base64.Byte>): seq<Effect> {
    BeforeUnpack(dir, dirExists) + ([Unpacked(dir, zip)] + AfterUnpack(host, dir))
  }

  /** The effects before unpacking: the environment refresh, and `makedirs` when the
      plugin directory is missing. */
  function BeforeUnpack(dir: string, dirExists: bool): seq<Effect> {
    [RefreshedEnvironment] + (if dirExists then [] else [CreatedDir(dir)])
  }

  /** The exception a failing file-system step raises (`OSError`, or whatever
      `setup_environment` raises); `main` treats every exception alike. */
  const StepError := "OSError"

  /** The effects `planned` run after `done`, one at a time. The first one equal to
      `fails` starts and raises, and nothing after it runs; if none does, the run ends
      with `success`. */
  function Attempt(done: seq<Effect>, planned: seq<Effect>, fails: Option<Effect>, success: InstallOutcome): (r: InstallRun)
    ensures r.outcome == success || r.outcome == Raised(StepError)
    ensures done <= r.effects && |r.effects| <= |done| + |planned|
    decreases |planned|
  {
    if |planned| == 0 then InstallRun(success, done)
    else if fails == Some(planned[0]) then InstallRun(Raised(StepError), done + [planned[0]])
    else Attempt(done + [planned[0]], planned[1..], fails, success)
  }

  /** Where `e` first occurs in `planned`. */
  function FirstAt(planned: seq<Effect>, e: Effect): (k: nat)
    requires e in planned
    ensures k < |planned| && planned[k] == e && e !in planned[..k]
  {
    if planned[0] == e then 0
    else
      var k := FirstAt(planned[1..], e);
      assert planned[..k + 1] == [planned[0]] + planned[1..][..k];
      k + 1
  }

  /** When no planned effect fails, all of them happen and the run ends with `success`. */
  lemma {:induction false} AttemptCompletes(done: seq<Effect>, planned: seq<Effect>, fails: Option<Effect>, success: InstallOutcome)
    requires fails.None? || fails.value !in planned
    ensures Attempt(done, planned, fails, success) == InstallRun(success, done + planned)
    decreases |planned|
  {
    if |planned| == 0 {
      assert done + planned == done;
    } else {
      assert planned[0] in planned;
      assert forall e :: e in planned[1..] ==> e in planned;
      AttemptCompletes(done + [planned[0]], planned[1..], fails, success);
      assert done + [planned[0]] + planned[1..] == done + planned;
    }
  }

  lemma AttemptCompletesFromStart(planned: seq<Effect>, fails: Option<Effect>, success: InstallOutcome)
    requires fails.None? || fails.value !in planned
    ensures Attempt([], planned, fails, success) == InstallRun(success, planned)
  {
    AttemptCompletes([], planned, fails, success);
    assert [] + planned == planned;
  }

  /** Otherwise the effects up to and including the first failing one, at `k`, happen,
      none after it, and the run raises. */
  lemma {:induction false} AttemptRaises(done: seq<Effect>, planned: seq<Effect>, fails: Option<Effect>, success: InstallOutcome, k: nat)
    requires k < |planned| && fails == Some(planned[k]) && planned[k] !in planned[..k]
    ensures Attempt(done, planned, fails, success) == InstallRun(Raised(StepError), done + planned[..k + 1])
    decreases k
  {
    if k == 0 {
      assert planned[..1] == [planned[0]];
    } else {
      assert planned[0] in planned[..k];
      var next, rest := done + [planned[0]], planned[1..];
      assert rest[..k - 1] == planned[1..k];
      assert forall e :: e in planned[1..k] ==> e in planned[..k];
      AttemptRaises(next, rest, fails, success, k - 1);
      assert next + rest[..k] == done + planned[..k + 1];
    }
  }

  /** Effects that do not fail carry the run over to the ones after them. */
  lemma {:induction false} AttemptPasses(done: seq<Effect>, a: seq<Effect>, b: seq<Effect>, fails: Option<Effect>, success: InstallOutcome)
    requires fails.None? || fails.value !in a
    ensures Attempt(done, a + b, fails, success) == Attempt(done + a, b, fails, success)
    decreases |a|
  {
    if |a| == 0 {
      assert a + b == b && done + a == done;
    } else {
      assert a[0] in a && (a + b)[0] == a[0] && (a + b)[1..] == a[1..] + b;
      assert forall e :: e in a[1..] ==> e in a;
      AttemptPasses(done + [a[0]], a[1..], b, fails, success);
      assert done + [a[0]] + a[1..] == done + a;
    }
  }

  /** The first failing effect ends the run. */
  lemma AttemptStops(done: seq<Effect>, a: seq<Effect>, e: Effect, b: seq<Effect>, fails: Option<Effect>, success: InstallOutcome)
    requires fails == Some(e) && e !in a
    ensures Attempt(done, a + [e] + b, fails, success) == InstallRun(Raised(StepError), done + a + [e])
  {
    AttemptPasses(done, a, [e] + b, fails, success);
    assert a + [e] + b == a + ([e] + b);
  }

  /**
   * `install`. `prerequisitesOk` is what `check_prerequisites` returns; `env` is the
   * environment `os.environ` holds at line 393, after `refresh_windows_env` (line 371) or
   * `refresh_ubuntu_env` (line 380); `dirExists` says whether METAFFI_HOME/PLUGIN_NAME exists
   * beforehand; the payloads are the embedded base64 texts; and `fails` is the
   * file-system step that raises, if any. `sys.exit(1)` becomes Exit(1); an exception
   * becomes Raised.
   */
  function InstallSpec(
    prerequisitesOk: bool, host: InstallHost, env: map<string, string>, pluginName: string,
    dirExists: bool, windowsPayload: string, ubuntuPayload: string, fails: Option<Effect>): InstallRun
  {
    if !prerequisitesOk then InstallRun(Exit(1), [])
    else if host == OnOther then InstallRun(Raised("Unsupported OS"), [])
    else if host == OnUbuntu(false) then InstallRun(Raised("Installer must run as sudo"), [])
    else if "METAFFI_HOME" !in env then Attempt([], [RefreshedEnvironment], fails, Exit(1))
    else InstallIntoDir(host, PathJoin(PlatformOf(host), env["METAFFI_HOME"], pluginName), dirExists,
      if host == OnWindows then windowsPayload else ubuntuPayload, fails)
  }

  /** `install` from the refresh on, into the plugin directory `dir` with the platform's
      base64 `payload`: a payload that does not decode raises inside
      `unpack_into_directory`, after `makedirs`. */
  function InstallIntoDir(host: InstallHost, dir: string, dirExists: bool, payload: string, fails: Option<Effect>): InstallRun {
    match Base64.Decode(payload)
    case Err(_) => Attempt([], BeforeUnpack(dir, dirExists), fails, Raised("binascii.Error"))
    case Ok(zip) => Attempt([], InstallPlan(host, dir, dirExists, zip), fails, Installed(dir))
  }

  method RunInstall(
    prerequisitesOk: bool, host: InstallHost, env: map<string, string>, pluginName: string,
    dirExists: bool, windowsPayload: string, ubuntuPayload: string, fails: Option<Effect>)
    returns (run: InstallRun)
    ensures run == InstallSpec(prerequisitesOk, host, env, pluginName, dirExists, windowsPayload, ubuntuPayload, fails)
  {
    if !prerequisitesOk {
      return InstallRun(Exit(1), []);
    }
    if host == OnOther {
      return InstallRun(Raised("Unsupported OS"), []);
    }
    if host == OnUbuntu(false) {
      return InstallRun(Raised("Installer must run as sudo"), []);
    }
    if fails == Some(RefreshedEnvironment) {
      return InstallRun(Raised(StepError), [RefreshedEnvironment]);
    }
    if "METAFFI_HOME" !in env {
      return InstallRun(Exit(1), [RefreshedEnvironment]);
    }
    var dir := PathJoin(PlatformOf(host), env["METAFFI_HOME"], pluginName);
    run := InstallInHome(host, dir, dirExists, if host == OnWindows then windowsPayload else ubuntuPayload, fails);
  }

  /** `install` once the checks have passed, the environment is refreshed and
      METAFFI_HOME is set, with `dir` METAFFI_HOME/PLUGIN_NAME. */
  method InstallInHome(host: InstallHost, dir: string, dirExists: bool, payload: string, fails: Option<Effect>)
    returns (run: InstallRun)
    requires fails != Some(RefreshedEnvironment)
    ensures run == InstallIntoDir(host, dir, dirExists, payload, fails)
  {
    var effects := [RefreshedEnvironment];
    if !dirExists {
      effects := effects + [CreatedDir(dir)];
      if fails == Some(CreatedDir(dir)) {
        MakeDirsRaises(host, dir, payload, fails);
        return InstallRun(Raised(StepError), effects);
      }
    }
    assert effects == BeforeUnpack(dir, dirExists);
    var zip := Base64.Decode(payload);
    if zip.Err? {
      AttemptCompletesFromStart(effects, fails, Raised("binascii.Error"));
      return InstallRun(Raised("binascii.Error"), effects);
    }
    PlanAfterCreated(host, dir, dirExists, zip.value, fails);
    run := UnpackAndFinish(host, dir, effects, zip.value, fails);
  }

  /** A `makedirs` that raises leaves the refresh and the attempt to create the
      directory, whether or not the payload would have decoded. */
  lemma MakeDirsRaises(host: InstallHost, dir: string, payload: string, fails: Option<Effect>)
    requires fails == Some(CreatedDir(dir))
    ensures InstallIntoDir(host, dir, false, payload, fails) == InstallRun(Raised(StepError), [RefreshedEnvironment, CreatedDir(dir)])
  {
    var zip := Base64.Decode(payload);
    assert BeforeUnpack(dir, false) == [RefreshedEnvironment] + [CreatedDir(dir)];
    if zip.Ok? {
      AttemptStops([], [RefreshedEnvironment], CreatedDir(dir),
        [Unpacked(dir, zip.value)] + AfterUnpack(host, dir), fails, Installed(dir));
    } else {
      MakeDirsRaisesBeforeDecode(dir, fails);
    }
  }

  lemma MakeDirsRaisesBeforeDecode(dir: string, fails: Option<Effect>)
    requires fails == Some(CreatedDir(dir))
    ensures Attempt([], BeforeUnpack(dir, false), fails, Raised("binascii.Error"))
      == InstallRun(Raised(StepError), [RefreshedEnvironment, CreatedDir(dir)])
  {
    assert BeforeUnpack(dir, false) == [RefreshedEnvironment] + [CreatedDir(dir)] + [];
    AttemptStops([], [RefreshedEnvironment], CreatedDir(dir), [], fails, Raised("binascii.Error"));
  }

  /** The plan, cut after the directory step: nothing before it fails. */
  lemma PlanAfterCreated(host: InstallHost, dir: string, dirExists: bool, zip: seq<Base64.Byte>, fails: Option<Effect>)
    requires fails != Some(RefreshedEnvironment) && (dirExists || fails != Some(CreatedDir(dir)))
    ensures var created := BeforeUnpack(dir, dirExists);
      Attempt([], InstallPlan(host, dir, dirExists, zip), fails, Installed(dir))
        == Attempt(created, [Unpacked(dir, zip)] + AfterUnpack(host, dir), fails, Installed(dir))
  {
    var created := BeforeUnpack(dir, dirExists);
    var rest := [Unpacked(dir, zip)] + AfterUnpack(host, dir);
    AttemptPasses([], created, rest, fails, Installed(dir));
    assert [] + created == created;
  }

  /** Unpacking the archive into `dir`, then the steps after it, following the effects
      `done`. */
  method UnpackAndFinish(host: InstallHost, dir: string, done: seq<Effect>, zip: seq<Base64.Byte>, fails: Option<Effect>)
    returns (run: InstallRun)
    ensures run == Attempt(done, [Unpacked(dir, zip)] + AfterUnpack(host, dir), fails, Installed(dir))
  {
    var unpacked := Unpacked(dir, zip);
    ghost var after := AfterUnpack(host, dir);
    assert ([unpacked] + after)[0] == unpacked && ([unpacked] + after)[1..] == after;
    if fails == Some(unpacked) {
      return InstallRun(Raised(StepError), done + [unpacked]);
    }
    run := FinishInstall(host, dir, done + [unpacked], fails);
  }

  /** The steps of `install` after unpacking, run after the effects `done`. */
  method FinishInstall(host: InstallHost, dir: string, done: seq<Effect>, fails: Option<Effect>) returns (run: InstallRun)
    ensures run == Attempt(done, AfterUnpack(host, dir), fails, Installed(dir))
  {
    var p := PlatformOf(host);
    var setup := RanSetupEnvironment;
    var chmodNative := MadeExecutable(PathJoin(p, dir, "uninstall_plugin"));
    var write := WroteLauncher(dir + "/" + ScriptName(p), p, dir);
    var chmodLauncher := MadeExecutable(dir + "/" + ScriptName(p));
    ghost var native := if host == OnWindows then [] else [chmodNative];
    ghost var last := if host == OnWindows then [] else [chmodLauncher];
    ghost var plan := AfterUnpack(host, dir);
    assert plan == [setup] + native + [write] + last;
    var effects := done + [setup];
    if fails == Some(setup) {
      assert plan == [] + [setup] + (native + [write] + last);
      AttemptStops(done, [], setup, native + [write] + last, fails, Installed(dir));
      return InstallRun(Raised(StepError), effects);
    }
    if host != OnWindows {
      effects := effects + [chmodNative];
      if fails == Some(chmodNative) {
        assert plan == [setup] + [chmodNative] + ([write] + last);
        AttemptStops(done, [setup], chmodNative, [write] + last, fails, Installed(dir));
        return InstallRun(Raised(StepError), effects);
      }
    }
    assert effects == done + ([setup] + native);
    effects := effects + [write];
    if fails == Some(write) {
      AttemptStops(done, [setup] + native, write, last, fails, Installed(dir));
      return InstallRun(Raised(StepError), effects);
    }
    if host != OnWindows {
      effects := effects + [chmodLauncher];
      if fails == Some(chmodLauncher) {
        assert plan == [setup] + native + [write] + [chmodLauncher] + [];
        AttemptStops(done, [setup] + native + [write], chmodLauncher, [], fails, Installed(dir));
        return InstallRun(Raised(StepError), effects);
      }
    }
    assert effects == done + plan;
    AttemptCompletes(done, plan, fails, Installed(dir));
    run := InstallRun(Installed(dir), effects);
  }

  /** Nothing is touched unless the prerequisites hold and the host is Windows or Ubuntu
      run as root; after that the environment is refreshed first of all, and a refresh
      that raises ends the installation. */
  lemma InstallChecksBeforeEffects(
    prerequisitesOk: bool, host: InstallHost, env: map<string, string>, pluginName: string,
    dirExists: bool, windowsPayload: string, ubuntuPayload: string, fails: Option<Effect>)
    ensures var run := InstallSpec(prerequisitesOk, host, env, pluginName, dirExists, windowsPayload, ubuntuPayload, fails);
      && (run.effects == [] <==> !prerequisitesOk || !Supported(host))
      && (run.effects != [] ==> run.effects[0] == RefreshedEnvironment)
      && (!prerequisitesOk ==> run.outcome == Exit(1))
      && (prerequisitesOk && !Supported(host) ==> run.outcome.Raised?)
      && (prerequisitesOk && Supported(host) && fails == Some(RefreshedEnvironment) ==>
            run == InstallRun(Raised(StepError), [RefreshedEnvironment]))
  {
    var run := InstallSpec(prerequisitesOk, host, env, pluginName, dirExists, windowsPayload, ubuntuPayload, fails);
    if prerequisitesOk && Supported(host) && "METAFFI_HOME" in env {
      var dir := PathJoin(PlatformOf(host), env["METAFFI_HOME"], pluginName);
      var zip := Base64.Decode(if host == OnWindows then windowsPayload else ubuntuPayload);
      if zip.Ok? {
        assert InstallPlan(host, dir, dirExists, zip.value)[0] == RefreshedEnvironment;
      }
    }
  }

  /** A completed installation went through every step in order and none of them
      raised: the plugin directory METAFFI_HOME/PLUGIN_NAME was created if absent, the
      decoded archive unpacked into it, and the launcher of `LauncherRunsNativeCopy`
      written there. */
  lemma InstalledMeansAllSteps(
    prerequisitesOk: bool, host: InstallHost, env: map<string, string>, pluginName: string,
    dirExists: bool, windowsPayload: string, ubuntuPayload: string, fails: Option<Effect>)
    requires InstallSpec(prerequisitesOk, host, env, pluginName, dirExists, windowsPayload, ubuntuPayload, fails).outcome.Installed?
    ensures prerequisitesOk && Supported(host) && "METAFFI_HOME" in env
    ensures var run := InstallSpec(prerequisitesOk, host, env, pluginName, dirExists, windowsPayload, ubuntuPayload, fails);
      var p := PlatformOf(host);
      var dir := PathJoin(p, env["METAFFI_HOME"], pluginName);
      && run.outcome.dir == dir
      && (fails.None? || fails.value !in run.effects)
      && (CreatedDir(dir) in run.effects <==> !dirExists)
      && Base64.Decode(if host == OnWindows then windowsPayload else ubuntuPayload).Ok?
      && Unpacked(dir, Base64.Decode(if host == OnWindows then windowsPayload else ubuntuPayload).value) in run.effects
      && WroteLauncher(dir + "/" + ScriptName(p), p, dir) in run.effects
  {
    var run := InstallSpec(prerequisitesOk, host, env, pluginName, dirExists, windowsPayload, ubuntuPayload, fails);
    assert prerequisitesOk && Supported(host) && "METAFFI_HOME" in env;
    var p := PlatformOf(host);
    var dir := PathJoin(p, env["METAFFI_HOME"], pluginName);
    var zip := Base64.Decode(if host == OnWindows then windowsPayload else ubuntuPayload);
    var plan := InstallPlan(host, dir, dirExists, zip.value);
    if fails.Some? && fails.value in plan {
      AttemptRaisesAtEnd(plan, fails, Installed(dir));
      assert false;
    }
    AttemptCompletesFromStart(plan, fails, Installed(dir));
    InstallStepsContent(host, dir, dirExists, zip.value);
  }

  lemma InstallStepsContent(host: InstallHost, dir: string, dirExists: bool, zip: seq<Base64.Byte>)
    ensures var steps := BeforeUnpack(dir, dirExists) + ([Unpacked(dir, zip)] + AfterUnpack(host, dir));
      && (CreatedDir(dir) in steps <==> !dirExists)
      && Unpacked(dir, zip) in steps
      && WroteLauncher(dir + "/" + ScriptName(PlatformOf(host)), PlatformOf(host), dir) in steps
  {
    var created := BeforeUnpack(dir, dirExists);
    var after := AfterUnpack(host, dir);
    var steps := created + ([Unpacked(dir, zip)] + after);
    AfterUnpackSteps(host, dir);
    assert CreatedDir(dir) in created <==> !dirExists;
    assert CreatedDir(dir) !in after;
    assert Unpacked(dir, zip) in steps by {
      assert steps[|created|] == Unpacked(dir, zip);
    }
  }

  lemma AfterUnpackSteps(host: InstallHost, dir: string)
    ensures WroteLauncher(dir + "/" + ScriptName(PlatformOf(host)), PlatformOf(host), dir) in AfterUnpack(host, dir)
    ensures forall e :: e in AfterUnpack(host, dir) ==> !e.CreatedDir? && !e.RefreshedEnvironment? && !e.Unpacked?
  {
    var p := PlatformOf(host);
    var w := WroteLauncher(dir + "/" + ScriptName(p), p, dir);
    var front := [RanSetupEnvironment] + (if host == OnWindows then [] else [MadeExecutable(PathJoin(p, dir, "uninstall_plugin"))]);
    assert AfterUnpack(host, dir) == front + [w] + (if host == OnWindows then [] else [MadeExecutable(dir + "/" + ScriptName(p))]);
  }

  /** Once the checks pass and the payload decodes, a step that raises ends the
      installation with an exception right after it starts: the effects are the plan up
      to and including that step, and it occurs only once, as the last of them. `main`
      then exits with status 2. */
  lemma InstallStopsAtFailingStep(
    host: InstallHost, env: map<string, string>, pluginName: string,
    dirExists: bool, windowsPayload: string, ubuntuPayload: string, fails: Option<Effect>,
    showTrace: bool, uninstall: UninstallRun)
    requires Supported(host) && "METAFFI_HOME" in env
    requires Base64.Decode(if host == OnWindows then windowsPayload else ubuntuPayload).Ok?
    requires fails.Some?
    requires fails.value in InstallPlan(host, PathJoin(PlatformOf(host), env["METAFFI_HOME"], pluginName), dirExists,
      Base64.Decode(if host == OnWindows then windowsPayload else ubuntuPayload).value)
    ensures var run := InstallSpec(true, host, env, pluginName, dirExists, windowsPayload, ubuntuPayload, fails);
      var plan := InstallPlan(host, PathJoin(PlatformOf(host), env["METAFFI_HOME"], pluginName), dirExists,
        Base64.Decode(if host == OnWindows then windowsPayload else ubuntuPayload).value);
      && run.outcome == Raised(StepError)
      && |run.effects| > 0 && run.effects <= plan
      && run.effects[|run.effects| - 1] == fails.value
      && fails.value !in run.effects[..|run.effects| - 1]
      && MainExit(Ok((Install, showTrace)), true, run, uninstall) == 2
  {
    var run := InstallSpec(true, host, env, pluginName, dirExists, windowsPayload, ubuntuPayload, fails);
    var dir := PathJoin(PlatformOf(host), env["METAFFI_HOME"], pluginName);
    var plan := InstallPlan(host, dir, dirExists, Base64.Decode(if host == OnWindows then windowsPayload else ubuntuPayload).value);
    assert run == Attempt([], plan, fails, Installed(dir));
    AttemptRaisesAtEnd(plan, fails, Installed(dir));
  }

  lemma AttemptRaisesAtEnd(plan: seq<Effect>, fails: Option<Effect>, success: InstallOutcome)
    requires fails.Some? && fails.value in plan
    ensures var run := Attempt([], plan, fails, success);
      && run.outcome == Raised(StepError)
      && |run.effects| > 0 && run.effects <= plan
      && run.effects[|run.effects| - 1] == fails.value
      && fails.value !in run.effects[..|run.effects| - 1]
  {
    var run := Attempt([], plan, fails, success);
    var k := FirstAt(plan, fails.value);
    AttemptRaises([], plan, fails, success, k);
    assert run.effects == plan[..k + 1];
    assert run.effects[..|run.effects| - 1] == plan[..k];
  }

  /** An installation that gets past the host checks, with no step raising, unpacks
      exactly the archive the build step embedded as base64 text. */
  lemma InstallUnpacksBuiltPayload(
    host: InstallHost, env: map<string, string>, pluginName: string, dirExists: bool,
    zip: seq<Base64.Byte>, other: string, fails: Option<Effect>)
    requires Supported(host) && "METAFFI_HOME" in env
    requires fails.None? || fails.value !in InstallPlan(host, PathJoin(PlatformOf(host), env["METAFFI_HOME"], pluginName), dirExists, zip)
    ensures var payload := Base64.Encode(zip);
      var run := InstallSpec(true, host, env, pluginName, dirExists,
        if host == OnWindows then payload else other, if host == OnWindows then other else payload, fails);
      var dir := PathJoin(PlatformOf(host), env["METAFFI_HOME"], pluginName);
      run.outcome == Installed(dir) && Unpacked(dir, zip) in run.effects
  {
    var payload := Base64.Encode(zip);
    Base64.DecodeEncode(zip);
    var dir := PathJoin(PlatformOf(host), env["METAFFI_HOME"], pluginName);
    var plan := InstallPlan(host, dir, dirExists, zip);
    var run := InstallSpec(true, host, env, pluginName, dirExists,
      if host == OnWindows then payload else other, if host == OnWindows then other else payload, fails);
    assert run == Attempt([], plan, fails, Installed(dir));
    AttemptCompletesFromStart(plan, fails, Installed(dir));
    InstallStepsContent(host, dir, dirExists, zip);
  }

  /** `get_exe_format`: how a test runs an executable of the current directory. */
  function ExeFormat(p: Platform, name: string): string {
    if p == Windows then name + ".exe" else "./" + name
  }

  /** Different executables are run by different commands on every platform. */
  lemma ExeFormatInjective(p: Platform, a: string, b: string)
    requires ExeFormat(p, a) == ExeFormat(p, b)
    ensures a == b
  {
    if p == Windows {
      assert a == ExeFormat(p, a)[..|a|] && b == ExeFormat(p, b)[..|b|];
    } else {
      assert a == ExeFormat(p, a)[2..] && b == ExeFormat(p, b)[2..];
    }
  }

  // ----- uninstall -----

  /** What `uninstall` did: the directory or the exception, the command it ran, and
      whether the plugin directory is gone afterwards. */
  datatype UninstallRun = UninstallRun(result: Result<string, string>, launched: Option<seq<string>>, removed: bool)

  /**
   * The `uninstall` action. `files` are the regular files of METAFFI_HOME/PLUGIN_NAME,
   * or None when that is not a directory. The command is run with `check=True`, so a
   * failure propagates and the directory stays.
   */
  method RunUninstall(
    env: map<string, string>, p: Platform, pluginName: string, files: Option<set<string>>,
    interpreter: string, run: seq<string> -> Launch)
    returns (u: UninstallRun)
    ensures ("METAFFI_HOME" !in env || env["METAFFI_HOME"] == "") ==> u == UninstallRun(Err("METAFFI_HOME is not set"), None, false)
    ensures "METAFFI_HOME" in env && env["METAFFI_HOME"] != "" && files.None? ==> u.result.Err? && u.launched.None? && !u.removed
    ensures "METAFFI_HOME" in env && env["METAFFI_HOME"] != "" && files.Some? ==>
      var dir := PathJoin(p, env["METAFFI_HOME"], pluginName);
      match Selected(p, files.value)
      case None => u.result.Err? && u.launched.None? && !u.removed
      case Some(c) =>
        var argv := CommandFor(p, c.kind, PathJoin(p, dir, c.file), interpreter).value;
        u.launched == Some(argv) &&
        (u.result.Ok? <==> Succeeded(run(argv))) &&
        (u.result.Ok? ==> u.result.value == dir) &&
        u.removed == u.result.Ok?
  {
    if "METAFFI_HOME" !in env || env["METAFFI_HOME"] == "" {
      return UninstallRun(Err("METAFFI_HOME is not set"), None, false);
    }
    var dir := PathJoin(p, env["METAFFI_HOME"], pluginName);
    if files.None? {
      return UninstallRun(Err("Plugin installation directory does not exist"), None, false);
    }
    var sel := SelectUninstaller(p, files.value);
    if sel.None? {
      return UninstallRun(Err("No uninstaller found"), None, false);
    }
    var argv := CommandFor(p, sel.value.kind, PathJoin(p, dir, sel.value.file), interpreter).value;
    var launched := Some(argv);
    if !Succeeded(run(argv)) {
      return UninstallRun(Err("CalledProcessError"), launched, false);
    }
    u := UninstallRun(Ok(dir), launched, true);
  }

  // ----- main -----

  /** Exit status of `main` for the parsed command line, given what `check_prerequisites`,
      `install` and `uninstall` would do. `exit(...)` inside the `try` raises SystemExit,
      which `except Exception` does not catch; every other exception gives 2. */
  function MainExit(parsed: Result<(Action, bool), ParseError>, prerequisitesOk: bool, install: InstallRun, uninstall: UninstallRun): int {
    if parsed.Err? then 2
    else match parsed.value.0
      case CheckPrerequisites => if prerequisitesOk then 0 else 1
      case PrintPrerequisites => 0
      case Install => (match install.outcome case Installed(_) => 0 case Exit(c) => c case Raised(_) => 2)
      case Uninstall => if uninstall.result.Ok? then 0 else 2
  }

  /** `install` only ever exits with status 1 itself. */
  lemma InstallExitsWithOne(
    prerequisitesOk: bool, host: InstallHost, env: map<string, string>, pluginName: string,
    dirExists: bool, windowsPayload: string, ubuntuPayload: string, fails: Option<Effect>)
    ensures var run := InstallSpec(prerequisitesOk, host, env, pluginName, dirExists, windowsPayload, ubuntuPayload, fails);
      run.outcome.Exit? ==> run.outcome.code == 1 && run.effects == (if prerequisitesOk then [RefreshedEnvironment] else [])
  {
  }

  predicate ActionSucceeded(a: Action, prerequisitesOk: bool, install: InstallRun, uninstall: UninstallRun) {
    match a
    case CheckPrerequisites => prerequisitesOk
    case PrintPrerequisites => true
    case Install => install.outcome.Installed?
    case Uninstall => uninstall.result.Ok?
  }

  /** Status 0 exactly when the selected action succeeded, 1 exactly when the
      prerequisites are missing or METAFFI_HOME is unset at installation, and 2 for every
      exception, including a command line `parse_action_and_flags` rejects. */
  lemma MainExitCodes(
    parsed: Result<(Action, bool), ParseError>, prerequisitesOk: bool, host: InstallHost,
    env: map<string, string>, pluginName: string, dirExists: bool,
    windowsPayload: string, ubuntuPayload: string, fails: Option<Effect>, uninstall: UninstallRun)
    ensures var install := InstallSpec(prerequisitesOk, host, env, pluginName, dirExists, windowsPayload, ubuntuPayload, fails);
      var code := MainExit(parsed, prerequisitesOk, install, uninstall);
      && (code == 0 <==> (parsed.Ok? && ActionSucceeded(parsed.value.0, prerequisitesOk, install, uninstall)))
      && (code == 1 <==> (parsed.Ok? &&
            ((parsed.value.0 == CheckPrerequisites && !prerequisitesOk) || (parsed.value.0 == Install && install.outcome.Exit?))))
      && (code == 2 <==> (parsed.Err? ||
            (parsed.value.0 == Install && install.outcome.Raised?) || (parsed.value.0 == Uninstall && uninstall.result.Err?)))
  {
    InstallExitsWithOne(prerequisitesOk, host, env, pluginName, dirExists, windowsPayload, ubuntuPayload, fails);
  }
}
