/**
 * The top level of the MetaFFI installers: the ordered steps of `install_ubuntu` and
 * `install_windows` in `install_metaffi_template.py`, and the exit status `main` gives
 * in both installer templates.
 */
module InstallerFlows {
  import opened Results
  import opened Host
  import Prompts

  /** The observable steps of an installation, in the order they happen. */
  datatype Step =
    | RefreshedEnvironment
    | CheckedPrerequisites
    | ChoseInstallDir(dir: string)
    | Unpacked(dir: string)
    | MadeGloballyAvailable(dir: string)
    | SetMetaffiHome(dir: string)
    | AddedToPath(dir: string)
    | AddedCgoFlags(dir: string)
    | InstalledApis
    | RanSanityTests
    | RanExtendedTests

  /** The steps taken and, if one was raised, the exception that ended them. */
  datatype FlowRun = FlowRun(raised: Option<string>, steps: seq<Step>)

  /** The exception a failing step raises. The steps raise different exceptions
      (CalledProcessError of a command run with `check`, an exception of a missing
      prerequisite, an OSError while unpacking), which the model does not tell apart. */
  const StepRaised := "exception raised inside the step"

  /** One step of a flow: after an exception nothing more happens; otherwise the step
      runs and raises exactly when it is the failing one. */
  function Then(run: FlowRun, s: Step, fails: Option<Step>): FlowRun {
    if run.raised.Some? then run
    else FlowRun(if fails == Some(s) then Some(StepRaised) else None, run.steps + [s])
  }

  /** The planned steps run one after the other, each as `Then` of the ones before. */
  function RunUntilRaised(planned: seq<Step>, fails: Option<Step>): FlowRun
    decreases |planned|
  {
    if |planned| == 0 then FlowRun(None, [])
    else Then(RunUntilRaised(planned[..|planned| - 1], fails), planned[|planned| - 1], fails)
  }

  /** `fails`, if it is among the planned steps, is the first to raise: the steps before
      it complete, it starts and raises, and none after it runs; otherwise all of them
      run and nothing is raised. */
  lemma {:induction false} RunUntilRaisedFacts(planned: seq<Step>, fails: Option<Step>)
    ensures var r := RunUntilRaised(planned, fails);
      && r.steps <= planned
      && (r.raised.None? <==> fails.None? || fails.value !in planned)
      && (r.raised.None? ==> r.steps == planned)
      && (r.raised.Some? ==>
            r.raised == Some(StepRaised) && |r.steps| > 0 &&
            r.steps[|r.steps| - 1] == fails.value && fails.value !in r.steps[..|r.steps| - 1])
    decreases |planned|
  {
    if |planned| > 0 {
      var init, last := planned[..|planned| - 1], planned[|planned| - 1];
      assert planned == init + [last];
      RunUntilRaisedFacts(init, fails);
      var before := RunUntilRaised(init, fails);
      var r := RunUntilRaised(planned, fails);
      if before.raised.None? {
        assert r.steps == init + [last];
        assert r.steps[..|r.steps| - 1] == init;
      }
    }
  }

  /** Running one more planned step is one more `Then`. */
  lemma RunUntilRaisedSnoc(planned: seq<Step>, s: Step, fails: Option<Step>)
    ensures RunUntilRaised(planned + [s], fails) == Then(RunUntilRaised(planned, fails), s, fails)
  {
    assert (planned + [s])[..|planned|] == planned;
  }

  /** A call of `install_ubuntu` or `install_windows` that may raise: the step itself
      is left to the outside. */
  method Perform(ghost planned: seq<Step>, run: FlowRun, s: Step, fails: Option<Step>) returns (next: FlowRun)
    requires run == RunUntilRaised(planned, fails)
    ensures next == RunUntilRaised(planned + [s], fails)
  {
    RunUntilRaisedSnoc(planned, s, fails);
    if run.raised.Some? {
      return run;
    }
    next := FlowRun(if fails == Some(s) then Some(StepRaised) else None, run.steps + [s]);
  }

  /** The steps of `install_ubuntu` up to `install_apis`, for the directory
      `get_install_dir` returns. */
  function UbuntuSetup(dir: string): seq<Step> {
    [CheckedPrerequisites, ChoseInstallDir(dir), Unpacked(dir), MadeGloballyAvailable(dir),
     SetMetaffiHome(dir), AddedCgoFlags(dir), RefreshedEnvironment, InstalledApis]
  }

  /** The tests `install_ubuntu` runs after the METAFFI_HOME check. */
  function UbuntuTestSteps(flags: Prompts.Flags): seq<Step> {
    if flags.skipTests then []
    else if flags.extendedTests then [RanSanityTests, RanExtendedTests]
    else [RanSanityTests]
  }

  /** `install_ubuntu`. `homeAfterRefresh` says whether METAFFI_HOME is in the process
      environment after `refresh_env`, and `fails` is the first step that raises, if any. */
  function UbuntuSpec(isRoot: bool, flags: Prompts.Flags, dir: string, homeAfterRefresh: bool, fails: Option<Step>): FlowRun {
    if !isRoot then FlowRun(Some("Installer must run as sudo"), [])
    else
      var setup := RunUntilRaised(UbuntuSetup(dir), fails);
      if setup.raised.Some? then setup
      else if !homeAfterRefresh then FlowRun(Some("METAFFI_HOME not in os.environ"), setup.steps)
      else
        var tests := RunUntilRaised(UbuntuTestSteps(flags), fails);
        FlowRun(tests.raised, setup.steps + tests.steps)
  }

  method InstallUbuntu(isRoot: bool, flags: Prompts.Flags, dir: string, homeAfterRefresh: bool, fails: Option<Step>)
    returns (run: FlowRun)
    ensures run == UbuntuSpec(isRoot, flags, dir, homeAfterRefresh, fails)
  {
    if !isRoot {
      return FlowRun(Some("Installer must run as sudo"), []);
    }
    ghost var planned: seq<Step> := [];
    run := FlowRun(None, []);
    run := Perform(planned, run, CheckedPrerequisites, fails);
    planned := planned + [CheckedPrerequisites];
    run := Perform(planned, run, ChoseInstallDir(dir), fails);
    planned := planned + [ChoseInstallDir(dir)];
    run := Perform(planned, run, Unpacked(dir), fails);
    planned := planned + [Unpacked(dir)];
    run := Perform(planned, run, MadeGloballyAvailable(dir), fails);
    planned := planned + [MadeGloballyAvailable(dir)];
    run := Perform(planned, run, SetMetaffiHome(dir), fails);
    planned := planned + [SetMetaffiHome(dir)];
    run := Perform(planned, run, AddedCgoFlags(dir), fails);
    planned := planned + [AddedCgoFlags(dir)];
    run := Perform(planned, run, RefreshedEnvironment, fails);
    planned := planned + [RefreshedEnvironment];
    run := Perform(planned, run, InstalledApis, fails);
    planned := planned + [InstalledApis];
    assert planned == UbuntuSetup(dir);
    if run.raised.Some? {
      return;
    }
    if !homeAfterRefresh {
      return FlowRun(Some("METAFFI_HOME not in os.environ"), run.steps);
    }
    var setupSteps := run.steps;
    planned := [];
    var tests := FlowRun(None, []);
    if !flags.skipTests {
      tests := Perform(planned, tests, RanSanityTests, fails);
      planned := planned + [RanSanityTests];
      if flags.extendedTests {
        tests := Perform(planned, tests, RanExtendedTests, fails);
        planned := planned + [RanExtendedTests];
      }
    }
    assert planned == UbuntuTestSteps(flags);
    run := FlowRun(tests.raised, setupSteps + tests.steps);
  }

  /** The steps of `install_windows` after the administrator check, for the directory
      `get_install_dir("c:\\MetaFFI\\")` returns. */
  function WindowsSetup(dir: string): seq<Step> {
    [RefreshedEnvironment, CheckedPrerequisites, ChoseInstallDir(dir), Unpacked(dir),
     SetMetaffiHome(dir), AddedToPath(dir), AddedCgoFlags(dir), InstalledApis]
  }

  /** `install_windows`; `fails` is the first step that raises, if any. */
  function WindowsSpec(isAdmin: bool, flags: Prompts.Flags, dir: string, fails: Option<Step>): FlowRun {
    if !isAdmin then FlowRun(Some("User must have admin privileges"), [])
    else RunUntilRaised(WindowsSetup(dir) + [RanSanityTests], fails)
  }

  method InstallWindows(isAdmin: bool, flags: Prompts.Flags, dir: string, fails: Option<Step>) returns (run: FlowRun)
    ensures run == WindowsSpec(isAdmin, flags, dir, fails)
  {
    if !isAdmin {
      return FlowRun(Some("User must have admin privileges"), []);
    }
    ghost var planned: seq<Step> := [];
    run := FlowRun(None, []);
    run := Perform(planned, run, RefreshedEnvironment, fails);
    planned := planned + [RefreshedEnvironment];
    run := Perform(planned, run, CheckedPrerequisites, fails);
    planned := planned + [CheckedPrerequisites];
    run := Perform(planned, run, ChoseInstallDir(dir), fails);
    planned := planned + [ChoseInstallDir(dir)];
    run := Perform(planned, run, Unpacked(dir), fails);
    planned := planned + [Unpacked(dir)];
    run := Perform(planned, run, SetMetaffiHome(dir), fails);
    planned := planned + [SetMetaffiHome(dir)];
    run := Perform(planned, run, AddedToPath(dir), fails);
    planned := planned + [AddedToPath(dir)];
    run := Perform(planned, run, AddedCgoFlags(dir), fails);
    planned := planned + [AddedCgoFlags(dir)];
    run := Perform(planned, run, InstalledApis, fails);
    planned := planned + [InstalledApis];
    run := Perform(planned, run, RanSanityTests, fails);
    planned := planned + [RanSanityTests];
    assert planned == WindowsSetup(dir) + [RanSanityTests];
  }

  /** `a` happens at some point before `b`. */
  predicate Precedes(steps: seq<Step>, a: Step, b: Step) {
    exists i, j :: 0 <= i < j < |steps| && steps[i] == a && steps[j] == b
  }

  /** No step of the plan raises. */
  predicate NoneRaises(fails: Option<Step>, planned: seq<Step>) {
    fails.None? || fails.value !in planned
  }

  /** The setup part of `install_ubuntu` follows its plan and runs no test. */
  lemma UbuntuSetupFacts(dir: string, fails: Option<Step>)
    ensures var setup := RunUntilRaised(UbuntuSetup(dir), fails);
      && setup.steps <= UbuntuSetup(dir)
      && |setup.steps| > 0 && setup.steps[0] == CheckedPrerequisites
      && RanSanityTests !in setup.steps && RanExtendedTests !in setup.steps
      && (setup.raised.None? <==> NoneRaises(fails, UbuntuSetup(dir)))
      && (setup.raised.None? ==> setup.steps == UbuntuSetup(dir))
  {
    RunUntilRaisedFacts(UbuntuSetup(dir), fails);
    assert RanSanityTests !in UbuntuSetup(dir) && RanExtendedTests !in UbuntuSetup(dir);
  }

  /** The test part of `install_ubuntu`: the sanity tests start unless skipped, and the
      extended tests start only when asked for and after the sanity tests passed. */
  lemma UbuntuTestFacts(flags: Prompts.Flags, fails: Option<Step>)
    ensures var tests := RunUntilRaised(UbuntuTestSteps(flags), fails);
      && tests.steps <= UbuntuTestSteps(flags)
      && (RanSanityTests in tests.steps <==> !flags.skipTests)
      && (RanExtendedTests in tests.steps <==>
            !flags.skipTests && flags.extendedTests && fails != Some(RanSanityTests))
      && (tests.raised.None? <==> NoneRaises(fails, UbuntuTestSteps(flags)))
  {
    var planned := UbuntuTestSteps(flags);
    var sanity := RunUntilRaised([RanSanityTests], fails);
    assert [RanSanityTests][..0] == [];
    assert sanity == Then(FlowRun(None, []), RanSanityTests, fails);
    if !flags.skipTests && flags.extendedTests {
      assert planned[..1] == [RanSanityTests];
      assert RunUntilRaised(planned, fails) == Then(sanity, RanExtendedTests, fails);
    }
  }

  /** In the setup plan, METAFFI_HOME is set in the fifth step only. */
  lemma SetHomeIsFifth(dir: string, j: nat)
    requires j < |UbuntuSetup(dir)| && UbuntuSetup(dir)[j] == SetMetaffiHome(dir)
    ensures j == 4
  {
  }

  /** Without root privileges `install_ubuntu` raises before checking prerequisites or
      unpacking. With them it follows its plan: what it did is a prefix of the setup
      followed by the tests, all of it when nothing raised; the prerequisites are
      checked first, and the archive is unpacked into the chosen directory before
      METAFFI_HOME is set to it. */
  lemma UbuntuRootCheckFirst(isRoot: bool, flags: Prompts.Flags, dir: string, homeAfterRefresh: bool, fails: Option<Step>)
    ensures var run := UbuntuSpec(isRoot, flags, dir, homeAfterRefresh, fails);
      var plan := UbuntuSetup(dir) + UbuntuTestSteps(flags);
      && (!isRoot <==> run.steps == [])
      && (!isRoot ==> run.raised.Some?)
      && (isRoot ==> run.steps <= plan && run.steps[0] == CheckedPrerequisites)
      && (run.raised.None? ==> run.steps == plan)
      && (SetMetaffiHome(dir) in run.steps ==>
            Precedes(run.steps, ChoseInstallDir(dir), Unpacked(dir)) && Precedes(run.steps, Unpacked(dir), SetMetaffiHome(dir)))
  {
    var run := UbuntuSpec(isRoot, flags, dir, homeAfterRefresh, fails);
    var plan := UbuntuSetup(dir) + UbuntuTestSteps(flags);
    UbuntuSetupFacts(dir, fails);
    UbuntuTestFacts(flags, fails);
    if isRoot {
      var setup := RunUntilRaised(UbuntuSetup(dir), fails);
      assert setup.steps <= plan;
      if setup.raised.None? && homeAfterRefresh {
        var tests := RunUntilRaised(UbuntuTestSteps(flags), fails);
        assert run.steps == UbuntuSetup(dir) + tests.steps;
      }
      assert run.steps <= plan;
      HomeAfterUnpack(run.steps, dir, flags);
    }
  }

  /** In any prefix of the Ubuntu plan that sets METAFFI_HOME, the install directory was
      chosen and the archive unpacked before. */
  lemma HomeAfterUnpack(steps: seq<Step>, dir: string, flags: Prompts.Flags)
    requires steps <= UbuntuSetup(dir) + UbuntuTestSteps(flags)
    ensures SetMetaffiHome(dir) in steps ==>
      Precedes(steps, ChoseInstallDir(dir), Unpacked(dir)) && Precedes(steps, Unpacked(dir), SetMetaffiHome(dir))
  {
    if SetMetaffiHome(dir) in steps {
      var j :| 0 <= j < |steps| && steps[j] == SetMetaffiHome(dir);
      if j < 8 {
        SetHomeIsFifth(dir, j);
      }
      assert steps[1] == ChoseInstallDir(dir) && steps[2] == Unpacked(dir);
    }
  }

  /** `--skip-sanity` turns off every test on Ubuntu, and the extended tests run only
      when asked for and after the sanity tests completed. The run raises nothing
      exactly as root, with METAFFI_HOME visible and no step of the plan raising. */
  lemma UbuntuTests(isRoot: bool, flags: Prompts.Flags, dir: string, homeAfterRefresh: bool, fails: Option<Step>)
    ensures var run := UbuntuSpec(isRoot, flags, dir, homeAfterRefresh, fails);
      && (RanSanityTests in run.steps <==>
            isRoot && homeAfterRefresh && !flags.skipTests && NoneRaises(fails, UbuntuSetup(dir)))
      && (RanExtendedTests in run.steps <==>
            isRoot && homeAfterRefresh && !flags.skipTests && flags.extendedTests
            && NoneRaises(fails, UbuntuSetup(dir) + [RanSanityTests]))
      && (run.raised.None? <==>
            isRoot && homeAfterRefresh && NoneRaises(fails, UbuntuSetup(dir) + UbuntuTestSteps(flags)))
  {
    UbuntuSetupFacts(dir, fails);
    UbuntuTestFacts(flags, fails);
    if isRoot && NoneRaises(fails, UbuntuSetup(dir)) && homeAfterRefresh {
      var tests := RunUntilRaised(UbuntuTestSteps(flags), fails);
      assert UbuntuSpec(isRoot, flags, dir, homeAfterRefresh, fails).steps == UbuntuSetup(dir) + tests.steps;
    }
  }

  /** `install_windows` reads no flag; as administrator it refreshes the environment
      first and follows its plan. The sanity tests run exactly when no earlier step
      raised, and the extended tests never. */
  lemma WindowsIgnoresTestFlags(isAdmin: bool, flags: Prompts.Flags, other: Prompts.Flags, dir: string, fails: Option<Step>)
    ensures WindowsSpec(isAdmin, flags, dir, fails) == WindowsSpec(isAdmin, other, dir, fails)
    ensures var run := WindowsSpec(isAdmin, flags, dir, fails);
      && (RanSanityTests in run.steps <==> isAdmin && NoneRaises(fails, WindowsSetup(dir)))
      && RanExtendedTests !in run.steps
      && (!isAdmin <==> run.steps == [])
      && (isAdmin ==> run.steps <= WindowsSetup(dir) + [RanSanityTests] && run.steps[0] == RefreshedEnvironment)
      && (run.raised.None? <==> isAdmin && NoneRaises(fails, WindowsSetup(dir) + [RanSanityTests]))
  {
    var run := WindowsSpec(isAdmin, flags, dir, fails);
    var plan := WindowsSetup(dir) + [RanSanityTests];
    RunUntilRaisedFacts(plan, fails);
    assert RanSanityTests !in WindowsSetup(dir) && RanExtendedTests !in plan;
    if isAdmin {
      assert |run.steps| > 0 && run.steps[0] == plan[0];
      if RanSanityTests in run.steps {
        var j :| 0 <= j < |run.steps| && run.steps[j] == RanSanityTests;
        assert plan[j] == RanSanityTests;
        assert j == 8;
        assert run.steps[..8] == WindowsSetup(dir);
      }
    }
  }

  // ----- main -----

  /** Which installation `main` starts: `platform.system()` and, on Linux, `distro.name()`. */
  datatype Target = WindowsTarget | UbuntuTarget | Unsupported

  function TargetOf(p: Platform, distro: string): Target {
    if p == Windows then WindowsTarget
    else if p == Linux && distro == "Ubuntu" then UbuntuTarget
    else Unsupported
  }

  /** `main` of `install_metaffi_template.py`. `proceed` is what `set_installer_flags`
      returns and `raised` whether the started installation raised. `exit(1)` inside the
      `try` raises SystemExit, which `except Exception` does not catch. */
  function InstallMetaffiExit(proceed: bool, p: Platform, distro: string, raised: bool): int {
    if !proceed then 0
    else if TargetOf(p, distro) == Unsupported then 1
    else if raised then 2
    else 0
  }

  /** `main` of `metaffi_installer_template.py`, where the started installation either
      raises or returns the installation directory, which may be None. */
  function MetaffiInstallerExit(proceed: bool, p: Platform, distro: string, result: Result<Option<string>, string>): int {
    if !proceed then 0
    else if TargetOf(p, distro) == Unsupported then 1
    else match result
      case Err(_) => 2
      case Ok(None) => 3
      case Ok(Some(_)) => 0
  }

  /** Status 1 exactly for an unsupported OS or distribution, 2 exactly when the started
      installation raised, and 0 otherwise, including after a help flag. */
  lemma InstallMetaffiExitCodes(proceed: bool, p: Platform, distro: string, run: FlowRun)
    ensures var code := InstallMetaffiExit(proceed, p, distro, run.raised.Some?);
      && (code == 1 <==> proceed && TargetOf(p, distro) == Unsupported)
      && (code == 2 <==> proceed && TargetOf(p, distro) != Unsupported && run.raised.Some?)
      && (code == 0 <==> !proceed || (TargetOf(p, distro) != Unsupported && run.raised.None?))
  {
  }

  /** On Ubuntu `main` exits with 0 exactly when run as root, with METAFFI_HOME visible
      after the refresh and no planned step raising; every other run exits with 2. */
  lemma UbuntuExitCode(isRoot: bool, flags: Prompts.Flags, dir: string, homeAfterRefresh: bool, fails: Option<Step>)
    ensures var code := InstallMetaffiExit(true, Linux, "Ubuntu", UbuntuSpec(isRoot, flags, dir, homeAfterRefresh, fails).raised.Some?);
      && (code == 0 <==> isRoot && homeAfterRefresh && NoneRaises(fails, UbuntuSetup(dir) + UbuntuTestSteps(flags)))
      && (code != 0 ==> code == 2)
  {
    UbuntuTests(isRoot, flags, dir, homeAfterRefresh, fails);
  }

  /** On Windows `main` exits with 0 exactly for an administrator with no planned step
      raising, whatever the flags; every other run exits with 2. */
  lemma WindowsExitCode(isAdmin: bool, flags: Prompts.Flags, distro: string, dir: string, fails: Option<Step>)
    ensures var code := InstallMetaffiExit(true, Windows, distro, WindowsSpec(isAdmin, flags, dir, fails).raised.Some?);
      && (code == 0 <==> isAdmin && NoneRaises(fails, WindowsSetup(dir) + [RanSanityTests]))
      && (code != 0 ==> code == 2)
  {
    WindowsIgnoresTestFlags(isAdmin, flags, flags, dir, fails);
  }

  /** A non-root Ubuntu installation ends with status 2 without having touched anything. */
  lemma NonRootUbuntuExitsTwo(flags: Prompts.Flags, dir: string, homeAfterRefresh: bool, fails: Option<Step>)
    ensures var run := UbuntuSpec(false, flags, dir, homeAfterRefresh, fails);
      InstallMetaffiExit(true, Linux, "Ubuntu", run.raised.Some?) == 2 && run.steps == []
  {
  }

  /** In `metaffi_installer_template.py`: 1 exactly for an unsupported OS or distribution,
      3 exactly for a returned directory of None, 2 exactly for an exception. */
  lemma MetaffiInstallerExitCodes(proceed: bool, p: Platform, distro: string, result: Result<Option<string>, string>)
    ensures var code := MetaffiInstallerExit(proceed, p, distro, result);
      && (code == 1 <==> proceed && TargetOf(p, distro) == Unsupported)
      && (code == 3 <==> proceed && TargetOf(p, distro) != Unsupported && result == Ok(None))
      && (code == 2 <==> proceed && TargetOf(p, distro) != Unsupported && result.Err?)
      && (code == 0 <==> !proceed || (TargetOf(p, distro) != Unsupported && result.Ok? && result.value.Some?))
  {
  }
}
