# MetaFFI installer scripts in Dafny

This project models the decision logic of the MetaFFI installer repository. That repository is a set of
Python scripts that build, install, test, uninstall and publish MetaFFI and its language plugins:

- `build_installer.py` writes `metaffi_installer.py` from a template and turns it into executables. It
  resolves the JSON manifest into archive entries, zips them, embeds the archives as Base64 `bytes`
  literals and asks for build options.
- `build_plugin_installer.py` builds a plugin installer. It checks the plugin's
  `build_plugin_installer_helper.py`, lifts three helper functions into the plugin template and swaps the
  plugin's `uninstall_plugin.py` for its native executables.
- The installer templates (`install_metaffi_template.py`, `metaffi_installer_template.py`) hold the
  prompts, the install-directory loop, the installer flags and the install flows with their exit codes.
  They also hold the environment-variable tables (`/etc/environment`, the Windows registry `Path` and the
  refresh of `os.environ` from the registry) and the toolchain probes (DLL version, JDK path, Go gate).
  The environment helpers appear verbatim in three templates, and each is modelled once; the table
  below cites one copy. The copies:
  - `set_ubuntu_system_environment_variable`: `install_metaffi_template.py` 1341-1368,
    `metaffi_installer_template.py` 489-516 and `metaffi_plugin_installer_template.py` 595-622;
  - `set_windows_system_environment_variable` and `add_to_path_environment_variable`:
    `install_metaffi_template.py` 623-688, `metaffi_installer_template.py` 243-308 and
    `metaffi_plugin_installer_template.py` 220-285;
  - `refresh_windows_env`: `install_metaffi_template.py` 847-902, `metaffi_installer_template.py` 311-366
    and `metaffi_plugin_installer_template.py` 288-343.
- `metaffi_plugin_installer_template.py` holds the plugin installer's action and flag parsing, its
  `install` steps, the launcher script it writes and its `uninstall` action. Each file-system step
  of `install` may raise; the step that does is a parameter, and no step after it runs.
- The uninstallers are `templates/uninstall_template.py`, the current root uninstaller with its
  per-plugin uninstaller candidates, and `uninstall_template.py`, the legacy one. Beside them is the
  post-install test runner `post_install_tests_template.py`.
- `publish_to_launchpad.py` reads the version from the package name, picks the first version the PPA
  does not have, walks the distributions, and reads the GPG fingerprint and the prerequisite packages.

Every effect is given to the model from outside:

- the file system is a value: a `Tree` of entries, a list of lines, or a set of file names;
- environment maps, registry keys, `glob`, `abspath`, `expandvars`, `samefile`, `isabs` and process
  launches are parameters;
- console input is the sequence of lines the user would type;
- the PPA's answers are the set of versions already published.

Loops in the source are methods with loop invariants. Each method's `ensures` ties its result to a
function, and the lemmas state the properties on that function.

Modules:

- `Results` (Option, Result), `Text` (the Python string operations the scripts use, ASCII only),
  `Base64` (the standard alphabet with padding), `Host` (platform, directory tree, launch outcome,
  `os.path.join`).
- `Uninstallers` (candidate uninstallers), `RootUninstall`, `LegacyUninstall`, `PostInstallTests`.
- `Prompts`, `EnvTable`, `Probes`, `InstallerFlows`, `PluginInstaller`.
- `WslPaths`, `BuildInstaller`, `BuildPluginInstaller`, `Launchpad`.

Three behaviours of the code worth noting:

- In `templates/uninstall_template.py`, a plugin whose uninstaller fails keeps its directory. The removal
  sits inside the `try`, after the run. The final `rmtree` of the MetaFFI root still removes it.
- The Windows teardown calls `powershell` with `check=True` outside any `try`. If it fails, the script
  ends with status 1 and the root is not removed.
- `install_windows` never looks at the test flags. Only `install_ubuntu` honours `--skip-sanity` and
  `--include-extended-tests`.

## Model

| member | source | states |
|---|---|---|
| Host.PathJoin | templates/uninstall_template.py:87 | the joined path starts with the directory and ends with the name; a separator is put between them exactly when the directory is non-empty and does not already end with one |
| Base64.Encode | build_installer.py:158-159 | the encoding uses only the Base64 alphabet and the padding character |
| Base64.EncodeLength | build_installer.py:158-159 | every 3 bytes, and a last partial group, give 4 characters |
| Base64.DecodeEncode | install_metaffi_template.py:137 | decoding the encoding of any byte string gives back those bytes, so the payload unpacked at install time is the archive zipped at build time |
| Text.Split | publish_to_launchpad.py:110 | `str.split(sep)` gives at least one part, no part holds the separator, and joining the parts with it rebuilds the text |
| Text.SplitJoin | publish_to_launchpad.py:114 | splitting parts joined by a separator they do not hold gives back the parts |
| Text.ParseNatToString | publish_to_launchpad.py:115-116 | `int(str(n)) == n`: the decimal text of a number parses back to it |
| Text.ReplaceChar | build_installer.py:59 | `str.replace` of one character by another keeps the length and changes exactly the occurrences |
| Text.ReplaceFirst | build_plugin_installer.py:91 | `re.sub(..., count=1)` on a literal: the text before and after the first occurrence is kept and only that occurrence is replaced; no occurrence leaves the text unchanged |
| Text.DropLinesContaining | templates/uninstall_template.py:126-127 | `sed -i "/METAFFI_HOME/d"`: every kept line is one of the input lines without the pattern, and every line without it is kept |
| Text.DropLinesConcat | templates/uninstall_template.py:126-127 | deleting the matching lines of two files one after the other gives the concatenation, so lines are kept in order |
| Text.DropOneLine | templates/uninstall_template.py:126-127 | a single line is deleted exactly when it contains the pattern |
| Text.Tokens | install_metaffi_template.py:1245 | `str.split()` gives non-empty words without whitespace |
| Text.TokensCons | install_metaffi_template.py:1245 | leading whitespace, then a word up to the next whitespace, makes that whole word the first token, followed by the tokens of the rest |
| Text.TokensOfSpaces | install_metaffi_template.py:1245 | whitespace alone splits into no token |
| Text.TokensFlatten | install_metaffi_template.py:1245 | the tokens written one after the other are the text with its whitespace removed, so nothing but whitespace is lost and the order is kept |
| Uninstallers.Candidates | templates/uninstall_template.py:57-70 | four candidates in order: native executable, launcher script, `uninstall_plugin.py`, `uninstall.py` |
| Uninstallers.FirstPresent | templates/uninstall_template.py:93-97 | the chosen candidate is present and no earlier candidate is; a result of none means no candidate is present |
| Uninstallers.SelectUninstaller | templates/uninstall_template.py:93-97 | the candidate loop that breaks at the first existing file picks the first present candidate |
| Uninstallers.NativeWins | templates/uninstall_template.py:57-70 | a plugin shipping its native uninstaller always has that one run |
| Uninstallers.PythonOnlyAsFallback | templates/uninstall_template.py:57-70 | a Python uninstaller is chosen only when neither the native executable nor the launcher script exists |
| Uninstallers.CommandFor | templates/uninstall_template.py:41-54 | an unknown kind raises; an executable runs as itself, a launcher script through `cmd /c` on Windows or `bash` elsewhere, a Python uninstaller through the interpreter |
| Uninstallers.NativeRunsDirectly | templates/uninstall_template.py:41-70 | a plugin shipping its native uninstaller has it run directly, without a shell or interpreter |
| Uninstallers.ScriptRunsThroughShell | templates/uninstall_template.py:41-70 | without the native executable, a present launcher script is chosen and run through `cmd /c` or `bash` |
| RootUninstall.UninstallPlugins | templates/uninstall_template.py:83-114 | the loop over the root's entries yields exactly the state of the per-entry fold `Loop` |
| RootUninstall.LoopIsPerPlugin | templates/uninstall_template.py:83-114 | over distinct names, the failures, the launched commands and the directories removed are each decided plugin by plugin |
| RootUninstall.StepIsClassified | templates/uninstall_template.py:88-114 | one step removes, records a failure or records a launch exactly as the entry's classification says |
| RootUninstall.LoopKeepsIncludeAndFiles | templates/uninstall_template.py:84-89 | `include` and plain files at the root are never touched by the loop |
| RootUninstall.FailureAddsOne | templates/uninstall_template.py:107-114 | a failing plugin adds exactly one failure and keeps its directory |
| RootUninstall.RunRootUninstaller | templates/uninstall_template.py:73-140 | without METAFFI_HOME or its directory the script ends with status 1 and changes nothing; otherwise it gives the loop's result and the teardown, which is the environment unset, the powershell call whose failure ends with status 1, or the `.profile` edit, then the root removal and the exit status |
| RootUninstall.ExitThreeIffSomePluginFailed | templates/uninstall_template.py:132-140 | the run reports failures, and so exits with 3, exactly when some listed plugin fails |
| RootUninstall.FailuresOfEmpty | templates/uninstall_template.py:107-114 | no failure is recorded exactly when no plugin fails |
| LegacyUninstall.RemoveTree | uninstall_template.py:55-56 | `rmtree(..., ignore_errors=True)` removes a directory entry, leaves a file entry and changes nothing else |
| LegacyUninstall.UninstallPlugins | uninstall_template.py:47-66 | the loop gives the state of the fold `Loop`, including the exit status that stops it |
| LegacyUninstall.StoppedStaysStopped | uninstall_template.py:64-66 | once a plugin's uninstaller fails, later entries change nothing |
| LegacyUninstall.CompletedLoopRemovesPlugins | uninstall_template.py:47-66 | a loop that does not stop removes every listed plugin directory, keeps `include` and plain files, and adds nothing |
| LegacyUninstall.RunLegacyUninstaller | uninstall_template.py:39-82 | exit 1 without METAFFI_HOME or its directory; the failing plugin's status stops the script; otherwise the teardown runs and the root is removed |
| PostInstallTests.RunPluginTests | post_install_tests_template.py:19-50 | the loop gives the state of the per-plugin fold `Loop`, returning at the first failing script |
| PostInstallTests.StoppedStaysStopped | post_install_tests_template.py:48-50 | a failing test script stops the runner; later plugins change nothing |
| PostInstallTests.OnlyUniqueScriptsRun | post_install_tests_template.py:27-36 | every script that runs is the only match of its plugin's test pattern |
| PostInstallTests.SkippedPluginsNeverFail | post_install_tests_template.py:28-34 | a plugin with zero or several matching scripts is skipped without running anything |
| PostInstallTests.Status | post_install_tests_template.py:36-50 | a launch leaves status 0 exactly when the script exited with 0 (`check=True` raises otherwise) |
| PostInstallTests.StopIsFirstFailure | post_install_tests_template.py:36-50 | while the runner goes on every launch succeeded; once stopped, every earlier launch succeeded and the stop holds the last launch's status, which is non-zero |
| PostInstallTests.RanGrows | post_install_tests_template.py:19-47 | launches are only appended, so a longer listing's launches extend a shorter one's |
| PostInstallTests.ReachedScriptRuns | post_install_tests_template.py:19-47 | a plugin directory reached before any failure, with exactly one test script, has that script run from its own directory |
| PostInstallTests.RunPostInstallTests | post_install_tests_template.py:11-52 | exit 1 without METAFFI_HOME or its directory; otherwise the fold's state, and the status is non-zero exactly when a script failed: then it is the status of the last launch, the first failing one, and 0 means every launch succeeded |
| Prompts.FirstAccepted | metaffi_installer_template.py:64-76 | the first typed line whose answer is acceptable; none when no line is |
| Prompts.AskUser | metaffi_installer_template.py:45-79 | the prompt loop gives the answer of `Ask`, reading no more lines than typed |
| Prompts.InteractiveAnswer | metaffi_installer_template.py:64-76 | the answer is the acceptable stripped text of the last line read, or the default for an empty line, and every earlier line was rejected |
| Prompts.AnswerKeepsCase | metaffi_installer_template.py:64-76 | for a first line whose stripped text matches a choice ignoring case, the answer is that text as typed, after reading one line |
| Prompts.MatchIgnoresCase | metaffi_installer_template.py:71-72 | two answers equal after lower-casing are accepted by the same choices |
| Prompts.InstallRound | metaffi_installer_template.py:111-131 | a round accepts only a directory without a space that `abspath` resolves, or asks again |
| Prompts.GetInstallDir | metaffi_installer_template.py:102-136 | METAFFI_HOME or the silent flag decides without reading input; otherwise the prompt loop gives the directory of `InstallDir` |
| Prompts.AskRound | metaffi_installer_template.py:111-131 | one round of the directory prompt gives `InstallRound` |
| Prompts.AskInstallDir | metaffi_installer_template.py:111-134 | the directory prompt loop gives the answer of `InstallDirFrom` |
| Prompts.AcceptedDirHasNoSpace | metaffi_installer_template.py:111-134 | an accepted install directory is the absolute path of a candidate without a space |
| Prompts.SpaceRePrompts | metaffi_installer_template.py:116-120 | a path with a space is rejected and the prompt starts again |
| Prompts.NoRePrompts | metaffi_installer_template.py:126-128 | answering "no" to the confirmation starts the prompt again |
| Prompts.SetInstallerFlags | install_metaffi_template.py:1429-1453 | help stops the run; otherwise each flag is set exactly when its argument is given, and the test flags only for the full installer |
| EnvTable.FirstDefinition | metaffi_installer_template.py:498-508 | the first `/etc/environment` line that defines the variable; none when no line does |
| EnvTable.SetEtcEnvironment | metaffi_installer_template.py:489-515 | the file is rewritten exactly when the update gives new lines; otherwise nothing is written |
| EnvTable.EqualValueWritesNothing | metaffi_installer_template.py:498-508 | a variable whose first definition already has that value leaves the file unwritten |
| EnvTable.UpdateTouchesOneLine | metaffi_installer_template.py:498-511 | the update replaces only the first defining line, or appends one assignment when there is none |
| EnvTable.EtcEnvironmentIdempotent | metaffi_installer_template.py:489-515 | setting the same value a second time writes nothing |
| EnvTable.RegSet | install_metaffi_template.py:634 | after `SetValueEx` the value reads back and every other name is unchanged |
| EnvTable.SetWindowsSystemVariable | install_metaffi_template.py:623-641 | a variable already holding the value is left alone; otherwise only it changes |
| EnvTable.AnySame | install_metaffi_template.py:676 | false exactly when every `Path` entry is a different file; true only when some entry is the same file |
| EnvTable.AddToPath | install_metaffi_template.py:666-688 | it succeeds exactly when the machine `Path` value exists and every entry comparison succeeds; a directory not yet on `Path` is appended after a `;`, and one already on it changes nothing |
| EnvTable.AddToPathIdempotent | install_metaffi_template.py:666-688 | adding the same directory twice equals adding it once |
| EnvTable.RefreshWindowsEnv | install_metaffi_template.py:847-902 | the two registry loops give the environment of the system pass followed by the user pass |
| EnvTable.RefreshFrame | install_metaffi_template.py:847-902 | variables named in neither registry key keep their value |
| EnvTable.UserValueWins | install_metaffi_template.py:883-891 | the user's value of a variable other than `Path` replaces the system's |
| EnvTable.UserPathAppended | install_metaffi_template.py:883-891 | the user's `Path` is appended to the system `Path` after a `;` |
| Probes.DllVersionFields | install_metaffi_template.py:746-748 | the DLL version has four decimal fields below 65536 that rebuild the two 32-bit words |
| Probes.FirstAlternative | install_metaffi_template.py:1145 | the regular expression matches at the first token followed by an all-digit token and one more token |
| Probes.FirstSelecting | install_metaffi_template.py:1143-1155 | the first line that matches and whose name contains the version; none when no line does |
| Probes.JavaHomeIsFirstMatch | install_metaffi_template.py:1139-1157 | the JDK path is group 3 of the first such line |
| Probes.JavaHomeNone | install_metaffi_template.py:1139-1157 | None exactly when no line has a matching name |
| Probes.GoVersion | install_metaffi_template.py:1245 | fewer than three whitespace-separated tokens raise IndexError; otherwise a version is read |
| Probes.GoVersionOfOutput | install_metaffi_template.py:1245 | on an output `<word> <word> go<v> <os>`, as `go version` prints it, the version read is exactly `<v>` when `<v>` has no whitespace and no `go` |
| Probes.AsWrittenAcceptsGo19 | install_metaffi_template.py:1248 | the string comparison lets Go 1.9.0 through, though it is older than 1.21.0 |
| Probes.AsWrittenRejectsGo1100 | install_metaffi_template.py:1248 | the string comparison rejects Go 1.100.0, though it is newer than 1.21.0 |
| Probes.ParseComponents | install_metaffi_template.py:1245-1248 | each dot-separated field parses to its component; none when some field is not a number |
| Probes.GoRejectedIffOlder | install_metaffi_template.py:1248-1251 | the numeric gate rejects `major.minor.patch` exactly when it is below 1.21.0 |
| InstallerFlows.InstallUbuntu | install_metaffi_template.py:1377-1423 | the Ubuntu flow equals `UbuntuSpec`: without root it raises at once; otherwise the eight setup steps, then the METAFFI_HOME check, then the test steps, each run only while no earlier step raised, and the step `fails` raises |
| InstallerFlows.InstallWindows | install_metaffi_template.py:982-1020 | the Windows flow equals `WindowsSpec`: without admin rights it raises at once; otherwise the eight setup steps and the sanity tests, stopping at the step `fails` |
| InstallerFlows.RunUntilRaisedFacts | install_metaffi_template.py:1385-1421 | a run of planned calls does a prefix of them; it raises exactly when the failing step is planned, and then stops right after that step's first occurrence; otherwise it does every step |
| InstallerFlows.Perform | install_metaffi_template.py:1385-1421 | one more call extends the run of the planned calls by that call |
| InstallerFlows.UbuntuSetupFacts | install_metaffi_template.py:1385-1405 | the setup run consists of the eight setup calls in order, up to the one that raises |
| InstallerFlows.UbuntuTestFacts | install_metaffi_template.py:1407-1421 | the test run holds the sanity tests exactly when `--skip-sanity` is absent and the extended tests exactly when `--include-extended-tests` is also given, unless an earlier test raised |
| InstallerFlows.UbuntuRootCheckFirst | install_metaffi_template.py:1381-1405 | without root nothing is done and it raises; as root the steps are a prefix of the plan starting with the prerequisite check, the whole plan when nothing raises, and METAFFI_HOME is set only after the directory is picked and the archive unpacked |
| InstallerFlows.UbuntuTests | install_metaffi_template.py:1407-1421 | the sanity tests run exactly as root, with no setup step raising, METAFFI_HOME visible and no `--skip-sanity`; the extended tests also need `--include-extended-tests` and the sanity tests not to raise; the flow raises exactly when a step raises or a check fails |
| InstallerFlows.WindowsIgnoresTestFlags | install_metaffi_template.py:982-1020 | the Windows flow is the same for any flags; it runs the sanity tests exactly as admin with no setup step raising, never the extended ones, and raises exactly without admin rights or when a planned step raises |
| InstallerFlows.InstallMetaffiExitCodes | install_metaffi_template.py:1456-1475 | exit 1 exactly for an unsupported system, 2 exactly when the flow raises, otherwise 0 |
| InstallerFlows.UbuntuExitCode | install_metaffi_template.py:1456-1475 | on Ubuntu the installer exits with 0 exactly as root, with METAFFI_HOME visible and no step raising; otherwise with 2 |
| InstallerFlows.WindowsExitCode | install_metaffi_template.py:1456-1475 | on Windows the installer exits with 0 exactly as admin with no step raising; otherwise with 2 |
| InstallerFlows.NonRootUbuntuExitsTwo | install_metaffi_template.py:1381-1383 | a non-root Ubuntu run does nothing and exits with 2 |
| InstallerFlows.MetaffiInstallerExitCodes | metaffi_installer_template.py:609-636 | exit 1 for an unsupported system, 3 when no directory was chosen, 2 when the install raises, otherwise 0 |
| PluginInstaller.FlagActions | metaffi_plugin_installer_template.py:644-652 | the actions whose flags are set, each once |
| PluginInstaller.ParseActionAndFlags | metaffi_plugin_installer_template.py:634-668 | several action flags are an error; a positional action must agree with a flag; otherwise the positional, the flag or `install` is chosen, and the silent flag is passed on |
| PluginInstaller.LauncherRunsNativeCopy | metaffi_plugin_installer_template.py:419-440 | the launcher script only runs a temporary copy of the native uninstaller |
| PluginInstaller.RunInstall | metaffi_plugin_installer_template.py:359-443 | the install action, whichever step raises, gives the outcome and effects of `InstallSpec`: exit 1 without prerequisites, "Unsupported OS" or "must run as sudo" before any effect, then the refresh, exit 1 without METAFFI_HOME, and the install into METAFFI_HOME/PLUGIN_NAME |
| PluginInstaller.InstallInHome | metaffi_plugin_installer_template.py:398-443 | from the refresh on, in the plugin directory: `makedirs` when it is missing, then a payload that does not decode raises `binascii.Error`, otherwise the unpack and the later steps; the first step that raises ends the run (`InstallIntoDir`) |
| PluginInstaller.UnpackAndFinish | metaffi_plugin_installer_template.py:405-440 | the unpack of the archive and then the steps after it, up to the first that raises |
| PluginInstaller.FinishInstall | metaffi_plugin_installer_template.py:410-440 | environment setup, the `chmod` of `uninstall_plugin` on Ubuntu, the launcher script written and, on Ubuntu, made executable; the first of them that raises ends the run with it as the last effect |
| PluginInstaller.AttemptCompletes | metaffi_plugin_installer_template.py:398-442 | straight-line steps with none raising all happen in order, and the run ends with its normal outcome |
| PluginInstaller.AttemptRaises | metaffi_plugin_installer_template.py:398-442 | the first step that raises is the last effect; every step before it happened and none after it runs, and the run raises |
| PluginInstaller.MakeDirsRaises | metaffi_plugin_installer_template.py:400-402 | an `os.makedirs` that raises leaves only the refresh and that step, whether or not the payload would decode |
| PluginInstaller.InstallChecksBeforeEffects | metaffi_plugin_installer_template.py:363-384 | a failed prerequisite check or an unsupported system has no effect; otherwise the first effect is the environment refresh, and a refresh that raises is the only effect |
| PluginInstaller.InstalledMeansAllSteps | metaffi_plugin_installer_template.py:393-443 | a successful install had its prerequisites and METAFFI_HOME, and none of its steps raised; it created the plugin directory exactly when it was missing, unpacked the platform's decoded payload and wrote the launcher |
| PluginInstaller.InstallStopsAtFailingStep | metaffi_plugin_installer_template.py:398-442 | with the checks passed and the payload decoding, a planned step that raises (`makedirs`, unpack, `setup_environment`, a `chmod`, the launcher write) ends the install: the effects are the plan up to that step, it occurs once, as the last, and `main` exits with 2 |
| PluginInstaller.InstallUnpacksBuiltPayload | metaffi_plugin_installer_template.py:406 | a payload built by Base64-encoding an archive installs that very archive when no step of the plan raises |
| PluginInstaller.ExeFormatInjective | metaffi_plugin_installer_template.py:209-213 | the two `get_exe_format` formats, `name.exe` on Windows and `./name` elsewhere, are injective per platform: two names never give the same command |
| PluginInstaller.RunUninstall | metaffi_plugin_installer_template.py:456-508 | fails without METAFFI_HOME or the plugin directory or any candidate; otherwise it runs the first candidate and removes the directory exactly when the run succeeds |
| PluginInstaller.InstallExitsWithOne | metaffi_plugin_installer_template.py:363-396 | an install that exits does so with 1, after at most the environment refresh |
| PluginInstaller.MainExitCodes | metaffi_plugin_installer_template.py:671-703 | exit 0 exactly when the action succeeds, 1 for failed prerequisites or an install that exits, 2 for a parse error or an action that raises |
| WslPaths.ToWslPath | build_installer.py:212-216 | the WSL path has no backslash; a path not starting with `C:` or `c:` keeps every character with backslashes turned into `/`; a drive-C path becomes `/mnt/c` followed by the rest, rewritten the same way |
| WslPaths.ToWslPathIdempotent | build_installer.py:212-216 | rewriting a rewritten path changes nothing |
| WslPaths.MntPath | build_plugin_installer.py:211-214 | an empty absolute path raises; a relative path is kept; an absolute one is `/mnt/` and its lower-cased first character, then the rest without `:` and with `/` for backslash |
| WslPaths.MountPart | build_plugin_installer.py:213 | dropping colons and turning backslashes into `/` leaves neither, and on text without a colon keeps every other character in place |
| WslPaths.MountPartAppend | build_plugin_installer.py:213 | the rewrite works character by character, so it distributes over concatenation |
| WslPaths.ConvertToWslPath | publish_to_launchpad.py:56-61 | the result starts with `/` and has no backslash; a path without a colon is its slashed form with `/` put in front |
| WslPaths.Rooted | publish_to_launchpad.py:59-60 | the result starts with `/`, and only a path without one gets it added |
| WslPaths.ConvertDriveAnywhere | publish_to_launchpad.py:57 | a single `C:` or `c:`, wherever it stands, becomes `/mnt/c`, not only at the start |
| WslPaths.RewritesAgreeOnDriveC | build_installer.py:291-294 | for a `C:` path with no other colon, the three rewrites give the same `/mnt/c` path |
| WslPaths.RewritesDisagreeOffDriveC | build_plugin_installer.py:211-214 | for another drive such as `D:\x`, `to_wsl_path` keeps `D:`, the plugin build gives `/mnt/d/x` and `convert_to_wsl_path` gives `/D:/x`, so the rewrites disagree |
| BuildInstaller.OutputDir | build_installer.py:54-59 | KeyError exactly for a target other than windows or ubuntu; success exactly for such a target whose directory exists; the result is that path with every `\` turned into `/` and a `/` added |
| BuildInstaller.OutputDirOnLinux | build_installer.py:54-59 | on Linux the result is `{root}/output/{target}/x64/{config}/` |
| BuildInstaller.Arcname | build_installer.py:122-125 | a `dest` ending in `/` gets the basename appended; otherwise `dest` is the name |
| BuildInstaller.RelativeFiles | build_installer.py:89-91 | one relative entry per match, relative to the output directory, with slashes |
| BuildInstaller.MappedFiles | build_installer.py:118-127 | one (source, archive name) entry per match |
| BuildInstaller.PatternEntryFiles | build_installer.py:83-91 | a string entry raises FileNotFoundError exactly when nothing matches; otherwise one relative file per match |
| BuildInstaller.MappingEntryFiles | build_installer.py:93-127 | a dict entry raises exactly when nothing matches and it is not optional; otherwise one mapped file per match with the `dest` naming rule |
| BuildInstaller.OtherEntryRaises | build_installer.py:129-130 | any other entry type raises ValueError |
| BuildInstaller.AppendEntryFiles | build_installer.py:82-130 | one entry's files are appended, or its error is returned |
| BuildInstaller.ResolveManifestFiles | build_installer.py:69-132 | the loop gives the file list or first error of `Resolve` |
| BuildInstaller.RaisedStaysRaised | build_installer.py:69-132 | the first failing entry's error is the result whatever follows |
| BuildInstaller.ResolveSucceedsIffEveryEntry | build_installer.py:69-132 | the manifest resolves exactly when every entry resolves |
| BuildInstaller.ResolveConcat | build_installer.py:69-132 | resolving two manifests one after the other concatenates their files |
| BuildInstaller.ResolveSnoc | build_installer.py:82-130 | resolving one more entry appends its files or raises its error |
| BuildInstaller.ResolvedUseSlashes | build_installer.py:90-119 | every resolved path and source uses slashes only |
| BuildInstaller.ZipWrite | build_installer.py:138-152 | each entry is written under its archive name; a tuple is read from its first element, an absolute string from itself, a relative string from root plus path |
| BuildInstaller.ZipInstallerFiles | build_installer.py:135-154 | one write per file entry, in order |
| BuildInstaller.ArchiveNamesOfMapping | build_installer.py:118-152 | a dict entry's match is read from its slashed path and stored under the `dest` name |
| BuildInstaller.FirstAssignAt | build_installer.py:164-166 | the leftmost position where the line assigns the name; none when there is none |
| BuildInstaller.FirstAssigningLine | build_installer.py:164-166 | the first line that assigns the name; none when no line does |
| BuildInstaller.Substitute | build_installer.py:164-166 | `re.sub(..., count=1)`: only the first assigning line changes, from the match to the end of the line; without a match nothing changes |
| BuildInstaller.AssignmentAssigns | build_installer.py:164-166 | the replacement text itself assigns the name |
| BuildInstaller.SubstituteTwice | build_installer.py:164-166 | substituting twice equals substituting the second value once |
| BuildInstaller.PayloadRoundTrip | build_installer.py:157-166 | the embedded payload line holds the Base64 of the archive, decoding it gives the archive back, and no other line changes |
| BuildInstaller.LiteralReadBack | build_installer.py:164 | the `bytes` literal written into the installer reads back as the Base64 text |
| BuildInstaller.InstallerSourceKeepsLength | build_installer.py:157-166 | the generated installer has as many lines as the template |
| BuildInstaller.PayloadLineLacks | build_installer.py:163-165 | a written payload line holds no match of a later name, so the next substitution still finds its own line |
| BuildInstaller.SubstituteAtStart | build_installer.py:163-165 | an assignment that starts its line is replaced whole |
| BuildInstaller.EmbedKeepsLaterMatch | build_installer.py:163-164 | one payload substitution makes its line read back the archive, changes no other line, and leaves the first match of a later name where it was |
| BuildInstaller.ArchivesAndVersionFilled | build_installer.py:163-165 | the two payload substitutions then a version substitution: both payloads decode back to the archives, the version line is the replacement, no other line changes |
| BuildInstaller.InstallerSourceFilled | build_installer.py:157-166 | both payload lines decode back to the zipped archives, the `METAFFI_VERSION` line is set, and no other line changes |
| BuildInstaller.FirstTextMatch | build_installer.py:437-439 | the first choice equal to the answer ignoring case; none when no choice is |
| BuildInstaller.ChoiceOf | build_installer.py:430-447 | an accepted answer is one of the choices or the default; a line is accepted exactly when it is empty with a default, equals a choice ignoring case, or is a number from 1 to the count, so anything else re-prompts |
| BuildInstaller.FirstAnswered | build_installer.py:428-449 | the first typed line that is accepted; none when no line is |
| BuildInstaller.PromptChoice | build_installer.py:415-449 | the prompt loop gives the choice of `PromptChoiceSpec` |
| BuildInstaller.PromptChoiceValid | build_installer.py:415-449 | the choice is a listed choice or the default, and it fails exactly when no line is accepted |
| BuildInstaller.EmptyAnswerTakesDefault | build_installer.py:433-434 | an empty line gives the default; without a default it is accepted only as an empty choice |
| BuildInstaller.TextAnswerIsCanonical | build_installer.py:437-439 | a text answer gives the choice as listed, not as typed |
| BuildInstaller.NumberAnswerSelects | build_installer.py:442-445 | a number from 1 to the count of choices selects that choice, counted from 1 |
| BuildInstaller.NumberOutOfRangeRejected | build_installer.py:442-449 | a number outside the range is rejected |
| BuildInstaller.PromptString | build_installer.py:452-460 | end of input raises; an empty answer gives the default or raises ValueError; a non-empty answer gives exactly its stripped text |
| BuildPluginInstaller.ExeName | build_plugin_installer.py:182-183 | `.exe` is appended unless the name already contains it in any case, and the result contains it |
| BuildPluginInstaller.ExeNameIdempotent | build_plugin_installer.py:179-183 | applying the rule twice equals applying it once, and the default name is kept |
| BuildPluginInstaller.WindowsExeName | build_plugin_installer.py:179-183 | without an output name the default name is used; a given name goes through the `.exe` rule; the result names an `.exe` |
| BuildPluginInstaller.LinuxBuildInput | build_plugin_installer.py:205-214 | it raises exactly for an empty absolute path on a Windows build machine; there an absolute path becomes `/mnt/`, its lower-cased first character and the rest without `:` and with `/` for backslash; otherwise it is kept |
| BuildPluginInstaller.CapturedBody | build_plugin_installer.py:108-113 | after the leading whitespace, the body runs up to the first `\ndef`; without one, to the end of the text or just before a final line feed; it never contains `\ndef` |
| BuildPluginInstaller.TabbedRoundTrip | build_plugin_installer.py:116 | turning tabs back into four spaces gives back a body that had no tab |
| BuildPluginInstaller.ExtractCode | build_plugin_installer.py:99-121 | none exactly when the header is not found; otherwise the canonical header, a line feed and a tab, then the captured body with every four-space run turned into a tab, so no four-space run is left (the same for the functions at lines 124-171) |
| BuildPluginInstaller.TabbedHasNoFourSpaces | build_plugin_installer.py:116 | after `replace('    ', '\t')` no run of four spaces is left |
| BuildPluginInstaller.PluginTemplateFilled | build_plugin_installer.py:71-84 | both payload lines decode back to the zipped archives, the `PLUGIN_VERSION` line becomes `METAFFI_VERSION = '<version>'`, and no other line changes |
| BuildPluginInstaller.SetPluginName | build_plugin_installer.py:91 | only the first `PLUGIN_NAME=""` is filled in; the text around it is kept |
| BuildPluginInstaller.FirstMissing | build_plugin_installer.py:52-64 | the first dict item whose file does not exist; none when all exist |
| BuildPluginInstaller.ZipInstallerFiles | build_plugin_installer.py:45-69 | the zip loop gives the writes or FileNotFoundError of `ZipSpec` |
| BuildPluginInstaller.ZipWritesEveryKey | build_plugin_installer.py:52-66 | the archive is written exactly when every file exists, with one entry per item under its key |
| BuildPluginInstaller.MainCheckCodes | build_plugin_installer.py:244-302 | status 1 without two arguments, status 2 exactly for a relative plugin directory, and the build goes on only with every helper function and both homes set |
| BuildPluginInstaller.ReplaceUninstallerAsWritten | build_plugin_installer.py:313-334 | success needs the exact key `uninstall_plugin.py` and replaces it by the executable's key |
| BuildPluginInstaller.AsWrittenRejectsNestedScript | build_plugin_installer.py:313-330 | a script key below a directory passes the check but then raises KeyError |
| BuildPluginInstaller.ReplaceUninstallerFacts | build_plugin_installer.py:311-334 | the corrected replacement fails only when no key names the script; afterwards no key names it, the executable is mapped and every other file is kept |
| BuildPluginInstaller.ReplaceUninstallerAgrees | build_plugin_installer.py:330-334 | where the written code succeeds and only the exact key names the script, the corrected version gives the same map |
| Launchpad.DigitRun | publish_to_launchpad.py:103 | `\d+` takes the longest run of digits |
| Launchpad.LeadingNumber | publish_to_launchpad.py:103 | the number at the start and the rest, which does not begin with a digit |
| Launchpad.ExtractVersionOf | publish_to_launchpad.py:102-106 | every name `metaffi_<d>.<d>.<d>_amd64.deb...` yields its three fields |
| Launchpad.ExtractedIsRelease | publish_to_launchpad.py:102-106 | a version read from a name is a release whose fields, with the prefix and the suffix, start the name |
| Launchpad.IncrementVersionFails | publish_to_launchpad.py:108-117 | it fails exactly for four fields whose last is not a number |
| Launchpad.IncrementThreeFields | publish_to_launchpad.py:111-112 | a three-field version gains the field 1 |
| Launchpad.IncrementFourFields | publish_to_launchpad.py:113-116 | a four-field version keeps its first three fields and has the fourth incremented |
| Launchpad.IncrementCandidate | publish_to_launchpad.py:284-286 | incrementing the k-th candidate gives the next one |
| Launchpad.CandidatesDistinct | publish_to_launchpad.py:284-286 | no two candidates are the same version, so the loop never retries one |
| Launchpad.FindNextAvailableVersion | publish_to_launchpad.py:281-294 | jammy gets the first candidate not yet published and every earlier one is published; noble gets its increment |
| Launchpad.NobleDiffersFromJammy | publish_to_launchpad.py:288-289 | the noble version is never the jammy version |
| Launchpad.RunSpec | publish_to_launchpad.py:312-315 | the distributions are uploaded in order with their versions until the first without a version, which raises KeyError |
| Launchpad.ProcessDistributions | publish_to_launchpad.py:312-330 | the loop over the distributions gives the run of `RunSpec` |
| Launchpad.AsWrittenStopsAtKinetic | publish_to_launchpad.py:14 | with the distributions as written, jammy is uploaded and kinetic raises KeyError, so noble is never uploaded |
| Launchpad.VersionedDistributionsAllUploaded | publish_to_launchpad.py:312-315 | over the distributions that have a version, both are uploaded and nothing raises |
| Launchpad.FirstFingerprint | publish_to_launchpad.py:229-233 | the first `sec` line followed by a 40-character fingerprint; none when there is none |
| Launchpad.GetGpgFingerprint | publish_to_launchpad.py:226-234 | the loop gives the fingerprint or ValueError of `GpgFingerprintSpec` |
| Launchpad.GpgFingerprintFacts | publish_to_launchpad.py:226-234 | ValueError exactly when no `sec` line is followed by one; a fingerprint has 40 characters, no space, and comes from the line after a `sec` line |
| Launchpad.Missing | publish_to_launchpad.py:82-84 | a package is missing exactly when it is required and no line shows it installed |
| Launchpad.MissingConcat | publish_to_launchpad.py:82-84 | the packages missing from two lists are those missing from the first followed by those missing from the second, in required order |
| Launchpad.MissingOne | publish_to_launchpad.py:82-84 | one package is reported exactly when no line shows it installed |
| Launchpad.MissingPackages | publish_to_launchpad.py:82-85 | the loop gives `Missing`: the required packages not shown installed, in their required order |
| Launchpad.CheckRequirements | publish_to_launchpad.py:74-92 | the script goes on exactly when `dpkg -l` succeeds and every required package is installed; otherwise it exits with 1 |

## Left out

- I/O is not modelled: reading and writing files, the console, `subprocess`, `os.system`, the network
  (the Launchpad API, `requests`), `winreg`, `ctypes` and `pycrosskit`/`dotenv`. Each becomes a
  parameter or a recorded effect.
- ZIP and DEFLATE are not modelled. An archive is the list of (file read, archive name) writes.
- pyinstaller and WSL builds, and the moving and removal of build outputs, are not modelled.
- `build_combined_installer.py`, `publish_metaffi_to_winget*.py`, `upload_pyinstaller_to_github.py`,
  the toolchain installers and the test runners of the templates are not part of this model.
- The `grep`/`sed` variants of the Ubuntu environment functions are reduced to their line-table
  effect.
- Text is ASCII only. There is no Unicode case folding or whitespace beyond ASCII.
- Regular expressions are modelled by tokens and explicit scans, except where an oracle (`headerEnd`)
  gives the match.
- The payload regular expression `\s*` can span line breaks in Python. The model matches within one
  line.
- BuildPluginInstaller: the three substitutions of the stub functions (`build_plugin_installer.py`
  lines 88-90) are not modelled.
- Python `int()` accepts signs, surrounding spaces and underscores. The model accepts decimal digits
  only, in `prompt_choice` (surrounding spaces are stripped first) and `increment_version`.
- Host.PathJoin: does not model an absolute second part or a Windows drive letter, which make
  `os.path.join` drop or keep the first part.
- Windows `os.environ` is case-insensitive. The model stores names in upper case.
- Python dicts are modelled as maps where order does not matter, and as item sequences where it does.
- Base64 decoding is strict. `b64decode` without `validate=True` would skip characters outside the
  alphabet.
- Prompts.GetInstallDir: the silent loop that never ends in the source is modelled as a
  `NeverAccepted` error.
- Launchpad.FindNextAvailableVersion: it requires a release base, which is what
  `extract_version_from_deb` returns. The PPA's published versions are a finite set, the same on
  every query. The noble version is not itself checked against it, as in the source.
- Launchpad.GetGpgFingerprint: the output of `gpg` is given already split into lines.
- EnvTable.SetEtcEnvironment: a last line without a line feed before the appended assignment is not
  modelled.
- BuildInstaller.Substitute: `re.sub` reads backslash escapes such as `\1` in its replacement text; the
  model inserts the replacement literally. The Base64 text has no backslash, so only an unusual
  version string would differ.
- BuildPluginInstaller.SetPluginName: the replacement is inserted literally; `re.sub` would read
  backslash escapes in a plugin name.
- BuildInstaller.MappingEntryFiles: a dict entry without `src` or `dest` raises KeyError
  (`build_installer.py` lines 94-95); the model's entries always hold both.
- PluginInstaller.InstallSpec: every exception of a failing file-system step is recorded as the same
  `Raised("OSError")`, whatever its class; `main` handles all of them alike. The launcher write is
  recorded as `WroteLauncher(path, platform, dir)`, whose text is `LauncherText(platform, dir)`.
- Launchpad.ProcessDistributions: an exception while packaging or uploading a distribution, re-raised
  at `publish_to_launchpad.py` line 329, is not modelled; the outcome of a failed upload is only printed.
- LegacyUninstall.RunLegacyUninstaller: the exit status is the uninstaller's return code as an integer;
  the operating system's reduction of a status to 0-255 is not modelled.
- PostInstallTests.RunPostInstallTests: the exit status is the failing script's return code as an
  integer (`sys.exit(e.returncode)`, line 50); the reduction to 0-255, which turns a script killed
  by signal 9 (-9) into 247, is not modelled.
- InstallerFlows.InstallUbuntu: every exception a step can raise is the one value `StepRaised`; which
  exception it was, and its message, are not told apart. The same holds for InstallWindows.
- WslPaths.ConvertToWslPath: only paths with no colon, or with one drive-C colon, are characterized;
  several drives in one path are not stated.
- argparse parsing errors and `--help` output are not modelled.

## Findings

| source | as written | input that shows it | evidently intended | confidence | as-written member | corrected member |
|---|---|---|---|---|---|---|
| install_metaffi_template.py:1248 | the Go version is compared with "1.21.0" as a string | Go 1.9.0 passes the gate and Go 1.100.0 fails it | reject exactly the versions numerically below 1.21.0 | not executed; high | Probes.AsWrittenAcceptsGo19 | Probes.GoRejectedIffOlder |
| build_plugin_installer.py:313-334 | the check accepts any key containing `uninstall_plugin.py`, but `del` needs the exact key | a plugin whose files map `bin/uninstall_plugin.py` passes the assertion and then raises KeyError | replace every key that names the script by the executable | not executed; medium | BuildPluginInstaller.AsWrittenRejectsNestedScript | BuildPluginInstaller.ReplaceUninstallerFacts |
| publish_to_launchpad.py:14 | `DISTRIBUTIONS` lists `kinetic`, but `find_next_available_version` returns versions only for jammy and noble | every run: `versions['kinetic']` raises KeyError after jammy is uploaded | process the distributions that have a version, jammy and noble | not executed; high | Launchpad.AsWrittenStopsAtKinetic | Launchpad.VersionedDistributionsAllUploaded |
