/**
 * The decision logic of `build_plugin_installer.py`: the name of the Windows
 * executable, the path handed to the Linux build, the text transforms that lift the
 * helper functions of a plugin into its installer, the archive writes, the argument
 * checks of `main` and the replacement of the uninstall script by its executables.
 */
module BuildPluginInstaller {
  import opened Results
  import opened Text
  import opened Host
  import WslPaths
  import BuildInstaller
  import Base64

  /** The exceptions the plugin build raises. */
  datatype BuildError = AssertionError | KeyError | FileNotFoundError

  // ----- create_windows_exe -----

  /** The default output name of `create_windows_exe`. */
  function DefaultExeName(version: string, plugin: string): string {
    "metaffi-plugin-installer-" + version + "-" + plugin + ".exe"
  }

  lemma LowerAppend(a: string, b: string)
    ensures Lower(a + b) == Lower(a) + Lower(b)
  {
    assert forall i :: 0 <= i < |a + b| ==> Lower(a + b)[i] == (Lower(a) + Lower(b))[i];
  }

  /** `.exe` is appended unless it already occurs, in any case, anywhere in the name. */
  function ExeName(name: string): (r: string)
    ensures Contains(Lower(r), ".exe")
    ensures Contains(Lower(name), ".exe") ==> r == name
    ensures !Contains(Lower(name), ".exe") ==> r == name + ".exe"
  {
    if Contains(Lower(name), ".exe") then name
    else
      LowerAppend(name, ".exe");
      assert Lower(".exe") == ".exe";
      assert Contains(".exe", ".exe") by {
        assert ".exe" <= ".exe";
      }
      ContainsSuffix(Lower(name), ".exe", ".exe");
      name + ".exe"
  }

  /** The name rule is idempotent, and the default name is kept as it is. */
  lemma ExeNameIdempotent(name: string, version: string, plugin: string)
    ensures ExeName(ExeName(name)) == ExeName(name)
    ensures ExeName(DefaultExeName(version, plugin)) == DefaultExeName(version, plugin)
  {
    var d := DefaultExeName(version, plugin);
    var front := "metaffi-plugin-installer-" + version + "-" + plugin;
    assert d == front + ".exe";
    LowerAppend(front, ".exe");
    assert Lower(".exe") == ".exe";
    assert Contains(".exe", ".exe") by {
      assert ".exe" <= ".exe";
    }
    ContainsSuffix(Lower(front), ".exe", ".exe");
  }

  /** The name `create_windows_exe` builds, for `output_exec_name` given or not. */
  function WindowsExeName(version: string, plugin: string, outputName: Option<string>): (r: string)
    ensures Contains(Lower(r), ".exe")
    ensures outputName.None? ==> r == DefaultExeName(version, plugin)
    ensures outputName.Some? ==> r == ExeName(outputName.value)
  {
    ExeNameIdempotent("", version, plugin);
    ExeName(if outputName.Some? then outputName.value else DefaultExeName(version, plugin))
  }

  // ----- create_linux_executable -----

  /** The script path `create_linux_executable` hands to pyinstaller: on a Windows build
      machine an absolute path is rewritten into WSL's `/mnt/` tree; otherwise it is kept. */
  function LinuxBuildInput(host: Platform, path: string, isAbs: bool): (r: Result<string, string>)
    ensures host != Windows || !isAbs ==> r == Ok(path)
    ensures r.Err? <==> host == Windows && isAbs && |path| == 0
    ensures host == Windows && isAbs && r.Ok? ==> "/mnt/" <= r.value && '\\' !in r.value && ':' !in r.value
    ensures host == Windows && isAbs && |path| > 0 ==>
      r.value[5..] == WslPaths.MountPart([LowerChar(path[0])]) + WslPaths.MountPart(path[1..])
  {
    if host == Windows then WslPaths.MntPath(path, isAbs) else Ok(path)
  }

  // ----- extract_*_code -----

  lemma {:induction false} ContainsAt(s: string, sub: string)
    requires Contains(s, sub)
    ensures exists j :: 0 <= j && j + |sub| <= |s| && sub <= s[j..]
    decreases |s|
  {
    if sub <= s {
      assert s[0..] == s;
    } else {
      ContainsAt(s[1..], sub);
      var j :| 0 <= j && j + |sub| <= |s[1..]| && sub <= s[1..][j..];
      assert s[1..][j..] == s[j + 1..];
      assert sub <= s[j + 1..];
    }
  }

  /** A prefix of a text with no occurrence of `sub` before position `n` has none at all. */
  lemma PrefixLacks(s: string, sub: string, n: nat)
    requires |sub| > 0 && n <= |s|
    requires forall j :: 0 <= j < n ==> !(sub <= s[j..])
    ensures !Contains(s[..n], sub)
  {
    ContainsInPrefix(s, sub, n);
  }

  lemma ContainsInPrefix(s: string, sub: string, n: nat)
    requires |sub| > 0 && n <= |s|
    ensures Contains(s[..n], sub) ==> exists j :: 0 <= j < n && sub <= s[j..]
  {
    if Contains(s[..n], sub) {
      ContainsAt(s[..n], sub);
      var j :| 0 <= j && j + |sub| <= n && sub <= s[..n][j..];
      assert s[..n][j..] <= s[j..];
    }
  }

  /** Group 1 of `\s*(.*?)(?=\ndef|$)` with DOTALL, matched just after the `:` of the
      header: the greedy `\s*` takes the leading whitespace, and the lazy body ends at the
      first `\ndef` or, failing that, at the end of the text (before a final line feed,
      where `$` also matches). */
  function CapturedBody(after: string): (body: string)
    ensures !Contains(body, "\ndef")
    ensures var rest := TrimStart(after);
      && body <= rest
      && ("\ndef" <= rest[|body|..]
          || (!Contains(rest, "\ndef")
              && (rest[|body|..] == "\n" || (rest[|body|..] == "" && (|rest| == 0 || rest[|rest| - 1] != '\n')))))
  {
    var rest := TrimStart(after);
    match FindFirst(rest, "\ndef")
    case Some(i) =>
      PrefixLacks(rest, "\ndef", i);
      rest[..i]
    case None =>
      var n := if |rest| > 0 && rest[|rest| - 1] == '\n' then |rest| - 1 else |rest|;
      PrefixLacks(rest, "\ndef", n);
      PrefixLacks(rest, "\ndef", |rest|);
      assert rest[..|rest|] == rest;
      rest[..n]
  }

  /** `function_code.replace('    ', '\t')`. */
  function Tabbed(s: string): string {
    ReplaceAll(s, "    ", "\t")
  }

  /** Turning tabs back into four spaces gives back a tab-free body: the indentation
      change loses nothing. */
  lemma {:induction false} TabbedRoundTrip(s: string)
    requires '\t' !in s
    ensures ReplaceAll(Tabbed(s), "\t", "    ") == s
    decreases |s|
  {
    if |s| < 4 {
      ReplaceAllWithoutChar(s, "\t", "    ", '\t');
    } else if "    " <= s {
      TabbedRoundTrip(s[4..]);
      var t := Tabbed(s[4..]);
      assert Tabbed(s) == "\t" + t;
      assert ("\t" + t)[1..] == t;
      assert s == "    " + s[4..];
    } else {
      TabbedRoundTrip(s[1..]);
      var t := Tabbed(s[1..]);
      assert Tabbed(s) == [s[0]] + t;
      assert ([s[0]] + t)[1..] == t;
      assert !("\t" <= [s[0]] + t);
      assert s == [s[0]] + s[1..];
    }
  }

  /** The first `k` characters of `s` are spaces. */
  predicate LeadingBlanks(s: string, k: nat) {
    k <= |s| && forall i :: 0 <= i < k ==> s[i] == ' '
  }

  /** Up to three spaces at the front of the tabbed text were already there before. */
  lemma {:induction false} TabbedKeepsLeadingBlanks(t: string, k: nat)
    requires k <= 3 && LeadingBlanks(Tabbed(t), k)
    ensures LeadingBlanks(t, k)
    decreases |t|
  {
    if |t| < 4 {
      assert Tabbed(t) == t;
    } else if "    " <= t {
      assert Tabbed(t)[0] == '\t';
    } else if k > 0 {
      var rest := Tabbed(t[1..]);
      assert Tabbed(t) == [t[0]] + rest;
      assert LeadingBlanks(rest, k - 1) by {
        assert forall i :: 0 <= i < k - 1 ==> rest[i] == Tabbed(t)[i + 1];
      }
      TabbedKeepsLeadingBlanks(t[1..], k - 1);
      assert t[0] == Tabbed(t)[0];
      assert forall i :: 1 <= i < k ==> t[i] == t[1..][i - 1];
    }
  }

  /** After `replace('    ', '\t')` no run of four spaces is left. */
  lemma {:induction false} TabbedHasNoFourSpaces(s: string)
    ensures !Contains(Tabbed(s), "    ")
    decreases |s|
  {
    if |s| < 4 {
      assert Tabbed(s) == s;
      NotContainsShort(s, "    ");
    } else if "    " <= s {
      var rest := Tabbed(s[4..]);
      TabbedHasNoFourSpaces(s[4..]);
      assert Tabbed(s) == "\t" + rest;
      assert ("\t" + rest)[1..] == rest;
      assert !("    " <= "\t" + rest) by {
        assert ("\t" + rest)[0] == '\t';
      }
    } else {
      var rest := Tabbed(s[1..]);
      TabbedHasNoFourSpaces(s[1..]);
      assert Tabbed(s) == [s[0]] + rest;
      assert ([s[0]] + rest)[1..] == rest;
      if LeadingBlanks(rest, 3) {
        // the three spaces were in s already, so s cannot start with a fourth
        TabbedKeepsLeadingBlanks(s[1..], 3);
        assert forall i :: 1 <= i < 4 ==> s[i] == s[1..][i - 1];
        assert s[..4] == [s[0], s[1], s[2], s[3]];
        assert s[0] != ' ';
      }
      assert !("    " <= [s[0]] + rest);
    }
  }

  lemma {:induction false} NotContainsShort(s: string, sub: string)
    requires |s| < |sub|
    ensures !Contains(s, sub)
    decreases |s|
  {
    if |s| > 0 {
      NotContainsShort(s[1..], sub);
    }
  }

  lemma UntabbedBody(body: string)
    ensures '\t' !in body ==> ReplaceAll(Tabbed(body), "\t", "    ") == body
  {
    if '\t' !in body {
      TabbedRoundTrip(body);
    }
  }

  /** The headers the extracted functions get in the installer. */
  const SetupEnvironmentHeader: string := "def setup_environment():"
  const CheckPrerequisitesHeader: string := "def check_prerequisites() -> bool:"
  const PrintPrerequisitesHeader: string := "def print_prerequisites():"

  /** An `extract_*_code` function over the helper file's text. `headerEnd` is where the
      regular expression engine finds the end of the first header `def\s+NAME\s*\([^)]*\)\s*:`
      (with `\s*->\s*bool` before the colon for `check_prerequisites`), or None. The body
      is captured, re-indented with tabs, and put under the canonical header. */
  function ExtractCode(content: string, headerEnd: Option<nat>, header: string): (r: Option<string>)
    requires headerEnd.Some? ==> headerEnd.value <= |content|
    ensures r.None? <==> headerEnd.None?
    ensures r.Some? ==> header + "\n\t" <= r.value
    ensures r.Some? ==> var body := CapturedBody(content[headerEnd.value..]);
      && r.value == header + "\n\t" + Tabbed(body)
      && !Contains(body, "\ndef")
      && !Contains(r.value[|header| + 2..], "    ")
      && ('\t' !in body ==> ReplaceAll(r.value[|header| + 2..], "\t", "    ") == body)
  {
    match headerEnd
    case None => None
    case Some(e) =>
      var body := CapturedBody(content[e..]);
      var code := header + "\n\t" + Tabbed(body);
      assert code[|header| + 2..] == Tabbed(body);
      UntabbedBody(body);
      TabbedHasNoFourSpaces(body);
      Some(code)
  }

  // ----- create_plugin_installer_file -----

  /** The placeholder line of the plugin template. */
  const NamePlaceholder: string := "PLUGIN_NAME=\"\""

  /** `re.sub(r'PLUGIN_NAME=""', f'PLUGIN_NAME="{plugin_name}"', text, count=1)`: only the
      first placeholder is filled in; the text before it and after it is kept. */
  function SetPluginName(text: string, plugin: string): (r: string)
    ensures FindFirst(text, NamePlaceholder).None? ==> r == text
    ensures FindFirst(text, NamePlaceholder).Some? ==>
      var i := FindFirst(text, NamePlaceholder).value;
      var filled := "PLUGIN_NAME=\"" + plugin + "\"";
      && |r| == |text| - |NamePlaceholder| + |filled|
      && r[..i] == text[..i]
      && r[i..i + |filled|] == filled
      && r[i + |filled|..] == text[i + |NamePlaceholder|..]
  {
    ReplaceFirst(text, NamePlaceholder, "PLUGIN_NAME=\"" + plugin + "\"")
  }

  /** The three assignment substitutions of `create_plugin_installer_file`, on the lines
      of the template: the two payloads, then the `PLUGIN_VERSION` line, which becomes an
      assignment of `METAFFI_VERSION`. */
  function PluginTemplateLines(template: seq<string>, windowsZip: seq<Base64.Byte>, ubuntuZip: seq<Base64.Byte>, version: string): seq<string> {
    BuildInstaller.Substitute(BuildInstaller.EmbedArchives(template, windowsZip, ubuntuZip), "PLUGIN_VERSION", BuildInstaller.Assignment("METAFFI_VERSION", "'" + version + "'"))
  }

  /** `create_plugin_installer_file` on a template whose payload assignments and
      `PLUGIN_VERSION` assignment each start their line, in that order (lines 18-20 of
      the plugin template): both payloads decode back to the zipped archives, the
      version line becomes `METAFFI_VERSION = '<version>'`, and no other line changes. */
  lemma PluginTemplateFilled(template: seq<string>, windowsZip: seq<Base64.Byte>, ubuntuZip: seq<Base64.Byte>, version: string,
                             iw: nat, iu: nat, iv: nat)
    requires BuildInstaller.FirstAssigningLine(template, "windows_x64_zip") == Some(iw)
    requires BuildInstaller.FirstAssignAt(template[iw], "windows_x64_zip", 0) == Some(0)
    requires BuildInstaller.FirstAssigningLine(template, "ubuntu_x64_zip") == Some(iu)
    requires BuildInstaller.FirstAssignAt(template[iu], "ubuntu_x64_zip", 0) == Some(0)
    requires BuildInstaller.FirstAssigningLine(template, "PLUGIN_VERSION") == Some(iv)
    requires BuildInstaller.FirstAssignAt(template[iv], "PLUGIN_VERSION", 0) == Some(0)
    requires iw < iu < iv
    ensures var out := PluginTemplateLines(template, windowsZip, ubuntuZip, version);
      && |out| == |template|
      && BuildInstaller.LiteralPayload(out[iw], "windows_x64_zip") == Some(Base64.Encode(windowsZip))
      && Base64.Decode(Base64.Encode(windowsZip)) == Ok(windowsZip)
      && BuildInstaller.LiteralPayload(out[iu], "ubuntu_x64_zip") == Some(Base64.Encode(ubuntuZip))
      && Base64.Decode(Base64.Encode(ubuntuZip)) == Ok(ubuntuZip)
      && out[iv] == BuildInstaller.Assignment("METAFFI_VERSION", "'" + version + "'")
      && forall j :: 0 <= j < |template| && j != iw && j != iu && j != iv ==> out[j] == template[j]
  {
    BuildInstaller.NamesApart();
    BuildInstaller.ArchivesAndVersionFilled(template, windowsZip, ubuntuZip, iw, iu, iv, "PLUGIN_VERSION", 6,
                                            BuildInstaller.Assignment("METAFFI_VERSION", "'" + version + "'"));
  }

  // ----- zip_installer_files -----

  /** The file read for a dict value: an absolute path as it is, a relative one appended
      to the plugin directory by plain concatenation. */
  function ZipSource(root: string, isabs: string -> bool, local: string): string {
    if isabs(local) then local else root + local
  }

  /** The first dict item whose file does not exist. */
  function FirstMissing(items: seq<(string, string)>, root: string, isabs: string -> bool, exists_: string -> bool): (r: Option<nat>)
    ensures r.Some? ==> r.value < |items| && !exists_(ZipSource(root, isabs, items[r.value].1))
    ensures r.Some? ==> forall j :: 0 <= j < r.value ==> exists_(ZipSource(root, isabs, items[j].1))
    ensures r.None? ==> forall j :: 0 <= j < |items| ==> exists_(ZipSource(root, isabs, items[j].1))
  {
    if |items| == 0 then None
    else if !exists_(ZipSource(root, isabs, items[0].1)) then Some(0)
    else match FirstMissing(items[1..], root, isabs, exists_)
      case None => None
      case Some(j) => Some(j + 1)
  }

  /** `zip_installer_files` over the dict items in insertion order: each file is written
      under its key, and a missing file raises FileNotFoundError. A result of Ok lists the
      writes (file read, archive name). */
  function ZipSpec(items: seq<(string, string)>, root: string, isabs: string -> bool, exists_: string -> bool): Result<seq<(string, string)>, BuildError> {
    if FirstMissing(items, root, isabs, exists_).Some? then Err(FileNotFoundError)
    else Ok(seq(|items|, k requires 0 <= k < |items| => (ZipSource(root, isabs, items[k].1), items[k].0)))
  }

  method ZipInstallerFiles(items: seq<(string, string)>, root: string, isabs: string -> bool, exists_: string -> bool)
    returns (r: Result<seq<(string, string)>, BuildError>)
    ensures r == ZipSpec(items, root, isabs, exists_)
  {
    var writes: seq<(string, string)> := [];
    for i := 0 to |items|
      invariant |writes| == i
      invariant forall k :: 0 <= k < i ==> exists_(ZipSource(root, isabs, items[k].1))
      invariant forall k :: 0 <= k < i ==> writes[k] == (ZipSource(root, isabs, items[k].1), items[k].0)
    {
      var (arcname, localFilePath) := items[i];
      var source := if isabs(localFilePath) then localFilePath else root + localFilePath;
      if !exists_(source) {
        var m := FirstMissing(items, root, isabs, exists_);
        assert m.Some? && !(m.value < i) && !(m.value > i);
        return Err(FileNotFoundError);
      }
      writes := writes + [(source, arcname)];
    }
    assert writes == seq(|items|, k requires 0 <= k < |items| => (ZipSource(root, isabs, items[k].1), items[k].0));
    r := Ok(writes);
  }

  /** The archive is written exactly when every file exists, with one entry per item,
      named by its key. */
  lemma ZipWritesEveryKey(items: seq<(string, string)>, root: string, isabs: string -> bool, exists_: string -> bool)
    ensures ZipSpec(items, root, isabs, exists_).Ok? <==> forall j :: 0 <= j < |items| ==> exists_(ZipSource(root, isabs, items[j].1))
    ensures ZipSpec(items, root, isabs, exists_).Ok? ==>
      var writes := ZipSpec(items, root, isabs, exists_).value;
      && |writes| == |items|
      && forall k :: 0 <= k < |items| ==> writes[k].1 == items[k].0 && exists_(writes[k].0)
  {
    var m := FirstMissing(items, root, isabs, exists_);
    if m.Some? {
      assert !exists_(ZipSource(root, isabs, items[m.value].1));
    }
  }

  // ----- main -----

  /** Which functions `build_plugin_installer_helper.py` defines. */
  datatype Helper = Helper(getFiles: bool, setupEnvironment: bool, checkPrerequisites: bool,
                           printPrerequisites: bool, getVersion: bool)

  /** How the checks at the start of `main` end: an exit status, a failed assertion, or
      on to the build. */
  datatype Outcome = ExitWith(code: int) | Raised(error: BuildError) | Proceed

  /** The checks of `main` up to `get_files`, in their order. `argv` includes the script
      name; `isAbs` and `helperExists` are `os.path.isabs(argv[1])` and whether the helper
      file exists in that directory. */
  function MainChecks(argv: seq<string>, metaffiHome: Option<string>, isAbs: bool, helperExists: bool,
                      helper: Helper, winHome: Option<string>, ubuntuHome: Option<string>): Outcome {
    if |argv| != 3 then ExitWith(1)
    else if metaffiHome.None? then Raised(AssertionError)
    else if !isAbs then ExitWith(2)
    else if !helperExists then ExitWith(1)
    else if !helper.getFiles || !helper.setupEnvironment || !helper.checkPrerequisites
         || !helper.printPrerequisites || !helper.getVersion then ExitWith(1)
    else if winHome.None? || winHome == Some("") then Raised(AssertionError)
    else if ubuntuHome.None? || ubuntuHome == Some("") then Raised(AssertionError)
    else Proceed
  }

  /** Status 1 without exactly two arguments, status 2 exactly for a plugin directory that
      is not absolute (once METAFFI_HOME is set), and the build proceeds only with every
      helper function and both homes present. */
  lemma MainCheckCodes(argv: seq<string>, metaffiHome: Option<string>, isAbs: bool, helperExists: bool,
                       helper: Helper, winHome: Option<string>, ubuntuHome: Option<string>)
    ensures var o := MainChecks(argv, metaffiHome, isAbs, helperExists, helper, winHome, ubuntuHome);
      && (|argv| != 3 ==> o == ExitWith(1))
      && (o == ExitWith(2) <==> |argv| == 3 && metaffiHome.Some? && !isAbs)
      && (o == Proceed <==> (|argv| == 3 && metaffiHome.Some? && isAbs && helperExists
            && helper == Helper(true, true, true, true, true)
            && winHome.Some? && winHome != Some("") && ubuntuHome.Some? && ubuntuHome != Some("")))
  {
  }

  /** `'uninstall_plugin.py' in file` for some key of the dict. */
  predicate HasUninstallScript(files: map<string, string>) {
    exists k :: k in files && Contains(k, "uninstall_plugin.py")
  }

  /** Lines 313-334 as written: the check accepts any key containing the script name,
      but `del` then needs the exact key `uninstall_plugin.py`. */
  function ReplaceUninstallerAsWritten(files: map<string, string>, exeKey: string, exePath: string): (r: Result<map<string, string>, BuildError>)
    ensures r.Ok? ==> "uninstall_plugin.py" in files && r.value.Keys == files.Keys - {"uninstall_plugin.py"} + {exeKey}
  {
    if !HasUninstallScript(files) then Err(AssertionError)
    else if "uninstall_plugin.py" !in files then Err(KeyError)
    else Ok((files - {"uninstall_plugin.py"})[exeKey := exePath])
  }

  /** A plugin whose script sits in any sub-directory passes the check and then fails
      with KeyError; the corrected replacement accepts it. */
  lemma AsWrittenRejectsNestedScript(dir: string, source: string, exeKey: string, exePath: string)
    requires |dir| > 0
    ensures var files := map[dir + "uninstall_plugin.py" := source];
      && HasUninstallScript(files)
      && ReplaceUninstallerAsWritten(files, exeKey, exePath) == Err(KeyError)
      && ReplaceUninstaller(files, exeKey, exePath).Ok?
  {
    NestedScriptKey(dir, "uninstall_plugin.py", source);
  }

  /** A one-file archive whose key is `name` below a directory has a key containing
      `name`, but not the key `name` itself. */
  lemma NestedScriptKey(dir: string, name: string, source: string)
    requires |dir| > 0
    ensures var files := map[dir + name := source];
      (exists k :: k in files && Contains(k, name)) && name !in files
  {
    NestedName(dir, name);
    assert dir + name in map[dir + name := source];
  }

  /** A name below a directory contains the bare name and differs from it. */
  lemma NestedName(dir: string, name: string)
    requires |dir| > 0
    ensures Contains(dir + name, name) && dir + name != name
  {
    assert Contains(name, name) by {
      assert name <= name;
    }
    ContainsSuffix(dir, name, name);
    assert |dir + name| > |name|;
  }

  /** The evidently intended replacement: every key naming the script is dropped and the
      executable is added. */
  function ReplaceUninstaller(files: map<string, string>, exeKey: string, exePath: string): (r: Result<map<string, string>, BuildError>)
  {
    if !HasUninstallScript(files) then Err(AssertionError)
    else Ok((map k | k in files && !Contains(k, "uninstall_plugin.py") :: files[k])[exeKey := exePath])
  }

  /** The corrected replacement fails only when no key names the script; afterwards no
      key names it (the executable's key does not), the executable is mapped, and every
      other file keeps its source. */
  lemma ReplaceUninstallerFacts(files: map<string, string>, exeKey: string, exePath: string)
    requires !Contains(exeKey, "uninstall_plugin.py")
    ensures var r := ReplaceUninstaller(files, exeKey, exePath);
      && (r.Ok? <==> HasUninstallScript(files))
      && (r.Ok? ==> (
           && !HasUninstallScript(r.value)
           && exeKey in r.value && r.value[exeKey] == exePath
           && (forall k :: k in files && k != exeKey && !Contains(k, "uninstall_plugin.py") ==> k in r.value && r.value[k] == files[k])
           && (forall k :: k in r.value && k != exeKey ==> k in files)))
  {
  }

  /** Wherever the as-written replacement succeeds, the corrected one gives the same map. */
  lemma ReplaceUninstallerAgrees(files: map<string, string>, exeKey: string, exePath: string)
    requires ReplaceUninstallerAsWritten(files, exeKey, exePath).Ok?
    requires forall k :: k in files && Contains(k, "uninstall_plugin.py") ==> k == "uninstall_plugin.py"
    ensures ReplaceUninstaller(files, exeKey, exePath) == ReplaceUninstallerAsWritten(files, exeKey, exePath)
  {
    assert Contains("uninstall_plugin.py", "uninstall_plugin.py") by {
      assert "uninstall_plugin.py" <= "uninstall_plugin.py";
    }
    var kept := map k | k in files && !Contains(k, "uninstall_plugin.py") :: files[k];
    assert kept == files - {"uninstall_plugin.py"};
  }
}
