/**
 * The environment tables the installers edit: the lines of `/etc/environment` on
 * Ubuntu, the machine and user `Environment` registry keys on Windows, and the
 * process environment `os.environ` that `refresh_windows_env` reloads from them.
 */
module EnvTable {
  import opened Results
  import opened Text

  // ----- /etc/environment -----

  /** The line `set_ubuntu_system_environment_variable` writes. */
  function Assignment(name: string, value: string): string {
    name + "=" + value + "\n"
  }

  /** `line.startswith(f"{name}=")`: so `export NAME=...` and `NAMEX=...` do not count. */
  predicate Defines(line: string, name: string) {
    name + "=" <= line
  }

  /** `line.split("=")[1].strip()`: the text between the first and the second `=`. */
  function CurrentValue(line: string): string
    requires '=' in line
  {
    SplitHasTwoParts(line, '=');
    Strip(Split(line, '=')[1])
  }

  lemma SplitHasTwoParts(s: string, sep: char)
    requires sep in s
    ensures |Split(s, sep)| >= 2
  {
  }

  /** The first line that defines `name`. */
  function FirstDefinition(lines: seq<string>, name: string): (r: Option<nat>)
    ensures r.Some? ==> r.value < |lines| && Defines(lines[r.value], name)
    ensures r.Some? ==> forall j :: 0 <= j < r.value ==> !Defines(lines[j], name)
    ensures r.None? ==> forall j :: 0 <= j < |lines| ==> !Defines(lines[j], name)
  {
    if |lines| == 0 then None
    else if Defines(lines[0], name) then Some(0)
    else match FirstDefinition(lines[1..], name)
      case None => None
      case Some(i) => Some(i + 1)
  }

  lemma DefinesHasEquals(line: string, name: string)
    requires Defines(line, name)
    ensures '=' in line && line[|name|] == '='
  {
    assert line[|name|] == (name + "=")[|name|];
  }

  /** The new contents of the file, or None when nothing is written. */
  function EtcEnvironmentUpdate(lines: seq<string>, name: string, value: string): Option<seq<string>> {
    match FirstDefinition(lines, name)
    case None => Some(lines + [Assignment(name, value)])
    case Some(i) =>
      DefinesHasEquals(lines[i], name);
      if CurrentValue(lines[i]) == value then None
      else Some(lines[i := Assignment(name, value)])
  }

  /** `set_ubuntu_system_environment_variable` on the lines read from `/etc/environment`:
      `written` says whether the file is rewritten, `newLines` is what it then holds. */
  method SetEtcEnvironment(lines: seq<string>, name: string, value: string) returns (written: bool, newLines: seq<string>)
    ensures !written ==> newLines == lines
    ensures (if written then Some(newLines) else None) == EtcEnvironmentUpdate(lines, name, value)
  {
    newLines := lines;
    var i := 0;
    while i < |newLines|
      invariant 0 <= i <= |lines| && newLines == lines
      invariant forall j :: 0 <= j < i ==> !Defines(lines[j], name)
    {
      if Defines(newLines[i], name) {
        DefinesHasEquals(newLines[i], name);
        FirstDefinitionAt(lines, name, i);
        if CurrentValue(newLines[i]) == value {
          return false, lines;
        }
        newLines := newLines[i := Assignment(name, value)];
        return true, newLines;
      }
      i := i + 1;
    }
    assert FirstDefinition(lines, name).None?;
    newLines := newLines + [Assignment(name, value)];
    written := true;
  }

  lemma FirstDefinitionAt(lines: seq<string>, name: string, i: nat)
    requires i < |lines| && Defines(lines[i], name)
    requires forall j :: 0 <= j < i ==> !Defines(lines[j], name)
    ensures FirstDefinition(lines, name) == Some(i)
  {
    var r := FirstDefinition(lines, name);
    assert r.Some?;
    assert !(r.value < i) && !(r.value > i);
  }

  /** When the first definition already holds the value, the file is not touched. */
  lemma EqualValueWritesNothing(lines: seq<string>, name: string, value: string, i: nat)
    requires i < |lines| && Defines(lines[i], name) && '=' in lines[i]
    requires forall j :: 0 <= j < i ==> !Defines(lines[j], name)
    requires CurrentValue(lines[i]) == value
    ensures EtcEnvironmentUpdate(lines, name, value).None?
  {
    FirstDefinitionAt(lines, name, i);
  }

  /** A differing value rewrites only the first definition; every other line is kept,
      in order; with no definition exactly one line is appended. */
  lemma UpdateTouchesOneLine(lines: seq<string>, name: string, value: string)
    requires EtcEnvironmentUpdate(lines, name, value).Some?
    ensures var r := EtcEnvironmentUpdate(lines, name, value).value;
      match FirstDefinition(lines, name)
      case None => r == lines + [Assignment(name, value)]
      case Some(i) =>
        |r| == |lines| && r[i] == Assignment(name, value) &&
        forall j :: 0 <= j < |lines| && j != i ==> r[j] == lines[j]
  {
  }

  lemma AssignmentValue(name: string, value: string)
    requires '=' !in name && '=' !in value && Stripped(value)
    ensures Defines(Assignment(name, value), name)
    ensures '=' in Assignment(name, value) && CurrentValue(Assignment(name, value)) == value
  {
    var line := Assignment(name, value);
    assert line == name + ['='] + (value + "\n");
    DefinesHasEquals(line, name);
    SplitCons(name, '=', value + "\n");
    assert '=' !in value + "\n";
    SplitWithoutSeparator(value + "\n", '=');
    assert AllSpaces("\n");
    StripOfPadded(value, "\n");
  }

  /** Setting the same variable twice writes once: the second call finds the line the
      first one wrote (for a name and value free of `=` and of surrounding whitespace). */
  lemma EtcEnvironmentIdempotent(lines: seq<string>, name: string, value: string)
    requires '=' !in name && '=' !in value && Stripped(value)
    requires EtcEnvironmentUpdate(lines, name, value).Some?
    ensures EtcEnvironmentUpdate(EtcEnvironmentUpdate(lines, name, value).value, name, value).None?
  {
    var r := EtcEnvironmentUpdate(lines, name, value).value;
    AssignmentValue(name, value);
    match FirstDefinition(lines, name)
    case None =>
      assert r == lines + [Assignment(name, value)];
      assert forall j :: 0 <= j < |lines| ==> r[j] == lines[j];
      EqualValueWritesNothing(r, name, value, |lines|);
    case Some(i) =>
      assert r == lines[i := Assignment(name, value)];
      EqualValueWritesNothing(r, name, value, i);
  }

  // ----- Windows registry and process environment -----

  /** A value of a registry key, as `winreg.EnumValue` yields it. */
  datatype RegValue = RegValue(name: string, data: string)

  /** A registry key: its values in enumeration order. Value names are compared
      without regard to case. */
  type RegKey = seq<RegValue>

  predicate SameName(a: string, b: string) {
    Lower(a) == Lower(b)
  }

  /** `winreg.QueryValueEx(key, name)`; None stands for FileNotFoundError. */
  function RegLookup(key: RegKey, name: string): Option<string> {
    if |key| == 0 then None
    else if SameName(key[0].name, name) then Some(key[0].data)
    else RegLookup(key[1..], name)
  }

  /** `winreg.SetValueEx(key, name, ...)`: overwrites the value of that name in place,
      or adds a new value at the end. */
  function RegSet(key: RegKey, name: string, data: string): (r: RegKey)
    ensures RegLookup(r, name) == Some(data)
    ensures forall m :: !SameName(m, name) ==> RegLookup(r, m) == RegLookup(key, m)
  {
    if |key| == 0 then [RegValue(name, data)]
    else if SameName(key[0].name, name) then [RegValue(key[0].name, data)] + key[1..]
    else [key[0]] + RegSet(key[1..], name, data)
  }

  /** `os.environ` on Windows: names are stored upper-cased. */
  type Environ = map<string, string>

  /** `set_windows_system_environment_variable`: the machine key after the call. The
      process environment is only consulted, never changed. */
  function SetWindowsSystemVariable(env: Environ, machine: RegKey, name: string, val: string): (r: RegKey)
    ensures Upper(name) in env && env[Upper(name)] == val ==> r == machine
    ensures !(Upper(name) in env && env[Upper(name)] == val) ==>
      RegLookup(r, name) == Some(val) &&
      forall m :: !SameName(m, name) ==> RegLookup(r, m) == RegLookup(machine, m)
  {
    if Upper(name) in env && env[Upper(name)] == val then machine
    else RegSet(machine, name, val)
  }

  /** Outcome of `os.path.samefile(a, b)`; it raises when either file is missing. */
  datatype SameFile = Same | Different | StatError(reason: string)

  /** `any(os.path.samefile(path, expand(p)) for p in entries)`: evaluated left to right
      and stopping at the first entry that is the same file, or that raises. */
  function AnySame(path: string, entries: seq<string>, same: (string, string) -> SameFile, expand: string -> string): (r: Result<bool, string>)
    ensures r == Ok(false) <==> forall i :: 0 <= i < |entries| ==> same(path, expand(entries[i])) == Different
    ensures r.Ok? && r.value ==> exists i :: 0 <= i < |entries| && same(path, expand(entries[i])) == Same
    decreases |entries|
  {
    if |entries| == 0 then Ok(false)
    else match same(path, expand(entries[0]))
      case Same => Ok(true)
      case StatError(e) => Err(e)
      case Different =>
        var r := AnySame(path, entries[1..], same, expand);
        assert forall i :: 1 <= i < |entries| ==> entries[i] == entries[1..][i - 1];
        r
  }

  lemma {:induction false} AnySameSnoc(path: string, entries: seq<string>, last: string, same: (string, string) -> SameFile, expand: string -> string)
    requires AnySame(path, entries, same, expand) == Ok(false)
    requires same(path, expand(last)) == Same
    ensures AnySame(path, entries + [last], same, expand) == Ok(true)
    decreases |entries|
  {
    if |entries| == 0 {
      assert entries + [last] == [last];
    } else {
      assert (entries + [last])[1..] == entries[1..] + [last];
      assert (entries + [last])[0] == entries[0];
      AnySameSnoc(path, entries[1..], last, same, expand);
    }
  }

  /** `add_to_path_environment_variable`: the machine key afterwards, or the exception
      raised (no `Path` value, or a `samefile` that fails). */
  function AddToPath(machine: RegKey, path: string, same: (string, string) -> SameFile, expand: string -> string): (r: Result<RegKey, string>)
    ensures r.Ok? <==>
      (RegLookup(machine, "Path").Some? && AnySame(path, Split(RegLookup(machine, "Path").value, ';'), same, expand).Ok?)
    ensures RegLookup(machine, "Path").Some? && r.Ok? ==>
      var cur := RegLookup(machine, "Path").value;
      if AnySame(path, Split(cur, ';'), same, expand) == Ok(false) then
        RegLookup(r.value, "Path") == Some(cur + ";" + path) &&
        forall m :: !SameName(m, "Path") ==> RegLookup(r.value, m) == RegLookup(machine, m)
      else r.value == machine
  {
    match RegLookup(machine, "Path")
    case None => Err("FileNotFoundError")
    case Some(cur) =>
      match AnySame(path, Split(cur, ';'), same, expand)
      case Err(e) => Err(e)
      case Ok(found) => if found then Ok(machine) else Ok(RegSet(machine, "Path", cur + ";" + path))
  }

  /** Adding the same directory twice appends it once (for a directory without `;` that
      is the same file as its own expansion). */
  lemma AddToPathIdempotent(machine: RegKey, path: string, same: (string, string) -> SameFile, expand: string -> string)
    requires AddToPath(machine, path, same, expand).Ok?
    requires ';' !in path && same(path, expand(path)) == Same
    ensures AddToPath(AddToPath(machine, path, same, expand).value, path, same, expand) ==
      AddToPath(machine, path, same, expand)
  {
    var cur := RegLookup(machine, "Path").value;
    var m1 := AddToPath(machine, path, same, expand).value;
    if AnySame(path, Split(cur, ';'), same, expand) == Ok(false) {
      assert RegLookup(m1, "Path") == Some(cur + ";" + path);
      SplitSnoc(cur, ';', path);
      assert cur + ";" + path == cur + [';'] + path;
      AnySameSnoc(path, Split(cur, ';'), path, same, expand);
    }
  }

  /** `os.path.expandvars(os.path.expanduser(value))`, which reads the environment. */
  type Expander = (Environ, string) -> string

  /** A system value overwrites the variable. */
  function SystemStep(env: Environ, v: RegValue, expand: Expander): Environ {
    env[Upper(v.name) := expand(env, v.data)]
  }

  predicate IsPathName(name: string) {
    Lower(name) == "path"
  }

  /** A user `Path` is appended to an existing one; any other user value overwrites. */
  function UserStep(env: Environ, v: RegValue, expand: Expander): Environ {
    var x := expand(env, v.data);
    if Upper(v.name) in env && IsPathName(v.name) then env[Upper(v.name) := env[Upper(v.name)] + ";" + x]
    else env[Upper(v.name) := x]
  }

  function ApplySystem(env: Environ, values: RegKey, expand: Expander): Environ
    decreases |values|
  {
    if |values| == 0 then env
    else SystemStep(ApplySystem(env, values[..|values| - 1], expand), values[|values| - 1], expand)
  }

  function ApplyUser(env: Environ, values: RegKey, expand: Expander): Environ
    decreases |values|
  {
    if |values| == 0 then env
    else UserStep(ApplyUser(env, values[..|values| - 1], expand), values[|values| - 1], expand)
  }

  /** `refresh_windows_env`: system values first, then user values. */
  method RefreshWindowsEnv(env: Environ, machine: RegKey, user: RegKey, expand: Expander) returns (e: Environ)
    ensures e == ApplyUser(ApplySystem(env, machine, expand), user, expand)
  {
    e := env;
    for i := 0 to |machine|
      invariant e == ApplySystem(env, machine[..i], expand)
    {
      assert machine[..i + 1][..i] == machine[..i];
      var v := machine[i];
      e := e[Upper(v.name) := expand(e, v.data)];
    }
    assert machine[..|machine|] == machine;
    var sys := e;
    for i := 0 to |user|
      invariant e == ApplyUser(sys, user[..i], expand)
    {
      assert user[..i + 1][..i] == user[..i];
      var v := user[i];
      var x := expand(e, v.data);
      if Upper(v.name) in e && IsPathName(v.name) {
        e := e[Upper(v.name) := e[Upper(v.name)] + ";" + x];
      } else {
        e := e[Upper(v.name) := x];
      }
    }
    assert user[..|user|] == user;
  }

  /** A variable named by no registry value keeps its process value. */
  lemma {:induction false} RefreshFrame(env: Environ, machine: RegKey, user: RegKey, expand: Expander, k: string)
    requires forall i :: 0 <= i < |machine| ==> Upper(machine[i].name) != k
    requires forall i :: 0 <= i < |user| ==> Upper(user[i].name) != k
    ensures (k in ApplyUser(ApplySystem(env, machine, expand), user, expand)) == (k in env)
    ensures k in env ==> ApplyUser(ApplySystem(env, machine, expand), user, expand)[k] == env[k]
  {
    SystemFrame(env, machine, expand, k);
    UserFrame(ApplySystem(env, machine, expand), user, expand, k);
  }

  lemma {:induction false} SystemFrame(env: Environ, values: RegKey, expand: Expander, k: string)
    requires forall i :: 0 <= i < |values| ==> Upper(values[i].name) != k
    ensures (k in ApplySystem(env, values, expand)) == (k in env)
    ensures k in env ==> ApplySystem(env, values, expand)[k] == env[k]
    decreases |values|
  {
    if |values| > 0 {
      SystemFrame(env, values[..|values| - 1], expand, k);
    }
  }

  lemma {:induction false} UserFrame(env: Environ, values: RegKey, expand: Expander, k: string)
    requires forall i :: 0 <= i < |values| ==> Upper(values[i].name) != k
    ensures (k in ApplyUser(env, values, expand)) == (k in env)
    ensures k in env ==> ApplyUser(env, values, expand)[k] == env[k]
    decreases |values|
  {
    if |values| > 0 {
      UserFrame(env, values[..|values| - 1], expand, k);
    }
  }

  /** User values win: when the last user value naming a variable is not `Path`, the
      variable ends with that value's expansion, whatever the machine key says. */
  lemma UserValueWins(env: Environ, machine: RegKey, user: RegKey, expand: Expander, j: nat)
    requires j < |user| && !IsPathName(user[j].name)
    requires forall i :: j < i < |user| ==> Upper(user[i].name) != Upper(user[j].name)
    ensures var before := ApplyUser(ApplySystem(env, machine, expand), user[..j], expand);
      && Upper(user[j].name) in ApplyUser(ApplySystem(env, machine, expand), user, expand)
      && ApplyUser(ApplySystem(env, machine, expand), user, expand)[Upper(user[j].name)] ==
        expand(before, user[j].data)
  {
    var sys := ApplySystem(env, machine, expand);
    var k := Upper(user[j].name);
    var after := ApplyUser(sys, user[..j + 1], expand);
    assert user[..j + 1][..j] == user[..j];
    assert k in after;
    UserTailFrame(sys, user, j + 1, expand, k);
  }

  /** User values from index `n` on that do not name `k` leave `k` as it was. */
  lemma {:induction false} UserTailFrame(env: Environ, user: RegKey, n: nat, expand: Expander, k: string)
    requires n <= |user|
    requires forall i :: n <= i < |user| ==> Upper(user[i].name) != k
    ensures (k in ApplyUser(env, user, expand)) == (k in ApplyUser(env, user[..n], expand))
    ensures k in ApplyUser(env, user[..n], expand) ==>
      ApplyUser(env, user, expand)[k] == ApplyUser(env, user[..n], expand)[k]
    decreases |user|
  {
    if n == |user| {
      assert user[..n] == user;
    } else {
      var init := user[..|user| - 1];
      assert init[..n] == user[..n];
      UserTailFrame(env, init, n, expand, k);
    }
  }

  lemma PathNameIsUpperPath(name: string)
    requires IsPathName(name)
    ensures Upper(name) == "PATH"
  {
    assert |name| == 4;
    assert LowerChar(name[0]) == 'p' && LowerChar(name[1]) == 'a' && LowerChar(name[2]) == 't' && LowerChar(name[3]) == 'h';
  }

  /** The user `Path` is appended after the system one: with a system `Path` and a single
      user value named `Path` (in any case), PATH ends as the expanded system value, `;`,
      and the expanded user value. */
  lemma UserPathAppended(env: Environ, machine: RegKey, user: RegKey, expand: Expander, j: nat)
    requires "PATH" in ApplySystem(env, machine, expand)
    requires j < |user| && IsPathName(user[j].name)
    requires forall i :: 0 <= i < |user| && i != j ==> Upper(user[i].name) != "PATH"
    ensures var sys := ApplySystem(env, machine, expand);
      && "PATH" in ApplyUser(sys, user, expand)
      && ApplyUser(sys, user, expand)["PATH"] ==
        sys["PATH"] + ";" + expand(ApplyUser(sys, user[..j], expand), user[j].data)
  {
    UserPathAppendedTo(ApplySystem(env, machine, expand), user, expand, j);
  }

  lemma UserPathAppendedTo(sys: Environ, user: RegKey, expand: Expander, j: nat)
    requires "PATH" in sys
    requires j < |user| && IsPathName(user[j].name)
    requires forall i :: 0 <= i < |user| && i != j ==> Upper(user[i].name) != "PATH"
    ensures && "PATH" in ApplyUser(sys, user, expand)
      && ApplyUser(sys, user, expand)["PATH"] ==
        sys["PATH"] + ";" + expand(ApplyUser(sys, user[..j], expand), user[j].data)
  {
    UserPathStep(sys, user, expand, j);
    UserTailFrame(sys, user, j + 1, expand, "PATH");
  }

  /** The step for value `j` appends its expansion to the system PATH. */
  lemma UserPathStep(sys: Environ, user: RegKey, expand: Expander, j: nat)
    requires "PATH" in sys
    requires j < |user| && IsPathName(user[j].name)
    requires forall i :: 0 <= i < |user| && i != j ==> Upper(user[i].name) != "PATH"
    ensures var after := ApplyUser(sys, user[..j + 1], expand);
      "PATH" in after && after["PATH"] == sys["PATH"] + ";" + expand(ApplyUser(sys, user[..j], expand), user[j].data)
  {
    var before := ApplyUser(sys, user[..j], expand);
    PathNameIsUpperPath(user[j].name);
    UserFrame(sys, user[..j], expand, "PATH");
    assert user[..j + 1][..j] == user[..j];
    assert ApplyUser(sys, user[..j + 1], expand) == UserStep(before, user[j], expand);
  }
}
