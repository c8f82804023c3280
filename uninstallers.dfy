/**
 * The per-OS list of plugin uninstaller candidates and how each kind is launched,
 * shared by the root uninstaller and the plugin installer's `uninstall` action.
 */
module Uninstallers {
  import opened Results
  import opened Host

  datatype Kind = Exe | Script | Python | Unknown(name: string)

  datatype Candidate = Candidate(file: string, kind: Kind)

  /** The native uninstaller a plugin ships. */
  function NativeName(p: Platform): string {
    if p == Windows then "uninstall_plugin.exe" else "uninstall_plugin"
  }

  /** The launcher script written by the plugin installer. */
  function ScriptName(p: Platform): string {
    if p == Windows then "uninstall.bat" else "uninstall.sh"
  }

  /** Candidates in order of precedence: native executable, launcher script, then the
      two legacy Python uninstallers. */
  function Candidates(p: Platform): (c: seq<Candidate>)
    ensures |c| == 4
    ensures c[0] == Candidate(NativeName(p), Exe) && c[1] == Candidate(ScriptName(p), Script)
    ensures c[2] == Candidate("uninstall_plugin.py", Python) && c[3] == Candidate("uninstall.py", Python)
  {
    [ Candidate(NativeName(p), Exe), Candidate(ScriptName(p), Script),
      Candidate("uninstall_plugin.py", Python), Candidate("uninstall.py", Python) ]
  }

  /** Position of the first candidate present among `files`. */
  function FirstPresent(cands: seq<Candidate>, files: set<string>): (r: Option<nat>)
    ensures r.Some? ==> r.value < |cands| && cands[r.value].file in files
    ensures r.Some? ==> forall j :: 0 <= j < r.value ==> cands[j].file !in files
    ensures r.None? ==> forall j :: 0 <= j < |cands| ==> cands[j].file !in files
  {
    if |cands| == 0 then None
    else if cands[0].file in files then Some(0)
    else match FirstPresent(cands[1..], files)
      case None => None
      case Some(i) => Some(i + 1)
  }

  /** The uninstaller that would be chosen for a plugin directory holding `files`. */
  function Selected(p: Platform, files: set<string>): Option<Candidate> {
    match FirstPresent(Candidates(p), files)
    case None => None
    case Some(i) => Some(Candidates(p)[i])
  }

  /** `get_uninstaller_candidates` followed by the loop that breaks at the first
      candidate that is a file. */
  method SelectUninstaller(p: Platform, files: set<string>) returns (sel: Option<Candidate>)
    ensures sel == Selected(p, files)
  {
    var cands := Candidates(p);
    sel := None;
    var i := 0;
    while i < |cands|
      invariant 0 <= i <= |cands|
      invariant forall j :: 0 <= j < i ==> cands[j].file !in files
    {
      if cands[i].file in files {
        sel := Some(cands[i]);
        return;
      }
      i := i + 1;
    }
  }

  /** A present native uninstaller always wins, whatever else the directory holds. */
  lemma NativeWins(p: Platform, files: set<string>)
    requires NativeName(p) in files
    ensures Selected(p, files) == Some(Candidate(NativeName(p), Exe))
  {
  }

  /** The legacy Python uninstallers are used only when neither the native executable
      nor the launcher script is present. */
  lemma PythonOnlyAsFallback(p: Platform, files: set<string>)
    requires Selected(p, files).Some? && Selected(p, files).value.kind == Python
    ensures NativeName(p) !in files && ScriptName(p) !in files
  {
  }

  /** `run_uninstaller`: the command line for a candidate of the given kind. */
  function CommandFor(p: Platform, kind: Kind, path: string, interpreter: string): (r: Result<seq<string>, string>)
    ensures r.Err? <==> kind.Unknown?
    ensures r.Ok? ==> |r.value| > 0 && r.value[|r.value| - 1] == path
    ensures kind.Exe? ==> r == Ok([path])
    ensures kind.Script? ==> r == Ok(if p == Windows then ["cmd", "/c", path] else ["bash", path])
    ensures kind.Python? ==> r == Ok([interpreter, path])
  {
    match kind
    case Exe => Ok([path])
    case Script => if p == Windows then Ok(["cmd", "/c", path]) else Ok(["bash", path])
    case Python => Ok([interpreter, path])
    case Unknown(name) => Err("ValueError: Unknown uninstaller type: " + name)
  }

  /** Whatever else the plugin directory holds, a present native uninstaller is
      executed directly, with no shell or interpreter in front of it. */
  lemma NativeRunsDirectly(p: Platform, files: set<string>, path: string, interpreter: string)
    requires NativeName(p) in files
    ensures CommandFor(p, Selected(p, files).value.kind, path, interpreter) == Ok([path])
  {
    NativeWins(p, files);
  }

  /** Without the native executable but with the launcher script, the script is handed
      to `cmd /c` on Windows and to `bash` elsewhere. */
  lemma ScriptRunsThroughShell(p: Platform, files: set<string>, path: string, interpreter: string)
    requires NativeName(p) !in files && ScriptName(p) in files
    ensures Selected(p, files) == Some(Candidate(ScriptName(p), Script))
    ensures CommandFor(p, Selected(p, files).value.kind, path, interpreter)
      == Ok(if p == Windows then ["cmd", "/c", path] else ["bash", path])
  {
  }
}
