/**
 * What the installer scripts observe of the machine they run on: the operating
 * system, the entries of the install root, and the outcome of launching a process.
 */
module Host {
  /** `platform.system()`: "Windows", "Linux", or anything else (for instance "Darwin"). */
  datatype Platform = Windows | Linux | OtherSystem

  /** An entry of the install root: a directory together with the names of the regular
      files directly inside it, or any other kind of file. */
  datatype Entry = Dir(files: set<string>) | File

  /** The install root, entry name to entry. */
  type Tree = map<string, Entry>

  /** How a launched process ended: its exit status, or an exception raised while
      starting it (for instance FileNotFoundError for a missing interpreter). */
  datatype Launch = Exited(code: int) | LaunchFailed(reason: string)

  /** `subprocess.run(..., check=True)` returns normally exactly for exit status 0. */
  predicate Succeeded(l: Launch) {
    l.Exited? && l.code == 0
  }

  function Separator(p: Platform): char {
    if p == Windows then '\\' else '/'
  }

  /** `os.path.join(a, b)` for a relative `b`: a separator is inserted unless `a` is
      empty or already ends in one. */
  function PathJoin(p: Platform, a: string, b: string): (r: string)
    ensures a <= r
    ensures |r| == |a| + |b| || |r| == |a| + 1 + |b|
    ensures r[|r| - |b|..] == b
    ensures |r| == |a| + 1 + |b| <==> |a| > 0 && a[|a| - 1] != Separator(p) && a[|a| - 1] != '/'
    ensures |r| == |a| + 1 + |b| ==> r[|a|] == Separator(p)
  {
    if |a| == 0 || a[|a| - 1] == Separator(p) || a[|a| - 1] == '/' then a + b
    else a + [Separator(p)] + b
  }

  /** A list with no name repeated, as `os.listdir` returns. */
  predicate NoDuplicates(names: seq<string>) {
    forall i, j :: 0 <= i < j < |names| ==> names[i] != names[j]
  }
}
