/**
 * The decision logic of `publish_to_launchpad.py`, which turns the MetaFFI `.deb` into
 * Ubuntu source packages and uploads them to the `green-fuzer/metaffi` PPA: the version
 * read from the package name, the choice of the first version the PPA does not have
 * yet, the distributions processed, the GPG fingerprint read from `gpg` and the
 * prerequisite packages read from `dpkg -l`.
 */
module Launchpad {
  import opened Results
  import opened Text

  /** The exceptions the publisher raises itself. */
  datatype LaunchpadError = ValueError | KeyError

  // ----- extract_version_from_deb -----

  const DebPrefix: string := "metaffi_"
  const DebSuffix: string := "_amd64.deb"

  /** Length of the run of decimal digits that `s` starts with. */
  function DigitRun(s: string): (n: nat)
    ensures n <= |s|
    ensures forall i :: 0 <= i < n ==> IsDigit(s[i])
    ensures n < |s| ==> !IsDigit(s[n])
  {
    if |s| > 0 && IsDigit(s[0]) then 1 + DigitRun(s[1..]) else 0
  }

  /** The decimal number at the start of `s`, split off the text after it. */
  function LeadingNumber(s: string): (r: Option<(string, string)>)
    ensures r.Some? ==> AllDigits(r.value.0) && s == r.value.0 + r.value.1
    ensures r.Some? ==> |r.value.1| == 0 || !IsDigit(r.value.1[0])
  {
    var n := DigitRun(s);
    if n == 0 then None else Some((s[..n], s[n..]))
  }

  /** `re.match(r'metaffi_(\d+\.\d+\.\d+)_amd64\.deb', name).group(1)`, ValueError when
      the name does not match. The match is anchored at the start only. Each `\d+` can
      only end where the digits end, because the character after it (a dot or the `_`
      of the suffix) is not a digit, so no other split of the digits is tried. */
  function ExtractVersion(name: string): Result<string, LaunchpadError> {
    if !(DebPrefix <= name) then Err(ValueError)
    else match LeadingNumber(name[|DebPrefix|..])
      case None => Err(ValueError)
      case Some((d1, r1)) =>
        if !("." <= r1) then Err(ValueError)
        else match LeadingNumber(r1[1..])
          case None => Err(ValueError)
          case Some((d2, r2)) =>
            if !("." <= r2) then Err(ValueError)
            else match LeadingNumber(r2[1..])
              case None => Err(ValueError)
              case Some((d3, r3)) =>
                if DebSuffix <= r3 then Ok(Join([d1, d2, d3], '.')) else Err(ValueError)
  }

  /** The package name `metaffi_<d1>.<d2>.<d3>_amd64.deb<rest>`. */
  function DebName(d1: string, d2: string, d3: string, rest: string): string {
    DebPrefix + (d1 + ("." + (d2 + ("." + (d3 + (DebSuffix + rest))))))
  }

  /** A version as the package name carries it: three dot-separated decimal fields. */
  predicate IsRelease(v: string) {
    var parts := Split(v, '.');
    |parts| == 3 && AllDigits(parts[0]) && AllDigits(parts[1]) && AllDigits(parts[2])
  }

  /** Three digit strings joined by dots form a release version with those fields. */
  lemma DottedIsRelease(d1: string, d2: string, d3: string)
    requires AllDigits(d1) && AllDigits(d2) && AllDigits(d3)
    ensures Split(Join([d1, d2, d3], '.'), '.') == [d1, d2, d3]
    ensures IsRelease(Join([d1, d2, d3], '.'))
  {
    var parts := [d1, d2, d3];
    assert forall k :: 0 <= k < 3 ==> forall i :: 0 <= i < |parts[k]| ==> IsDigit(parts[k][i]);
    assert forall k :: 0 <= k < 3 ==> '.' !in parts[k];
    SplitJoin(parts, '.');
  }

  lemma {:induction false} DigitRunOf(d: string, rest: string)
    requires AllDigits(d)
    requires |rest| == 0 || !IsDigit(rest[0])
    ensures DigitRun(d + rest) == |d|
    decreases |d|
  {
    if |d| > 1 {
      assert (d + rest)[1..] == d[1..] + rest;
      DigitRunOf(d[1..], rest);
    } else {
      assert (d + rest)[1..] == rest;
    }
  }

  lemma LeadingNumberOf(d: string, rest: string)
    requires AllDigits(d)
    requires |rest| == 0 || !IsDigit(rest[0])
    ensures LeadingNumber(d + rest) == Some((d, rest))
  {
    DigitRunOf(d, rest);
    assert (d + rest)[..|d|] == d;
  }

  /** Every name made of the prefix, three digit fields and the suffix, followed by
      anything, yields exactly its three fields. */
  lemma ExtractVersionOf(d1: string, d2: string, d3: string, rest: string)
    requires AllDigits(d1) && AllDigits(d2) && AllDigits(d3)
    ensures ExtractVersion(DebName(d1, d2, d3, rest)) == Ok(Join([d1, d2, d3], '.'))
  {
    var r3 := DebSuffix + rest;
    var r2 := "." + (d3 + r3);
    var r1 := "." + (d2 + r2);
    var name := DebName(d1, d2, d3, rest);
    assert name[|DebPrefix|..] == d1 + r1;
    LeadingNumberOf(d1, r1);
    assert r1[1..] == d2 + r2;
    LeadingNumberOf(d2, r2);
    assert r2[1..] == d3 + r3;
    LeadingNumberOf(d3, r3);
  }

  /** Conversely, a version read from a name is a release whose fields, with the prefix
      and the suffix, make up the start of the name. */
  lemma ExtractedIsRelease(name: string)
    ensures ExtractVersion(name).Ok? ==>
      var v := ExtractVersion(name).value;
      var parts := Split(v, '.');
      && IsRelease(v)
      && exists rest :: name == DebName(parts[0], parts[1], parts[2], rest)
  {
    if ExtractVersion(name).Ok? {
      var d1, d2, d3, r1, r2, r3 := MatchedFields(name);
      DottedIsRelease(d1, d2, d3);
      var rest := r3[|DebSuffix|..];
      PrefixSplit(r3, DebSuffix);
      PrefixSplit(r2, ".");
      PrefixSplit(r1, ".");
      PrefixSplit(name, DebPrefix);
      assert name == DebName(d1, d2, d3, rest);
    }
  }

  /** The pieces `ExtractVersion` reads a matching name into. */
  lemma MatchedFields(name: string) returns (d1: string, d2: string, d3: string, r1: string, r2: string, r3: string)
    requires ExtractVersion(name).Ok?
    ensures AllDigits(d1) && AllDigits(d2) && AllDigits(d3)
    ensures DebPrefix <= name && name[|DebPrefix|..] == d1 + r1
    ensures "." <= r1 && r1[1..] == d2 + r2
    ensures "." <= r2 && r2[1..] == d3 + r3
    ensures DebSuffix <= r3
    ensures ExtractVersion(name) == Ok(Join([d1, d2, d3], '.'))
  {
    d1, r1 := LeadingNumber(name[|DebPrefix|..]).value.0, LeadingNumber(name[|DebPrefix|..]).value.1;
    d2, r2 := LeadingNumber(r1[1..]).value.0, LeadingNumber(r1[1..]).value.1;
    d3, r3 := LeadingNumber(r2[1..]).value.0, LeadingNumber(r2[1..]).value.1;
  }

  lemma PrefixSplit(s: string, p: string)
    requires p <= s
    ensures s == p + s[|p|..]
  {
  }

  // ----- increment_version -----

  /** `increment_version`: a three-field version gets a fourth field `1`; a four-field
      version has its fourth field read with `int` (ValueError if it is not a number)
      and incremented; any other count of fields also gets `.1` appended. */
  function IncrementVersion(v: string): Result<string, LaunchpadError> {
    var parts := Split(v, '.');
    if |parts| == 3 then Ok(v + ".1")
    else if |parts| == 4 then
      match ParseNat(parts[3])
      case None => Err(ValueError)
      case Some(rev) => Ok(Join(parts[..3], '.') + "." + NatToString(rev + 1))
    else Ok(v + ".1")
  }

  /** Only a four-field version whose last field is not a number fails. */
  lemma IncrementVersionFails(v: string)
    ensures IncrementVersion(v).Err? <==> |Split(v, '.')| == 4 && !AllDigits(Split(v, '.')[3])
  {
  }

  /** A three-field version gains the field `1`. */
  lemma IncrementThreeFields(fields: seq<string>)
    requires |fields| == 3 && forall k :: 0 <= k < 3 ==> '.' !in fields[k]
    ensures IncrementVersion(Join(fields, '.')) == Ok(Join(fields + ["1"], '.'))
  {
    SplitJoin(fields, '.');
    JoinSnoc(fields, "1", '.');
    assert Join(fields, '.') + ".1" == Join(fields, '.') + ['.'] + "1";
  }

  /** A four-field version with a numeric last field keeps its first three fields and
      has the successor of the fourth last. */
  lemma IncrementFourFields(fields: seq<string>, rev: nat)
    requires |fields| == 3 && forall k :: 0 <= k < 3 ==> '.' !in fields[k]
    ensures IncrementVersion(Join(fields + [NatToString(rev)], '.')) == Ok(Join(fields + [NatToString(rev + 1)], '.'))
  {
    var parts := fields + [NatToString(rev)];
    NoDotInNumber(rev);
    assert forall k :: 0 <= k < 4 ==> '.' !in parts[k];
    SplitJoin(parts, '.');
    assert parts[..3] == fields;
    ParseNatToString(rev);
    JoinSnoc(fields, NatToString(rev + 1), '.');
    var n := NatToString(rev + 1);
    assert Join(fields, '.') + "." + n == Join(fields, '.') + ['.'] + n;
  }

  lemma {:induction false} JoinSnoc(parts: seq<string>, x: string, sep: char)
    requires |parts| >= 1
    ensures Join(parts + [x], sep) == Join(parts, sep) + [sep] + x
    decreases |parts|
  {
    if |parts| == 1 {
      assert (parts + [x])[1..] == [x];
    } else {
      assert (parts + [x])[1..] == parts[1..] + [x];
      JoinSnoc(parts[1..], x, sep);
      Associative(parts[0] + [sep], Join(parts[1..], sep) + [sep], x);
      Associative(parts[0], [sep], Join(parts[1..], sep) + [sep]);
      Associative(parts[0] + [sep], Join(parts[1..], sep), [sep]);
    }
  }

  /** The `k`-th version `find_next_available_version` tries from a release `base`:
      `base` itself, then `base.1`, `base.2`, ... */
  function Candidate(base: string, k: nat): string {
    if k == 0 then base else base + "." + NatToString(k)
  }

  /** Incrementing a candidate gives the next candidate. */
  lemma IncrementCandidate(base: string, k: nat)
    requires IsRelease(base)
    ensures IncrementVersion(Candidate(base, k)) == Ok(Candidate(base, k + 1))
  {
    if k == 0 {
      assert NatToString(1) == "1";
      assert base + ".1" == base + "." + "1";
    } else {
      var d := NatToString(k);
      NoDotInNumber(k);
      assert Candidate(base, k) == base + ['.'] + d;
      SplitSnoc(base, '.', d);
      var parts := Split(Candidate(base, k), '.');
      assert parts[..3] == Split(base, '.');
      ParseNatToString(k);
    }
  }

  /** No two candidates are the same version. */
  lemma CandidatesDistinct(base: string, j: nat, k: nat)
    requires j < k
    ensures Candidate(base, j) != Candidate(base, k)
  {
    if j > 0 && Candidate(base, j) == Candidate(base, k) {
      var tail := |base| + 1;
      assert Candidate(base, j)[tail..] == NatToString(j);
      assert Candidate(base, k)[tail..] == NatToString(k);
      ParseNatToString(j);
      ParseNatToString(k);
      assert false;
    }
  }

  /** The candidates before the `k`-th. */
  function Tried(base: string, k: nat): (r: set<string>)
    ensures forall j :: 0 <= j < k ==> Candidate(base, j) in r
  {
    if k == 0 then {} else Tried(base, k - 1) + {Candidate(base, k - 1)}
  }

  lemma {:induction false} NotYetTried(base: string, k: nat, m: nat)
    requires k <= m
    ensures Candidate(base, m) !in Tried(base, k)
  {
    if k > 0 {
      NotYetTried(base, k - 1, m);
      CandidatesDistinct(base, k - 1, m);
    }
  }

  /** `find_next_available_version` with `check_version_exists` answered by the set of
      versions the PPA has published (assumed the same on every call). From a release
      version it returns the first candidate not published, under `jammy`, and its
      increment, under `noble`. */
  method FindNextAvailableVersion(base: string, published: set<string>) returns (versions: map<string, string>)
    requires IsRelease(base)
    ensures versions.Keys == {"jammy", "noble"}
    ensures versions["jammy"] !in published
    ensures exists k: nat :: versions["jammy"] == Candidate(base, k) && forall j :: 0 <= j < k ==> Candidate(base, j) in published
    ensures IncrementVersion(versions["jammy"]) == Ok(versions["noble"])
  {
    var version := base;
    ghost var k: nat := 0;
    while version in published
      invariant version == Candidate(base, k)
      invariant Tried(base, k) <= published
      decreases published - Tried(base, k)
    {
      IncrementCandidate(base, k);
      NotYetTried(base, k, k);
      version := IncrementVersion(version).value;
      k := k + 1;
    }
    IncrementCandidate(base, k);
    var noble := IncrementVersion(version).value;
    versions := map["jammy" := version, "noble" := noble];
  }

  /** The noble version is one past the jammy one, so the two never coincide. */
  lemma NobleDiffersFromJammy(base: string, k: nat)
    requires IsRelease(base)
    ensures IncrementVersion(Candidate(base, k)).Ok? && IncrementVersion(Candidate(base, k)).value != Candidate(base, k)
  {
    IncrementCandidate(base, k);
    CandidatesDistinct(base, k, k + 1);
  }

  // ----- main: the distributions processed -----

  /** `DISTRIBUTIONS` as written. */
  const Distributions: seq<string> := ["jammy", "kinetic", "noble"]

  /** The distributions that `find_next_available_version` gives a version to. */
  const VersionedDistributions: seq<string> := ["jammy", "noble"]

  /** What the loop of `main` over a list of distributions achieves: the distribution,
      version pairs it packages and uploads, in order, and the KeyError that stops it. */
  datatype Run = Run(uploads: seq<(string, string)>, failure: Option<LaunchpadError>)

  /** `versions[distro]` for each distribution in turn, stopping at the first missing
      key. */
  function RunSpec(versions: map<string, string>, distros: seq<string>): (r: Run)
    ensures |r.uploads| <= |distros|
    ensures forall k :: 0 <= k < |r.uploads| ==> distros[k] in versions
    ensures forall k :: 0 <= k < |r.uploads| ==> r.uploads[k] == (distros[k], versions[distros[k]])
    ensures r.failure.None? ==> |r.uploads| == |distros|
    ensures r.failure.Some? ==> r.failure == Some(KeyError) && |r.uploads| < |distros| && distros[|r.uploads|] !in versions
  {
    if |distros| == 0 then Run([], None)
    else if distros[0] !in versions then Run([], Some(KeyError))
    else
      var rest := RunSpec(versions, distros[1..]);
      Run([(distros[0], versions[distros[0]])] + rest.uploads, rest.failure)
  }

  /** The loop of `main`, with the packaging and the upload of one distribution left to
      the outside. */
  method ProcessDistributions(versions: map<string, string>, distros: seq<string>) returns (run: Run)
    ensures run == RunSpec(versions, distros)
  {
    var uploads: seq<(string, string)> := [];
    for i := 0 to |distros|
      invariant forall j :: 0 <= j < i ==> distros[j] in versions
      invariant uploads == RunSpec(versions, distros[..i]).uploads
    {
      var distro := distros[i];
      if distro !in versions {
        RunStopsAt(versions, distros, i);
        return Run(uploads, Some(KeyError));
      }
      RunSnoc(versions, distros[..i], distro);
      assert distros[..i + 1] == distros[..i] + [distro];
      uploads := uploads + [(distro, versions[distro])];
    }
    RunSpecAllVersioned(versions, distros);
    run := Run(uploads, None);
  }

  lemma {:induction false} RunSnoc(versions: map<string, string>, distros: seq<string>, d: string)
    requires forall j :: 0 <= j < |distros| ==> distros[j] in versions
    requires d in versions
    ensures RunSpec(versions, distros + [d]).uploads == RunSpec(versions, distros).uploads + [(d, versions[d])]
    ensures RunSpec(versions, distros + [d]).failure.None?
    decreases |distros|
  {
    if |distros| > 0 {
      assert (distros + [d])[1..] == distros[1..] + [d];
      RunSnoc(versions, distros[1..], d);
    }
  }

  lemma {:induction false} RunSpecAllVersioned(versions: map<string, string>, distros: seq<string>)
    requires forall j :: 0 <= j < |distros| ==> distros[j] in versions
    ensures RunSpec(versions, distros).failure.None?
    ensures RunSpec(versions, distros).uploads == RunSpec(versions, distros[..|distros|]).uploads
    decreases |distros|
  {
    assert distros[..|distros|] == distros;
    if |distros| > 0 {
      RunSpecAllVersioned(versions, distros[1..]);
    }
  }

  lemma {:induction false} RunStopsAt(versions: map<string, string>, distros: seq<string>, i: nat)
    requires i < |distros| && distros[i] !in versions
    requires forall j :: 0 <= j < i ==> distros[j] in versions
    ensures RunSpec(versions, distros) == Run(RunSpec(versions, distros[..i]).uploads, Some(KeyError))
    decreases i
  {
    if i > 0 {
      assert distros[1..][..i - 1] == distros[..i][1..];
      RunStopsAt(versions, distros[1..], i - 1);
    }
  }

  /** As written, every run uploads jammy and then stops with KeyError at kinetic, so
      noble is never published. */
  lemma AsWrittenStopsAtKinetic(versions: map<string, string>)
    requires versions.Keys == {"jammy", "noble"}
    ensures RunSpec(versions, Distributions) == Run([("jammy", versions["jammy"])], Some(KeyError))
  {
    assert Distributions[1..] == ["kinetic", "noble"];
    assert "kinetic" !in versions;
  }

  /** With the distributions that have a version, both are uploaded and nothing raises. */
  lemma VersionedDistributionsAllUploaded(versions: map<string, string>)
    requires versions.Keys == {"jammy", "noble"}
    ensures RunSpec(versions, VersionedDistributions)
      == Run([("jammy", versions["jammy"]), ("noble", versions["noble"])], None)
  {
    assert VersionedDistributions[1..] == ["noble"];
    assert RunSpec(versions, ["noble"]) == Run([("noble", versions["noble"])], None) by {
      assert ["noble"][1..] == [];
    }
  }

  // ----- get_gpg_fingerprint -----

  /** The fingerprint line `i` introduces: line `i` is a `sec` line that has a next
      line, and that next line, stripped and with its spaces removed, is 40 characters
      long. */
  function FingerprintAt(lines: seq<string>, i: nat): Option<string>
    requires i < |lines|
  {
    if "sec" <= Strip(lines[i]) && i + 1 < |lines| then
      var raw := RemoveChar(Strip(lines[i + 1]), ' ');
      if |raw| == 40 then Some(raw) else None
    else None
  }

  /** The first line at or after `from` that introduces a fingerprint. */
  function FirstFingerprint(lines: seq<string>, from: nat): (r: Option<nat>)
    requires from <= |lines|
    ensures r.Some? ==> from <= r.value < |lines| && FingerprintAt(lines, r.value).Some?
    ensures r.Some? ==> forall j :: from <= j < r.value ==> FingerprintAt(lines, j).None?
    ensures r.None? ==> forall j :: from <= j < |lines| ==> FingerprintAt(lines, j).None?
    decreases |lines| - from
  {
    if from == |lines| then None
    else if FingerprintAt(lines, from).Some? then Some(from)
    else FirstFingerprint(lines, from + 1)
  }

  /** `get_gpg_fingerprint` on the lines of `gpg --list-secret-keys --fingerprint`. */
  function GpgFingerprintSpec(lines: seq<string>): Result<string, LaunchpadError> {
    match FirstFingerprint(lines, 0)
    case None => Err(ValueError)
    case Some(i) => Ok(FingerprintAt(lines, i).value)
  }

  method GetGpgFingerprint(lines: seq<string>) returns (r: Result<string, LaunchpadError>)
    ensures r == GpgFingerprintSpec(lines)
  {
    for i := 0 to |lines|
      invariant forall j :: 0 <= j < i ==> FingerprintAt(lines, j).None?
    {
      var line := lines[i];
      if "sec" <= Strip(line) && i + 1 < |lines| {
        var rawFingerprint := RemoveChar(Strip(lines[i + 1]), ' ');
        if |rawFingerprint| == 40 {
          FirstFingerprintAt(lines, i);
          return Ok(rawFingerprint);
        }
      }
    }
    r := Err(ValueError);
  }

  /** The first line introducing a fingerprint is one that does, after none that do. */
  lemma FirstFingerprintAt(lines: seq<string>, i: nat)
    requires i < |lines| && FingerprintAt(lines, i).Some?
    requires forall j :: 0 <= j < i ==> FingerprintAt(lines, j).None?
    ensures FirstFingerprint(lines, 0) == Some(i)
  {
    var f := FirstFingerprint(lines, 0);
    assert f.Some?;
    assert !(f.value < i) && !(f.value > i);
  }

  /** A fingerprint is 40 characters without a space, taken from the line after a `sec`
      line; ValueError exactly when no `sec` line is followed by one. */
  lemma GpgFingerprintFacts(lines: seq<string>)
    ensures GpgFingerprintSpec(lines).Err? <==> forall i :: 0 <= i < |lines| ==> FingerprintAt(lines, i).None?
    ensures GpgFingerprintSpec(lines).Ok? ==>
      var fp := GpgFingerprintSpec(lines).value;
      && |fp| == 40 && ' ' !in fp
      && exists i :: 0 <= i && i + 1 < |lines| && "sec" <= Strip(lines[i]) && fp == RemoveChar(Strip(lines[i + 1]), ' ')
  {
    var f := FirstFingerprint(lines, 0);
    if f.Some? {
      assert FingerprintAt(lines, f.value).Some?;
    }
  }

  // ----- check_requirements -----

  const RequiredPackages: seq<string> := ["gpg", "dput", "devscripts", "build-essential", "debhelper"]

  /** `any(package in line and 'ii' in line for line in installed_packages)` */
  predicate Installed(package: string, lines: seq<string>) {
    exists j :: 0 <= j < |lines| && Contains(lines[j], package) && Contains(lines[j], "ii")
  }

  /** The required packages with no installed line, in the order they are required. */
  function Missing(required: seq<string>, lines: seq<string>): (r: seq<string>)
    ensures |r| <= |required|
    ensures forall p :: p in r <==> p in required && !Installed(p, lines)
  {
    if |required| == 0 then []
    else
      var last := required[|required| - 1];
      var init := required[..|required| - 1];
      assert required == init + [last];
      Missing(init, lines) + (if Installed(last, lines) then [] else [last])
  }

  /** The missing packages of two consecutive lists of requirements are those of the
      first followed by those of the second: the report keeps the order in which the
      packages are required. */
  lemma {:induction false} MissingConcat(a: seq<string>, b: seq<string>, lines: seq<string>)
    ensures Missing(a + b, lines) == Missing(a, lines) + Missing(b, lines)
    decreases |b|
  {
    if |b| == 0 {
      assert a + b == a;
    } else {
      var init := b[..|b| - 1];
      var last := b[|b| - 1];
      assert (a + b)[..|a + b| - 1] == a + init;
      assert (a + b)[|a + b| - 1] == last;
      MissingConcat(a, init, lines);
    }
  }

  /** One required package is reported exactly when no line shows it installed. */
  lemma MissingOne(p: string, lines: seq<string>)
    ensures Missing([p], lines) == if Installed(p, lines) then [] else [p]
  {
    assert [p][..0] == [];
  }

  /** The loop of `check_requirements` over the lines of `dpkg -l`. */
  method MissingPackages(required: seq<string>, lines: seq<string>) returns (missing: seq<string>)
    ensures missing == Missing(required, lines)
  {
    missing := [];
    for i := 0 to |required|
      invariant missing == Missing(required[..i], lines)
    {
      var package := required[i];
      assert required[..i + 1][..i] == required[..i];
      if !Installed(package, lines) {
        missing := missing + [package];
      }
    }
    assert required[..|required|] == required;
  }

  /** `check_requirements`: `dpkg -l` failing (`dpkgOk` false) or any required package
      without an installed line ends the script with exit code 1; otherwise it goes on
      (None). */
  method CheckRequirements(dpkgOk: bool, stdout: string) returns (exitCode: Option<int>)
    ensures exitCode.None? <==> dpkgOk && forall p :: p in RequiredPackages ==> Installed(p, Split(stdout, '\n'))
    ensures exitCode.Some? ==> exitCode.value == 1
  {
    if !dpkgOk {
      return Some(1);
    }
    var installedPackages := Split(stdout, '\n');
    var missingPackages := MissingPackages(RequiredPackages, installedPackages);
    if |missingPackages| > 0 {
      assert missingPackages[0] in missingPackages;
      return Some(1);
    }
    exitCode := None;
  }
}
