/**
 * The pure parsing pieces of the toolchain probes of `install_metaffi_template.py`:
 * the file version of a DLL, the JDK path taken from `update-java-alternatives -l`,
 * and the minimum Go version gate.
 */
module Probes {
  import opened Results
  import opened Text

  // ----- get_dll_version -----

  /** A DWORD, the unsigned 32-bit type of the two version fields. */
  type DWord = n: nat | n < 0x1_0000_0000

  /** `get_dll_version`: the four 16-bit halves of the two DWORDs of VS_FIXEDFILEINFO,
      most significant first, in decimal and separated by dots. On non-negative integers
      `x >> 16` is `x / 0x10000` and `x & 0xFFFF` is `x % 0x10000`. */
  function DllVersion(ms: DWord, ls: DWord): string {
    Join([NatToString(ms / 0x1_0000), NatToString(ms % 0x1_0000),
          NatToString(ls / 0x1_0000), NatToString(ls % 0x1_0000)], '.')
  }

  /** The version text has exactly four dot-separated fields, each a decimal number below
      65536, and the first two rebuild `ms`, the last two `ls`. */
  lemma DllVersionFields(ms: DWord, ls: DWord)
    ensures var fields := Split(DllVersion(ms, ls), '.');
      && |fields| == 4
      && (forall k :: 0 <= k < 4 ==> ParseNat(fields[k]).Some? && ParseNat(fields[k]).value < 0x1_0000)
      && ParseNat(fields[0]).value * 0x1_0000 + ParseNat(fields[1]).value == ms as nat
      && ParseNat(fields[2]).value * 0x1_0000 + ParseNat(fields[3]).value == ls as nat
  {
    var a, b, c, d := ms / 0x1_0000, ms % 0x1_0000, ls / 0x1_0000, ls % 0x1_0000;
    var parts := [NatToString(a), NatToString(b), NatToString(c), NatToString(d)];
    NoDotInNumber(a);
    NoDotInNumber(b);
    NoDotInNumber(c);
    NoDotInNumber(d);
    SplitJoin(parts, '.');
    ParseNatToString(a);
    ParseNatToString(b);
    ParseNatToString(c);
    ParseNatToString(d);
  }

  // ----- get_java_home -----

  /**
   * `re.search(r"(\S+)\s+(\d+)\s+(\S+)", line)` in terms of the whitespace tokens of the
   * line. `\s` precedes and follows the `\d+` group, so the digits are a whole token;
   * the groups beside it are whole tokens too, because `\S+` is greedy and the search
   * takes the leftmost start. A line matches iff some token is followed by an all-digit
   * token and one more token; the match is the first such position.
   */
  function FirstAlternative(toks: seq<string>): (r: Option<nat>)
    ensures r.Some? ==> r.value + 2 < |toks| && AllDigits(toks[r.value + 1])
    ensures r.Some? ==> forall k :: 1 <= k <= r.value ==> !AllDigits(toks[k])
    ensures r.None? ==> forall k :: 1 <= k && k + 1 < |toks| ==> !AllDigits(toks[k])
  {
    if |toks| < 3 then None
    else if AllDigits(toks[1]) then Some(0)
    else match FirstAlternative(toks[1..])
      case None => None
      case Some(j) => Some(j + 1)
  }

  /** Name and path of the alternative a line describes: groups 1 and 3. */
  function AlternativeOf(line: string): Option<(string, string)> {
    var toks := Tokens(line);
    match FirstAlternative(toks)
    case None => None
    case Some(j) => Some((toks[j], toks[j + 2]))
  }

  /** A line that the scan stops at: it matches and its name contains `version`. */
  predicate Selects(version: string, line: string) {
    AlternativeOf(line).Some? && Contains(AlternativeOf(line).value.0, version)
  }

  /** Index of the line `get_java_home` returns from. */
  function FirstSelecting(version: string, lines: seq<string>): (r: Option<nat>)
    ensures r.Some? ==> r.value < |lines| && Selects(version, lines[r.value])
    ensures r.Some? ==> forall j :: 0 <= j < r.value ==> !Selects(version, lines[j])
    ensures r.None? ==> forall j :: 0 <= j < |lines| ==> !Selects(version, lines[j])
  {
    if |lines| == 0 then None
    else if Selects(version, lines[0]) then Some(0)
    else match FirstSelecting(version, lines[1..])
      case None => None
      case Some(j) => Some(j + 1)
  }

  /** `get_java_home(version)` over the lines of the output of
      `update-java-alternatives -l`, split at line feeds. */
  function JavaHome(version: string, lines: seq<string>): Option<string> {
    match FirstSelecting(version, lines)
    case None => None
    case Some(i) => Some(AlternativeOf(lines[i]).value.1)
  }

  /** The result is the path of the first matching line whose name contains `version`,
      and None exactly when there is no such line. */
  lemma JavaHomeIsFirstMatch(version: string, lines: seq<string>, i: nat)
    requires i < |lines| && Selects(version, lines[i])
    requires forall j :: 0 <= j < i ==> !Selects(version, lines[j])
    ensures JavaHome(version, lines) == Some(AlternativeOf(lines[i]).value.1)
  {
    var r := FirstSelecting(version, lines);
    assert r.Some?;
    assert !(r.value < i) && !(r.value > i);
  }

  lemma JavaHomeNone(version: string, lines: seq<string>)
    ensures JavaHome(version, lines).None? <==> forall j :: 0 <= j < |lines| ==> !Selects(version, lines[j])
  {
    if FirstSelecting(version, lines).Some? {
      var i := FirstSelecting(version, lines).value;
      assert Selects(version, lines[i]);
    }
  }

  // ----- the Go version gate -----

  /** The version the Go check reads from `go version`: the third whitespace token with
      every `go` removed; fewer than three tokens raise IndexError. */
  function GoVersion(stdout: string): (r: Result<string, string>)
    ensures r.Err? <==> |Tokens(stdout)| < 3
  {
    var toks := Tokens(stdout);
    if |toks| < 3 then Err("IndexError") else Ok(ReplaceAll(toks[2], "go", ""))
  }

  /** On an output `<first> <second> go<v> <os>` of four words, such as the
      `go version go1.22.1 linux/amd64` of a Go toolchain, the version read is exactly
      `<v>`, for any version text without whitespace and without `go`. */
  lemma GoVersionOfOutput(first: string, second: string, v: string, os: string)
    requires IsWord(first) && IsWord(second) && IsWord(os)
    requires forall i :: 0 <= i < |v| ==> !IsSpace(v[i])
    requires !Contains(v, "go")
    ensures GoVersion(first + (" " + second + (" " + ("go" + v) + (" " + os)))) == Ok(v)
  {
    GoPrefixedWord(v);
    FourTokens(first, second, "go" + v, os);
    RemoveGoPrefix(v);
  }

  /** Four words separated by single spaces split into those four words. */
  lemma FourTokens(first: string, second: string, third: string, os: string)
    requires IsWord(first) && IsWord(second) && IsWord(third) && IsWord(os)
    ensures Tokens(first + (" " + second + (" " + third + (" " + os)))) == [first, second, third, os]
  {
    assert AllSpaces(" ") && AllSpaces("");
    var r4 := " " + os;
    assert r4 == " " + os + "";
    TokensCons(" ", os, "");
    TokensOfSpaces("");
    var r3 := " " + third + r4;
    TokensCons(" ", third, r4);
    var r2 := " " + second + r3;
    TokensCons(" ", second, r3);
    assert "" + first == first;
    TokensCons("", first, r2);
  }

  lemma GoPrefixedWord(v: string)
    requires forall i :: 0 <= i < |v| ==> !IsSpace(v[i])
    ensures IsWord("go" + v)
  {
    var gv := "go" + v;
    assert gv[0] == 'g' && gv[1] == 'o';
    forall i | 2 <= i < |gv|
      ensures !IsSpace(gv[i])
    {
      assert gv[i] == v[i - 2];
    }
  }

  lemma RemoveGoPrefix(v: string)
    requires !Contains(v, "go")
    ensures ReplaceAll("go" + v, "go", "") == v
  {
    var gv := "go" + v;
    ReplaceAllAbsent(v, "go", "");
    assert gv[..2] == "go";
    assert gv[2..] == v;
  }

  /** The gate as written: Go is rejected iff its version is below "1.21.0" as a string. */
  predicate GoRejectedAsWritten(v: string) {
    LexLess(v, "1.21.0")
  }

  /** Go 1.9.0 is older than 1.21.0 and passes the check. */
  lemma {:induction false} AsWrittenAcceptsGo19()
    ensures !GoRejectedAsWritten("1.9.0")
    ensures VersionBelow([1, 9, 0], 1, 21, 0)
  {
    assert "1.9.0"[1..] == ".9.0" && "1.21.0"[1..] == ".21.0";
    assert ".9.0"[1..] == "9.0" && ".21.0"[1..] == "21.0";
  }

  /** Go 1.100.0 is newer than 1.21.0 and fails the check. */
  lemma {:induction false} AsWrittenRejectsGo1100()
    ensures GoRejectedAsWritten("1.100.0")
    ensures !VersionBelow([1, 100, 0], 1, 21, 0)
  {
    assert "1.100.0"[1..] == ".100.0" && "1.21.0"[1..] == ".21.0";
    assert ".100.0"[1..] == "100.0" && ".21.0"[1..] == "21.0";
  }

  /** Dot-separated decimal components; None if any component is not a number. */
  function ParseComponents(parts: seq<string>): (r: Option<seq<nat>>)
    ensures r.Some? ==> |r.value| == |parts| && forall k :: 0 <= k < |parts| ==> ParseNat(parts[k]) == Some(r.value[k])
    ensures r.None? ==> exists k :: 0 <= k < |parts| && ParseNat(parts[k]).None?
  {
    if |parts| == 0 then Some([])
    else match (ParseNat(parts[0]), ParseComponents(parts[1..]))
      case (Some(n), Some(rest)) => Some([n] + rest)
      case (None, _) => None
      case (_, None) =>
        assert exists k :: 0 <= k < |parts[1..]| && ParseNat(parts[1..][k]).None?;
        var k :| 0 <= k < |parts[1..]| && ParseNat(parts[1..][k]).None?;
        assert ParseNat(parts[k + 1]).None?;
        None
  }

  /** Component `i` of a version, 0 where the version is shorter. */
  function Component(v: seq<nat>, i: nat): nat {
    if i < |v| then v[i] else 0
  }

  /** Numeric order on major, minor and patch: `v` is below `major.minor.patch`. */
  predicate VersionBelow(v: seq<nat>, major: nat, minor: nat, patch: nat) {
    || Component(v, 0) < major
    || (Component(v, 0) == major && Component(v, 1) < minor)
    || (Component(v, 0) == major && Component(v, 1) == minor && Component(v, 2) < patch)
  }

  /** The evidently intended gate: Go is rejected iff its version does not parse or is
      numerically below 1.21.0. */
  predicate GoRejected(v: string) {
    match ParseComponents(Split(v, '.'))
    case None => true
    case Some(c) => VersionBelow(c, 1, 21, 0)
  }

  /** For every version `major.minor.patch`, the corrected gate rejects exactly the
      versions below 1.21.0. */
  lemma GoRejectedIffOlder(major: nat, minor: nat, patch: nat)
    ensures GoRejected(Join([NatToString(major), NatToString(minor), NatToString(patch)], '.'))
      <==> major < 1 || (major == 1 && minor < 21)
  {
    DottedVersionParses(major, minor, patch);
    BelowGoMinimum(major, minor, patch);
  }

  lemma BelowGoMinimum(major: nat, minor: nat, patch: nat)
    ensures VersionBelow([major, minor, patch], 1, 21, 0) <==> major < 1 || (major == 1 && minor < 21)
  {
    var v: seq<nat> := [major, minor, patch];
    assert Component(v, 0) == major && Component(v, 1) == minor && Component(v, 2) == patch;
  }

  lemma DottedVersionParses(major: nat, minor: nat, patch: nat)
    ensures ParseComponents(Split(Join([NatToString(major), NatToString(minor), NatToString(patch)], '.'), '.'))
      == Some([major, minor, patch])
  {
    var parts := [NatToString(major), NatToString(minor), NatToString(patch)];
    NoDotInNumber(major);
    NoDotInNumber(minor);
    NoDotInNumber(patch);
    forall k | 0 <= k < 3
      ensures '.' !in parts[k]
    {
      if k == 0 {
      } else if k == 1 {
      } else {
      }
    }
    SplitJoin(parts, '.');
    ParseNatToString(major);
    ParseNatToString(minor);
    ParseNatToString(patch);
    ParseThree(parts, major, minor, patch);
  }

  lemma ParseThree(parts: seq<string>, a: nat, b: nat, c: nat)
    requires |parts| == 3
    requires ParseNat(parts[0]) == Some(a) && ParseNat(parts[1]) == Some(b) && ParseNat(parts[2]) == Some(c)
    ensures ParseComponents(parts) == Some([a, b, c])
  {
    var r := ParseComponents(parts);
    if r.None? {
      var k :| 0 <= k < |parts| && ParseNat(parts[k]).None?;
      assert false;
    }
    assert r.value == [a, b, c];
  }
}
