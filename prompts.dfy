/**
 * The installers' interactive decisions: `ask_user`, `get_install_dir` and
 * `set_installer_flags`. Console input is a finite sequence of lines; running out of
 * lines stands for `input()` raising EOFError.
 */
module Prompts {
  import opened Results
  import opened Text

  datatype AskError = MissingDefault | EndOfInput

  /** The outcome of one question and the number of input lines it consumed. */
  datatype Answer = Answer(result: Result<string, AskError>, used: nat)

  /** A default counts only when it is given and not empty. */
  predicate HasDefault(default: Option<string>) {
    default.Some? && default.value != ""
  }

  /** The typed line after stripping, or the default when that is empty. */
  function Resolve(default: Option<string>, line: string): string {
    var a := Strip(line);
    if a == "" && HasDefault(default) then default.value else a
  }

  /** `answer.lower() in [s.lower() for s in choices]` */
  predicate MatchesAny(answer: string, choices: seq<string>)
    decreases |choices|
  {
    |choices| > 0 && (Lower(choices[0]) == Lower(answer) || MatchesAny(answer, choices[1..]))
  }

  /** Valid answers are compared without regard to case. */
  predicate Acceptable(valid: Option<seq<string>>, answer: string) {
    valid.None? || MatchesAny(answer, valid.value)
  }

  /** Whether `line`, once resolved, is an acceptable answer. */
  predicate AcceptsLine(default: Option<string>, valid: Option<seq<string>>, line: string) {
    Acceptable(valid, Resolve(default, line))
  }

  /** The first input line that resolves to an acceptable answer. */
  function FirstAccepted(default: Option<string>, valid: Option<seq<string>>, inputs: seq<string>): (r: Option<nat>)
    ensures r.Some? ==> r.value < |inputs| && AcceptsLine(default, valid, inputs[r.value])
    ensures r.Some? ==> forall j :: 0 <= j < r.value ==> !AcceptsLine(default, valid, inputs[j])
    ensures r.None? ==> forall j :: 0 <= j < |inputs| ==> !AcceptsLine(default, valid, inputs[j])
  {
    if |inputs| == 0 then None
    else if AcceptsLine(default, valid, inputs[0]) then Some(0)
    else match FirstAccepted(default, valid, inputs[1..])
      case None => None
      case Some(i) => Some(i + 1)
  }

  lemma FirstAcceptedAt(default: Option<string>, valid: Option<seq<string>>, inputs: seq<string>, i: nat)
    requires i < |inputs| && AcceptsLine(default, valid, inputs[i])
    requires forall j :: 0 <= j < i ==> !AcceptsLine(default, valid, inputs[j])
    ensures FirstAccepted(default, valid, inputs) == Some(i)
  {
    var r := FirstAccepted(default, valid, inputs);
    assert r.Some?;
    assert !(r.value < i) && !(r.value > i);
  }

  /** What `ask_user` answers, as a function of the mode and the input lines. */
  function Ask(silent: bool, default: Option<string>, valid: Option<seq<string>>, inputs: seq<string>): (a: Answer)
    ensures a.used <= |inputs|
    ensures !silent && a.result.Ok? ==> 1 <= a.used
  {
    if silent then
      if HasDefault(default) then Answer(Ok(default.value), 0) else Answer(Err(MissingDefault), 0)
    else match FirstAccepted(default, valid, inputs)
      case None => Answer(Err(EndOfInput), |inputs|)
      case Some(k) => Answer(Ok(Resolve(default, inputs[k])), k + 1)
  }

  /** `ask_user`: in silent mode the default, otherwise a loop reading lines until one
      resolves to an acceptable answer. */
  method AskUser(silent: bool, default: Option<string>, valid: Option<seq<string>>, inputs: seq<string>) returns (a: Answer)
    ensures a == Ask(silent, default, valid, inputs)
  {
    if silent {
      if !HasDefault(default) {
        return Answer(Err(MissingDefault), 0);
      }
      return Answer(Ok(default.value), 0);
    }
    var i := 0;
    while i < |inputs|
      invariant 0 <= i <= |inputs|
      invariant forall j :: 0 <= j < i ==> !AcceptsLine(default, valid, inputs[j])
    {
      if !AcceptsLine(default, valid, inputs[i]) {
        i := i + 1;
        continue;
      }
      FirstAcceptedAt(default, valid, inputs, i);
      return Answer(Ok(Resolve(default, inputs[i])), i + 1);
    }
    a := Answer(Err(EndOfInput), |inputs|);
  }

  /** An interactive answer is the last line read, stripped (or the default for a blank
      line), acceptable, and every earlier line was rejected. The answer keeps the case
      it was typed in. */
  lemma InteractiveAnswer(default: Option<string>, valid: Option<seq<string>>, inputs: seq<string>)
    requires Ask(false, default, valid, inputs).result.Ok?
    ensures var a := Ask(false, default, valid, inputs);
      && a.result.value == Resolve(default, inputs[a.used - 1])
      && Acceptable(valid, a.result.value)
      && (forall j :: 0 <= j < a.used - 1 ==> !Acceptable(valid, Resolve(default, inputs[j])))
      && ((HasDefault(default) && Strip(inputs[a.used - 1]) == "" && a.result.value == default.value) ||
          (Stripped(a.result.value) && Strip(inputs[a.used - 1]) == a.result.value))
  {
    var a := Ask(false, default, valid, inputs);
    StripIsStripped(inputs[a.used - 1]);
  }

  /** Whether an answer matches the choices depends only on its lower-case form. */
  lemma {:induction false} MatchIgnoresCase(answer: string, other: string, choices: seq<string>)
    requires Lower(answer) == Lower(other)
    ensures MatchesAny(answer, choices) <==> MatchesAny(other, choices)
    decreases |choices|
  {
    if |choices| > 0 {
      MatchIgnoresCase(answer, other, choices[1..]);
    }
  }

  /** A non-blank first line whose stripped text matches a choice in any case is
      accepted at once and returned as typed, not in the case of the choice. */
  lemma AnswerKeepsCase(default: Option<string>, choices: seq<string>, line: string)
    requires Strip(line) != "" && MatchesAny(Strip(line), choices)
    ensures Ask(false, default, Some(choices), [line]) == Answer(Ok(Strip(line)), 1)
  {
    assert AcceptsLine(default, Some(choices), [line][0]);
  }

  // ----- get_install_dir -----

  datatype DirError = AskFailed(e: AskError) | NeverAccepted | InvalidPath

  /** `are_you_sure.strip().lower() == 'n'` */
  predicate IsNo(answer: string) {
    Lower(Strip(answer)) == "n"
  }

  /** One round of the directory prompt: accepted candidate, a retry after `used` lines,
      or a failed question. */
  datatype Round = Accepted(dir: string, used: nat) | Retry(used: nat) | Failed(e: AskError)

  /** The directory question, then (for a candidate without a space whose `abspath`
      succeeds) the confirmation question. */
  function InstallRound(defaultDir: string, inputs: seq<string>, expand: string -> string, abspath: string -> Option<string>): (r: Round)
    ensures r.Retry? ==> 1 <= r.used <= |inputs|
    ensures r.Accepted? ==> ' ' !in r.dir && abspath(r.dir).Some? && r.used <= |inputs|
  {
    var a := Ask(false, Some(defaultDir), None, inputs);
    if a.result.Err? then Failed(a.result.error)
    else
      var c := expand(a.result.value);
      if ' ' in c || abspath(c).None? then Retry(a.used)
      else
        var b := Ask(false, Some("y"), Some(["y", "n"]), inputs[a.used..]);
        if b.result.Err? then Failed(b.result.error)
        else if IsNo(b.result.value) then Retry(a.used + b.used)
        else Accepted(c, a.used + b.used)
  }

  function InstallDirFrom(defaultDir: string, inputs: seq<string>, expand: string -> string, abspath: string -> Option<string>): Result<string, DirError>
    decreases |inputs|
  {
    match InstallRound(defaultDir, inputs, expand, abspath)
    case Failed(e) => Err(AskFailed(e))
    case Retry(k) => InstallDirFrom(defaultDir, inputs[k..], expand, abspath)
    case Accepted(c, _) => Ok(abspath(c).value)
  }

  /** `get_install_dir`. A set METAFFI_HOME is taken as is; a silent run whose
      expanded default is refused would ask again forever, which NeverAccepted stands
      for; `abspath` failing on METAFFI_HOME is InvalidPath. */
  function InstallDir(env: map<string, string>, silent: bool, defaultDir: string, inputs: seq<string>,
                      expand: string -> string, abspath: string -> Option<string>): Result<string, DirError>
  {
    if "METAFFI_HOME" in env then
      match abspath(env["METAFFI_HOME"])
      case None => Err(InvalidPath)
      case Some(d) => Ok(d)
    else if silent then
      if defaultDir == "" then Err(AskFailed(MissingDefault))
      else
        var c := expand(defaultDir);
        if ' ' in c || abspath(c).None? then Err(NeverAccepted) else Ok(abspath(c).value)
    else InstallDirFrom(defaultDir, inputs, expand, abspath)
  }

  /** `get_install_dir`, and how many input lines it read. */
  method GetInstallDir(env: map<string, string>, silent: bool, defaultDir: string, inputs: seq<string>,
                       expand: string -> string, abspath: string -> Option<string>)
    returns (r: Result<string, DirError>, used: nat)
    ensures r == InstallDir(env, silent, defaultDir, inputs, expand, abspath)
    ensures "METAFFI_HOME" in env || silent ==> used == 0
    ensures used <= |inputs|
  {
    if "METAFFI_HOME" in env {
      var d := abspath(env["METAFFI_HOME"]);
      if d.None? {
        return Err(InvalidPath), 0;
      }
      return Ok(d.value), 0;
    }
    if silent {
      var a := AskUser(true, Some(defaultDir), None, inputs);
      if a.result.Err? {
        return Err(AskFailed(a.result.error)), 0;
      }
      var c := expand(a.result.value);
      if ' ' in c || abspath(c).None? {
        return Err(NeverAccepted), 0;
      }
      return Ok(abspath(c).value), 0;
    }
    r, used := AskInstallDir(defaultDir, inputs, expand, abspath);
  }

  /** One pass through the body of the `get_install_dir` loop. */
  method AskRound(defaultDir: string, rest: seq<string>, expand: string -> string, abspath: string -> Option<string>)
    returns (round: Round)
    ensures round == InstallRound(defaultDir, rest, expand, abspath)
  {
    var a := AskUser(false, Some(defaultDir), None, rest);
    if a.result.Err? {
      return Failed(a.result.error);
    }
    var candidate := expand(a.result.value);
    if ' ' in candidate || abspath(candidate).None? {
      return Retry(a.used);
    }
    var b := AskUser(false, Some("y"), Some(["y", "n"]), rest[a.used..]);
    if b.result.Err? {
      return Failed(b.result.error);
    }
    if IsNo(b.result.value) {
      return Retry(a.used + b.used);
    }
    round := Accepted(candidate, a.used + b.used);
  }

  /** The `while not done` loop of `get_install_dir`. */
  method AskInstallDir(defaultDir: string, inputs: seq<string>, expand: string -> string, abspath: string -> Option<string>)
    returns (r: Result<string, DirError>, used: nat)
    ensures r == InstallDirFrom(defaultDir, inputs, expand, abspath)
    ensures used <= |inputs|
  {
    used := 0;
    ghost var target := InstallDirFrom(defaultDir, inputs, expand, abspath);
    while true
      invariant used <= |inputs|
      invariant InstallDirFrom(defaultDir, inputs[used..], expand, abspath) == target
      decreases |inputs| - used
    {
      var round := AskRound(defaultDir, inputs[used..], expand, abspath);
      if round.Failed? {
        assert InstallDirFrom(defaultDir, inputs[used..], expand, abspath) == Err(AskFailed(round.e));
        return Err(AskFailed(round.e)), |inputs|;
      } else if round.Accepted? {
        assert InstallDirFrom(defaultDir, inputs[used..], expand, abspath) == Ok(abspath(round.dir).value);
        return Ok(abspath(round.dir).value), used + round.used;
      }
      var rest := inputs[used..];
      var next := used + round.used;
      RetryContinues(defaultDir, rest, round.used, expand, abspath);
      assert rest[round.used..] == inputs[next..];
      used := next;
    }
  }

  lemma RetryContinues(defaultDir: string, rest: seq<string>, k: nat, expand: string -> string, abspath: string -> Option<string>)
    requires InstallRound(defaultDir, rest, expand, abspath) == Retry(k)
    ensures k <= |rest|
    ensures InstallDirFrom(defaultDir, rest[k..], expand, abspath) == InstallDirFrom(defaultDir, rest, expand, abspath)
  {
  }

  /** Whatever the inputs, an accepted directory is the `abspath` of an expanded
      candidate that holds no space. */
  lemma {:induction false} AcceptedDirHasNoSpace(defaultDir: string, inputs: seq<string>, expand: string -> string, abspath: string -> Option<string>)
    requires InstallDirFrom(defaultDir, inputs, expand, abspath).Ok?
    ensures exists c :: ' ' !in c && abspath(c) == Some(InstallDirFrom(defaultDir, inputs, expand, abspath).value)
    decreases |inputs|
  {
    match InstallRound(defaultDir, inputs, expand, abspath)
    case Retry(k) => AcceptedDirHasNoSpace(defaultDir, inputs[k..], expand, abspath);
    case Accepted(c, _) => assert ' ' !in c && abspath(c) == Some(InstallDirFrom(defaultDir, inputs, expand, abspath).value);
  }

  /** A candidate with a space is refused and the question is asked again. */
  lemma SpaceRePrompts(defaultDir: string, line: string, rest: seq<string>, expand: string -> string, abspath: string -> Option<string>)
    requires ' ' in expand(Resolve(Some(defaultDir), line))
    ensures InstallDirFrom(defaultDir, [line] + rest, expand, abspath) == InstallDirFrom(defaultDir, rest, expand, abspath)
  {
    assert ([line] + rest)[1..] == rest;
    assert FirstAccepted(Some(defaultDir), None, [line] + rest) == Some(0);
  }

  /** Answering `n` at the confirmation starts the round over. */
  lemma NoRePrompts(defaultDir: string, line: string, no: string, rest: seq<string>, expand: string -> string, abspath: string -> Option<string>)
    requires var c := expand(Resolve(Some(defaultDir), line)); ' ' !in c && abspath(c).Some?
    requires IsNo(no)
    ensures InstallDirFrom(defaultDir, [line, no] + rest, expand, abspath) == InstallDirFrom(defaultDir, rest, expand, abspath)
  {
    var inputs := [line, no] + rest;
    assert FirstAccepted(Some(defaultDir), None, inputs) == Some(0);
    assert inputs[1..] == [no] + rest;
    StripIsStripped(no);
    assert Strip(no) != "";
    assert Resolve(Some("y"), no) == Strip(no);
    StripOfPadded(Strip(no), "");
    assert Strip(Strip(no)) == Strip(no) by { assert Strip(no) + "" == Strip(no); }
    assert Acceptable(Some(["y", "n"]), Resolve(Some("y"), no));
    FirstAcceptedAt(Some("y"), Some(["y", "n"]), inputs[1..], 0);
    assert inputs[2..] == rest;
  }

  // ----- set_installer_flags -----

  datatype Flags = Flags(silent: bool, skipTests: bool, extendedTests: bool)

  predicate IsHelp(arg: string) {
    Lower(arg) in {"-h", "--help", "/?", "/h"}
  }

  predicate IsSilentFlag(arg: string) {
    Lower(arg) in {"/s", "-s"}
  }

  predicate IsSkipTestsFlag(arg: string) {
    Lower(arg) == "--skip-sanity"
  }

  predicate IsExtendedTestsFlag(arg: string) {
    Lower(arg) == "--include-extended-tests"
  }

  /**
   * `set_installer_flags` over `sys.argv` (program name included). `full` selects the
   * full installer's version, which also knows `--skip-sanity` and
   * `--include-extended-tests`; the other one knows only the silent flag. The result
   * `proceed` is False at the first help flag; the flags then are those seen before it.
   */
  method SetInstallerFlags(argv: seq<string>, full: bool) returns (proceed: bool, f: Flags)
    ensures proceed <==> forall i :: 0 <= i < |argv| ==> !IsHelp(argv[i])
    ensures proceed ==> f.silent == exists i :: 0 <= i < |argv| && IsSilentFlag(argv[i])
    ensures proceed ==> f.skipTests == (full && exists i :: 0 <= i < |argv| && IsSkipTestsFlag(argv[i]))
    ensures proceed ==> f.extendedTests == (full && exists i :: 0 <= i < |argv| && IsExtendedTestsFlag(argv[i]))
  {
    f := Flags(false, false, false);
    var i := 0;
    while i < |argv|
      invariant 0 <= i <= |argv|
      invariant forall j :: 0 <= j < i ==> !IsHelp(argv[j])
      invariant f.silent == exists j :: 0 <= j < i && IsSilentFlag(argv[j])
      invariant f.skipTests == (full && exists j :: 0 <= j < i && IsSkipTestsFlag(argv[j]))
      invariant f.extendedTests == (full && exists j :: 0 <= j < i && IsExtendedTestsFlag(argv[j]))
    {
      var arg := argv[i];
      if IsHelp(arg) {
        return false, f;
      }
      if IsSilentFlag(arg) {
        f := f.(silent := true);
      }
      if full && IsSkipTestsFlag(arg) {
        f := f.(skipTests := true);
      }
      if full && IsExtendedTestsFlag(arg) {
        f := f.(extendedTests := true);
      }
      i := i + 1;
    }
    proceed := true;
  }
}
