/**
 * The decision logic of `build_installer.py`: where the build output lives, how the
 * entries of the installer manifest become the files of the payload archive and their
 * names inside it, how the base64 payload is written into the installer template, and
 * the two interactive prompts.
 */
module BuildInstaller {
  import opened Results
  import opened Text
  import opened Host
  import Base64

  /** What the build script asks of the machine it runs on. `glob` returns the paths
      matching a pattern in the order `glob.glob` lists them; `relpath(path, start)`,
      `expandvars`, `isabs` and `basename` are the `os.path` functions. */
  datatype BuildHost = BuildHost(
    platform: Platform,
    glob: string -> seq<string>,
    relpath: (string, string) -> string,
    expandvars: string -> string,
    isabs: string -> bool,
    basename: string -> string)

  /** The exceptions the build script raises. */
  datatype BuildError = KeyError | AssertionError | FileNotFoundError | ValueError | EOFError

  // ----- get_output_dir -----

  /** `os.path.join(root, "output", osName, "x64", config)`. */
  function OutputPath(p: Platform, root: string, osName: string, config: string): string {
    PathJoin(p, PathJoin(p, PathJoin(p, PathJoin(p, root, "output"), osName), "x64"), config)
  }

  /** `get_output_dir`: the target must be a key of the OS table (KeyError otherwise)
      and the directory must exist (AssertionError otherwise); the path is returned with
      forward slashes and a trailing slash. */
  function OutputDir(p: Platform, root: string, target: string, config: string, isDir: string -> bool): (r: Result<string, BuildError>)
    ensures r == Err(KeyError) <==> target != "windows" && target != "ubuntu"
    ensures r.Ok? <==> (target == "windows" || target == "ubuntu") && isDir(OutputPath(p, root, target, config))
    ensures r.Ok? ==> var path := OutputPath(p, root, target, config);
      && |r.value| == |path| + 1
      && r.value[|path|] == '/'
      && '\\' !in r.value
      && forall i :: 0 <= i < |path| ==> r.value[i] == (if path[i] == '\\' then '/' else path[i])
  {
    if target != "windows" && target != "ubuntu" then Err(KeyError)
    else
      var path := OutputPath(p, root, target, config);
      if !isDir(path) then Err(AssertionError)
      else
        var slashed := Slashed(path);
        SlashAppended(slashed);
        Ok(slashed + "/")
  }

  lemma SlashAppended(s: string)
    requires '\\' !in s
    ensures '\\' !in s + "/"
  {
  }

  /** On a Linux build machine, a root without a trailing slash gives
      `root/output/<target>/x64/<config>/`. */
  lemma OutputDirOnLinux(root: string, target: string, config: string, isDir: string -> bool)
    requires |root| > 0 && root[|root| - 1] != '/' && '\\' !in root && '\\' !in config
    requires target == "windows" || target == "ubuntu"
    requires isDir(root + "/output/" + target + "/x64/" + config)
    ensures OutputDir(Linux, root, target, config, isDir) == Ok(root + "/output/" + target + "/x64/" + config + "/")
  {
    var a := PathJoin(Linux, root, "output");
    assert a == root + "/output";
    var b := PathJoin(Linux, a, target);
    assert b == root + "/output/" + target;
    var c := PathJoin(Linux, b, "x64");
    assert c == root + "/output/" + target + "/x64";
    var path := PathJoin(Linux, c, config);
    assert path == root + "/output/" + target + "/x64/" + config;
    LinuxOutputPlain(root, target, config);
    ReplaceCharAbsent(path, '\\', '/');
  }

  lemma LinuxOutputPlain(root: string, target: string, config: string)
    requires '\\' !in root && '\\' !in config
    requires target == "windows" || target == "ubuntu"
    ensures '\\' !in root + "/output/" + target + "/x64/" + config
  {
    var o, x := "/output/", "/x64/";
    assert o[0] != '\\' && o[1] != '\\' && o[2] != '\\' && o[3] != '\\' && o[4] != '\\' && o[5] != '\\' && o[6] != '\\' && o[7] != '\\';
    assert x[0] != '\\' && x[1] != '\\' && x[2] != '\\' && x[3] != '\\' && x[4] != '\\';
    var t := target;
    if t == "windows" {
      assert t[0] != '\\' && t[1] != '\\' && t[2] != '\\' && t[3] != '\\' && t[4] != '\\' && t[5] != '\\' && t[6] != '\\';
    } else {
      assert t[0] != '\\' && t[1] != '\\' && t[2] != '\\' && t[3] != '\\' && t[4] != '\\' && t[5] != '\\';
    }
  }

  // ----- resolve_manifest_files -----

  /** An entry of `installer_manifest.json`: a glob relative to the output directory, a
      mapping `{"src", "dest", "optional"}`, or a JSON value of any other type. */
  datatype ManifestEntry =
    | PatternEntry(pattern: string)
    | MappingEntry(src: string, dest: string, optional: bool)
    | OtherEntry

  /** A file of the payload: a path relative to the output directory, which is also its
      name in the archive, or an absolute source with its own archive name. */
  datatype FileEntry =
    | RelativeFile(path: string)
    | MappedFile(source: string, arcname: string)

  function Slashed(s: string): (r: string)
    ensures '\\' !in r
  {
    ReplaceChar(s, '\\', '/')
  }

  predicate EndsWithSlash(s: string) {
    |s| > 0 && s[|s| - 1] == '/'
  }

  /** The archive name of a match of a mapping: inside `dest` when it ends with `/`,
      `dest` itself otherwise. */
  function Arcname(dest: string, base: string): (r: string)
    ensures EndsWithSlash(dest) ==> dest <= r && r[|dest|..] == base
    ensures !EndsWithSlash(dest) ==> r == dest
  {
    if EndsWithSlash(dest) then dest + base else dest
  }

  /** The glob of a mapping: variables expanded, joined to the output directory when
      relative, backslashes turned into slashes. */
  function SourcePattern(h: BuildHost, outputDir: string, src: string): string {
    var expanded := h.expandvars(src);
    Slashed(if h.isabs(expanded) then expanded else PathJoin(h.platform, outputDir, expanded))
  }

  /** Each match as its path relative to the output directory, in match order. */
  function RelativeFiles(h: BuildHost, outputDir: string, matches: seq<string>): (r: seq<FileEntry>)
    ensures |r| == |matches|
    ensures forall k :: 0 <= k < |matches| ==> r[k] == RelativeFile(Slashed(h.relpath(matches[k], outputDir)))
  {
    if |matches| == 0 then []
    else [RelativeFile(Slashed(h.relpath(matches[0], outputDir)))] + RelativeFiles(h, outputDir, matches[1..])
  }

  /** Each match paired with its archive name under `dest`, in match order. */
  function MappedFiles(h: BuildHost, dest: string, matches: seq<string>): (r: seq<FileEntry>)
    ensures |r| == |matches|
    ensures forall k :: 0 <= k < |matches| ==> r[k] == MappedFile(Slashed(matches[k]), Arcname(dest, h.basename(matches[k])))
  {
    if |matches| == 0 then []
    else [MappedFile(Slashed(matches[0]), Arcname(dest, h.basename(matches[0])))] + MappedFiles(h, dest, matches[1..])
  }

  /** The files one manifest entry contributes, in match order, or the exception it raises. */
  function EntryFiles(h: BuildHost, outputDir: string, e: ManifestEntry): Result<seq<FileEntry>, BuildError>
  {
    match e
    case PatternEntry(pattern) =>
      var matches := h.glob(PathJoin(h.platform, outputDir, pattern));
      if |matches| == 0 then Err(FileNotFoundError)
      else Ok(RelativeFiles(h, outputDir, matches))
    case MappingEntry(src, dest, optional) =>
      var matches := h.glob(SourcePattern(h, outputDir, src));
      if |matches| == 0 then (if optional then Ok([]) else Err(FileNotFoundError))
      else Ok(MappedFiles(h, dest, matches))
    case OtherEntry => Err(ValueError)
  }

  /** A string entry: no match raises FileNotFoundError; otherwise each match, in match
      order, becomes its path relative to the output directory with forward slashes. */
  lemma PatternEntryFiles(h: BuildHost, outputDir: string, pattern: string)
    ensures var matches := h.glob(PathJoin(h.platform, outputDir, pattern));
      var r := EntryFiles(h, outputDir, PatternEntry(pattern));
      && (r.Err? <==> |matches| == 0)
      && (r.Err? ==> r.error == FileNotFoundError)
      && (r.Ok? ==> (|r.value| == |matches|
            && forall k :: 0 <= k < |matches| ==>
                 r.value[k].RelativeFile? && r.value[k].path == Slashed(h.relpath(matches[k], outputDir))))
  {
  }

  /** A mapping: no match raises FileNotFoundError unless the entry is optional, in which
      case it contributes nothing; otherwise each match, in match order, becomes its
      slashed path paired with `dest + basename` when `dest` ends with `/` and `dest`
      otherwise. */
  lemma MappingEntryFiles(h: BuildHost, outputDir: string, src: string, dest: string, optional: bool)
    ensures var matches := h.glob(SourcePattern(h, outputDir, src));
      var r := EntryFiles(h, outputDir, MappingEntry(src, dest, optional));
      && (r.Err? <==> |matches| == 0 && !optional)
      && (r.Err? ==> r.error == FileNotFoundError)
      && (optional ==> r.Ok?)
      && (r.Ok? ==> (|r.value| == |matches|
            && forall k :: 0 <= k < |matches| ==>
                 && r.value[k].MappedFile?
                 && r.value[k].source == Slashed(matches[k])
                 && (EndsWithSlash(dest) ==> r.value[k].arcname == dest + h.basename(matches[k]))
                 && (!EndsWithSlash(dest) ==> r.value[k].arcname == dest)))
  {
  }

  /** Any other JSON value raises ValueError. */
  lemma OtherEntryRaises(h: BuildHost, outputDir: string)
    ensures EntryFiles(h, outputDir, OtherEntry) == Err(ValueError)
  {
  }

  /** `resolve_manifest_files`: the files of the entries in entry order, or the
      exception of the first entry that raises. */
  function Resolve(h: BuildHost, outputDir: string, entries: seq<ManifestEntry>): Result<seq<FileEntry>, BuildError>
    decreases |entries|
  {
    if |entries| == 0 then Ok([])
    else match Resolve(h, outputDir, entries[..|entries| - 1])
      case Err(e) => Err(e)
      case Ok(prefix) =>
        match EntryFiles(h, outputDir, entries[|entries| - 1])
        case Err(e) => Err(e)
        case Ok(files) => Ok(prefix + files)
  }

  /** The files of one entry appended to `acc`, by the inner loop over its matches. */
  method AppendEntryFiles(h: BuildHost, outputDir: string, e: ManifestEntry, acc: seq<FileEntry>)
    returns (r: Result<seq<FileEntry>, BuildError>)
    ensures r == match EntryFiles(h, outputDir, e)
      case Err(err) => Err(err)
      case Ok(files) => Ok(acc + files)
  {
    var result := acc;
    match e {
      case PatternEntry(pattern) =>
        var matches := h.glob(PathJoin(h.platform, outputDir, pattern));
        if |matches| == 0 {
          return Err(FileNotFoundError);
        }
        for i := 0 to |matches|
          invariant |result| == |acc| + i && result[..|acc|] == acc
          invariant forall k :: 0 <= k < i ==> result[|acc| + k] == RelativeFile(Slashed(h.relpath(matches[k], outputDir)))
        {
          var rel := Slashed(h.relpath(matches[i], outputDir));
          result := result + [RelativeFile(rel)];
        }
      case MappingEntry(src, dest, optional) =>
        var pattern := SourcePattern(h, outputDir, src);
        var matches := h.glob(pattern);
        if |matches| == 0 {
          if optional {
            assert acc + [] == acc;
            return Ok(acc);
          }
          return Err(FileNotFoundError);
        }
        for i := 0 to |matches|
          invariant |result| == |acc| + i && result[..|acc|] == acc
          invariant forall k :: 0 <= k < i ==>
            result[|acc| + k] == MappedFile(Slashed(matches[k]), Arcname(dest, h.basename(matches[k])))
        {
          var absSrc := Slashed(matches[i]);
          var arcname := if EndsWithSlash(dest) then dest + h.basename(matches[i]) else dest;
          result := result + [MappedFile(absSrc, arcname)];
        }
      case OtherEntry =>
        return Err(ValueError);
    }
    if e.PatternEntry? {
      PatternEntryFiles(h, outputDir, e.pattern);
    } else {
      MappingEntryFiles(h, outputDir, e.src, e.dest, e.optional);
    }
    var files := EntryFiles(h, outputDir, e).value;
    assert result == acc + files;
    r := Ok(result);
  }

  method ResolveManifestFiles(h: BuildHost, outputDir: string, entries: seq<ManifestEntry>)
    returns (r: Result<seq<FileEntry>, BuildError>)
    ensures r == Resolve(h, outputDir, entries)
  {
    var result: seq<FileEntry> := [];
    for i := 0 to |entries|
      invariant Resolve(h, outputDir, entries[..i]) == Ok(result)
    {
      assert entries[..i + 1][..i] == entries[..i];
      var step := AppendEntryFiles(h, outputDir, entries[i], result);
      if step.Err? {
        assert entries[..i + 1][i] == entries[i];
        RaisedStaysRaised(h, outputDir, entries, i + 1);
        return Err(step.error);
      }
      result := step.value;
    }
    assert entries[..|entries|] == entries;
    r := Ok(result);
  }

  /** Once an entry raises, the whole resolution raises that exception. */
  lemma {:induction false} RaisedStaysRaised(h: BuildHost, outputDir: string, entries: seq<ManifestEntry>, n: nat)
    requires 0 < n <= |entries| && Resolve(h, outputDir, entries[..n]).Err?
    ensures Resolve(h, outputDir, entries) == Resolve(h, outputDir, entries[..n])
    decreases |entries| - n
  {
    if n < |entries| {
      assert entries[..n + 1][..n] == entries[..n];
      RaisedStaysRaised(h, outputDir, entries, n + 1);
    } else {
      assert entries[..n] == entries;
    }
  }

  /** Resolution succeeds exactly when every entry resolves. */
  lemma {:induction false} ResolveSucceedsIffEveryEntry(h: BuildHost, outputDir: string, entries: seq<ManifestEntry>)
    ensures Resolve(h, outputDir, entries).Ok? <==> forall i :: 0 <= i < |entries| ==> EntryFiles(h, outputDir, entries[i]).Ok?
    decreases |entries|
  {
    if |entries| > 0 {
      var front, last := entries[..|entries| - 1], entries[|entries| - 1];
      ResolveSucceedsIffEveryEntry(h, outputDir, front);
      assert Resolve(h, outputDir, entries).Ok? <==> Resolve(h, outputDir, front).Ok? && EntryFiles(h, outputDir, last).Ok?;
      if Resolve(h, outputDir, entries).Ok? {
        forall i | 0 <= i < |entries|
          ensures EntryFiles(h, outputDir, entries[i]).Ok?
        {
          if i < |front| {
            assert front[i] == entries[i];
          }
        }
      } else if Resolve(h, outputDir, front).Err? {
        var i :| 0 <= i < |front| && EntryFiles(h, outputDir, front[i]).Err?;
        assert front[i] == entries[i];
      }
    }
  }

  /** Output order follows entry order: the files of `a + b` are those of `a` followed by
      those of `b`. */
  lemma {:induction false} ResolveConcat(h: BuildHost, outputDir: string, a: seq<ManifestEntry>, b: seq<ManifestEntry>)
    requires Resolve(h, outputDir, a).Ok? && Resolve(h, outputDir, b).Ok?
    ensures Resolve(h, outputDir, a + b) == Ok(Resolve(h, outputDir, a).value + Resolve(h, outputDir, b).value)
    decreases |b|
  {
    if |b| == 0 {
      assert a + b == a;
      assert Resolve(h, outputDir, a).value + [] == Resolve(h, outputDir, a).value;
    } else {
      var front, e := b[..|b| - 1], b[|b| - 1];
      ResolveFrontOk(h, outputDir, b);
      ResolveConcat(h, outputDir, a, front);
      ResolveConcatStep(h, outputDir, a, front, e);
      assert b == front + [e];
    }
  }

  /** A resolved list of entries has a resolved front. */
  lemma ResolveFrontOk(h: BuildHost, outputDir: string, b: seq<ManifestEntry>)
    requires |b| > 0 && Resolve(h, outputDir, b).Ok?
    ensures Resolve(h, outputDir, b[..|b| - 1]).Ok?
  {
    assert b == b[..|b| - 1] + [b[|b| - 1]];
    ResolveSnoc(h, outputDir, b[..|b| - 1], b[|b| - 1]);
  }

  lemma ResolveConcatStep(h: BuildHost, outputDir: string, a: seq<ManifestEntry>, b: seq<ManifestEntry>, e: ManifestEntry)
    requires Resolve(h, outputDir, a).Ok? && Resolve(h, outputDir, b + [e]).Ok?
    requires Resolve(h, outputDir, a + b) == Ok(Resolve(h, outputDir, a).value + Resolve(h, outputDir, b).value)
    ensures Resolve(h, outputDir, a + (b + [e])) == Ok(Resolve(h, outputDir, a).value + Resolve(h, outputDir, b + [e]).value)
  {
    assert a + (b + [e]) == (a + b) + [e];
    ResolveSnoc(h, outputDir, b, e);
    ResolveSnoc(h, outputDir, a + b, e);
    Associative(Resolve(h, outputDir, a).value, Resolve(h, outputDir, b).value, EntryFiles(h, outputDir, e).value);
  }

  /** One more entry appends its files, or raises. */
  lemma ResolveSnoc(h: BuildHost, outputDir: string, entries: seq<ManifestEntry>, e: ManifestEntry)
    ensures Resolve(h, outputDir, entries + [e]) ==
      if Resolve(h, outputDir, entries).Err? then Resolve(h, outputDir, entries)
      else if EntryFiles(h, outputDir, e).Err? then EntryFiles(h, outputDir, e)
      else Ok(Resolve(h, outputDir, entries).value + EntryFiles(h, outputDir, e).value)
  {
    assert (entries + [e])[..|entries|] == entries;
  }

  /** The path of every resolved file, and the source of every mapped one, uses forward
      slashes only. */
  predicate SlashesOnly(f: FileEntry) {
    match f
    case RelativeFile(path) => '\\' !in path
    case MappedFile(source, _) => '\\' !in source
  }

  lemma {:induction false} ResolvedUseSlashes(h: BuildHost, outputDir: string, entries: seq<ManifestEntry>)
    requires Resolve(h, outputDir, entries).Ok?
    ensures forall k :: 0 <= k < |Resolve(h, outputDir, entries).value| ==> SlashesOnly(Resolve(h, outputDir, entries).value[k])
    decreases |entries|
  {
    if |entries| > 0 {
      ResolvedUseSlashes(h, outputDir, entries[..|entries| - 1]);
      var e := entries[|entries| - 1];
      if e.PatternEntry? {
        PatternEntryFiles(h, outputDir, e.pattern);
      } else if e.MappingEntry? {
        MappingEntryFiles(h, outputDir, e.src, e.dest, e.optional);
      }
      var files := EntryFiles(h, outputDir, e).value;
      assert forall k :: 0 <= k < |files| ==> SlashesOnly(files[k]);
    }
  }

  // ----- zip_installer_files -----

  /** The name a payload file gets in the archive. */
  function ArcnameOf(f: FileEntry): string {
    match f
    case RelativeFile(path) => path
    case MappedFile(_, arcname) => arcname
  }

  /** The file `zip_installer_files` reads for an entry, paired with its archive name:
      a relative path is read below `root` (by string concatenation), an absolute one as it is. */
  function ZipWrite(h: BuildHost, root: string, f: FileEntry): (w: (string, string))
    ensures w.1 == ArcnameOf(f)
    ensures f.MappedFile? ==> w.0 == f.source
    ensures f.RelativeFile? && h.isabs(f.path) ==> w.0 == f.path
    ensures f.RelativeFile? && !h.isabs(f.path) ==> w.0 == root + f.path
  {
    match f
    case MappedFile(source, arcname) => (source, arcname)
    case RelativeFile(path) => if h.isabs(path) then (path, path) else (root + path, path)
  }

  /** The loop of `zip_installer_files`: one archive write per file, in order. */
  method ZipInstallerFiles(h: BuildHost, root: string, files: seq<FileEntry>) returns (writes: seq<(string, string)>)
    ensures |writes| == |files|
    ensures forall k :: 0 <= k < |files| ==> writes[k] == ZipWrite(h, root, files[k])
  {
    writes := [];
    for i := 0 to |files|
      invariant |writes| == i
      invariant forall k :: 0 <= k < i ==> writes[k] == ZipWrite(h, root, files[k])
    {
      var file := files[i];
      var arcname: string;
      var source: string;
      if file.MappedFile? {
        arcname := file.arcname;
        source := file.source;
      } else {
        arcname := file.path;
        source := if h.isabs(file.path) then file.path else root + file.path;
      }
      writes := writes + [(source, arcname)];
    }
  }

  /** The archive names of a resolved manifest: a relative match keeps its slashed
      relative path, a mapped match gets `dest` or `dest + basename`. */
  lemma ArchiveNamesOfMapping(h: BuildHost, outputDir: string, root: string, src: string, dest: string, optional: bool, k: nat)
    requires EntryFiles(h, outputDir, MappingEntry(src, dest, optional)).Ok?
    requires k < |EntryFiles(h, outputDir, MappingEntry(src, dest, optional)).value|
    ensures var m := h.glob(SourcePattern(h, outputDir, src))[k];
      var w := ZipWrite(h, root, EntryFiles(h, outputDir, MappingEntry(src, dest, optional)).value[k]);
      && w.0 == Slashed(m)
      && (EndsWithSlash(dest) ==> w.1 == dest + h.basename(m))
      && (!EndsWithSlash(dest) ==> w.1 == dest)
  {
    MappingEntryFiles(h, outputDir, src, dest, optional);
  }

  // ----- payload substitution -----

  /** After the leading whitespace, `=` and at least one more character: what
      `\s*=\s*.+` needs once the name has matched, within one line. */
  predicate AssignmentRest(rest: string) {
    var t := TrimStart(rest);
    |t| >= 2 && t[0] == '='
  }

  /** `name\s*=\s*.+` matches at position `k` of the line. */
  predicate AssignsAt(line: string, name: string, k: nat) {
    k + |name| <= |line| && name <= line[k..] && AssignmentRest(line[k + |name|..])
  }

  /** The leftmost position of a line where the assignment pattern matches. */
  function FirstAssignAt(line: string, name: string, from: nat): (r: Option<nat>)
    ensures r.Some? ==> from <= r.value && AssignsAt(line, name, r.value)
    ensures r.Some? ==> forall k :: from <= k < r.value ==> !AssignsAt(line, name, k)
    ensures r.None? ==> forall k :: from <= k ==> !AssignsAt(line, name, k)
    decreases |line| - from
  {
    if from + |name| > |line| then None
    else if AssignsAt(line, name, from) then Some(from)
    else FirstAssignAt(line, name, from + 1)
  }

  /** The first line holding a match. */
  function FirstAssigningLine(lines: seq<string>, name: string): (r: Option<nat>)
    ensures r.Some? ==> r.value < |lines| && FirstAssignAt(lines[r.value], name, 0).Some?
    ensures r.Some? ==> forall j :: 0 <= j < r.value ==> FirstAssignAt(lines[j], name, 0).None?
    ensures r.None? ==> forall j :: 0 <= j < |lines| ==> FirstAssignAt(lines[j], name, 0).None?
  {
    if |lines| == 0 then None
    else if FirstAssignAt(lines[0], name, 0).Some? then Some(0)
    else match FirstAssigningLine(lines[1..], name)
      case None => None
      case Some(j) => Some(j + 1)
  }

  /** `re.sub(name + r"\s*=\s*.+", replacement, text, count=1)` on the lines of a text:
      the first match runs from its start to the end of its line (`.+` is greedy and
      stops at a line feed) and is replaced; everything else is kept. */
  function Substitute(lines: seq<string>, name: string, replacement: string): (r: seq<string>)
    ensures |r| == |lines|
    ensures FirstAssigningLine(lines, name).None? ==> r == lines
    ensures FirstAssigningLine(lines, name).Some? ==>
      var i := FirstAssigningLine(lines, name).value;
      var k := FirstAssignAt(lines[i], name, 0).value;
      && r[i] == lines[i][..k] + replacement
      && forall j :: 0 <= j < |lines| && j != i ==> r[j] == lines[j]
  {
    match FirstAssigningLine(lines, name)
    case None => lines
    case Some(i) =>
      var k := FirstAssignAt(lines[i], name, 0).value;
      lines[i := lines[i][..k] + replacement]
  }

  /** The text `f"{name} = {value}"` the build script writes. */
  function Assignment(name: string, value: string): string {
    name + " = " + value
  }

  /** The inserted text is itself a match at its start whenever the value is not empty. */
  lemma AssignmentAssigns(name: string, value: string)
    requires |value| > 0
    ensures AssignsAt(Assignment(name, value), name, 0)
  {
    var line := Assignment(name, value);
    assert line[|name|..] == " = " + value;
    assert TrimStart(" = " + value) == "= " + value by {
      assert (" = " + value)[1..] == "= " + value;
    }
  }

  /** Rebuilding from an already substituted template (one whose assignment starts a
      line) replaces the same line again: the second value wins and nothing else moves. */
  lemma SubstituteTwice(lines: seq<string>, name: string, v1: string, v2: string)
    requires |v1| > 0
    requires FirstAssigningLine(lines, name).Some?
    requires FirstAssignAt(lines[FirstAssigningLine(lines, name).value], name, 0) == Some(0)
    ensures Substitute(Substitute(lines, name, Assignment(name, v1)), name, Assignment(name, v2))
      == Substitute(lines, name, Assignment(name, v2))
  {
    var i := FirstAssigningLine(lines, name).value;
    var once := Substitute(lines, name, Assignment(name, v1));
    assert once[i] == Assignment(name, v1) by {
      assert lines[i][..0] == "";
    }
    AssignmentAssigns(name, v1);
    assert FirstAssignAt(once[i], name, 0) == Some(0);
    SameFirstLine(lines, once, name, i);
    var twice := Substitute(once, name, Assignment(name, v2));
    var direct := Substitute(lines, name, Assignment(name, v2));
    assert twice[i] == Assignment(name, v2) && direct[i] == Assignment(name, v2) by {
      assert once[i][..0] == "" && lines[i][..0] == "";
    }
    assert forall j :: 0 <= j < |lines| ==> twice[j] == direct[j];
  }

  lemma SameFirstLine(lines: seq<string>, other: seq<string>, name: string, i: nat)
    requires FirstAssigningLine(lines, name) == Some(i)
    requires |other| == |lines| && forall j :: 0 <= j < |lines| && j != i ==> other[j] == lines[j]
    requires FirstAssignAt(other[i], name, 0).Some?
    ensures FirstAssigningLine(other, name) == Some(i)
  {
    var r := FirstAssigningLine(other, name);
    assert r.Some?;
    assert !(r.value < i) && !(r.value > i);
  }

  /** The Python literal `f"{base64.b64encode(zip)}"` produces: the repr of a bytes object,
      which for base64 text (no quote, no backslash) is the text between `b'` and `'`. */
  function BytesLiteral(text: string): string {
    "b'" + text + "'"
  }

  /** What the generated installer reads back from an assignment line: the text of a
      bytes literal after `name = `. */
  function LiteralPayload(line: string, name: string): Option<string> {
    var prefix := name + " = b'";
    if |line| >= |prefix| + 1 && prefix <= line && line[|line| - 1] == '\'' then Some(line[|prefix|..|line| - 1])
    else None
  }

  /** `create_installer_file` for one archive: the zip bytes encoded and written into the
      first assignment of `name`. */
  function EmbedPayload(lines: seq<string>, name: string, zip: seq<Base64.Byte>): seq<string> {
    Substitute(lines, name, Assignment(name, BytesLiteral(Base64.Encode(zip))))
  }

  /** The payload round trip: when the template's assignment starts its line, the
      generated installer finds the base64 text of the archive there, and `b64decode`
      of it gives back exactly the archive the build zipped. */
  lemma PayloadRoundTrip(lines: seq<string>, name: string, zip: seq<Base64.Byte>)
    requires FirstAssigningLine(lines, name).Some?
    requires FirstAssignAt(lines[FirstAssigningLine(lines, name).value], name, 0) == Some(0)
    ensures var i := FirstAssigningLine(lines, name).value;
      var out := EmbedPayload(lines, name, zip);
      && LiteralPayload(out[i], name) == Some(Base64.Encode(zip))
      && Base64.Decode(LiteralPayload(out[i], name).value) == Ok(zip)
      && forall j :: 0 <= j < |lines| && j != i ==> out[j] == lines[j]
  {
    var i := FirstAssigningLine(lines, name).value;
    var text := Base64.Encode(zip);
    assert EmbedPayload(lines, name, zip)[i] == Assignment(name, BytesLiteral(text)) by {
      assert lines[i][..0] == "";
    }
    LiteralReadBack(name, text);
    Base64.DecodeEncode(zip);
  }

  /** The generated line gives back the text of the literal. */
  lemma LiteralReadBack(name: string, text: string)
    ensures LiteralPayload(Assignment(name, BytesLiteral(text)), name) == Some(text)
  {
    var line := Assignment(name, BytesLiteral(text));
    var prefix := name + " = b'";
    assert line == prefix + text + "'";
    assert line[|prefix|..|line| - 1] == text;
  }

  /** The three substitutions of `create_installer_file`, in their order. */
  function InstallerSource(template: seq<string>, windowsZip: seq<Base64.Byte>, ubuntuZip: seq<Base64.Byte>, version: string): seq<string> {
    Substitute(EmbedArchives(template, windowsZip, ubuntuZip), "METAFFI_VERSION", Assignment("METAFFI_VERSION", "'" + version + "'"))
  }

  /** The Windows archive written over `windows_x64_zip`, then the Ubuntu archive over
      `ubuntu_x64_zip`, as both installer builders do. */
  function EmbedArchives(template: seq<string>, windowsZip: seq<Base64.Byte>, ubuntuZip: seq<Base64.Byte>): seq<string> {
    EmbedPayload(EmbedPayload(template, "windows_x64_zip", windowsZip), "ubuntu_x64_zip", ubuntuZip)
  }

  /** A line `EmbedPayload` wrote holds no match of a name whose first letter the
      written name lacks and which has an underscore: neither ` = b'`, nor the base64
      text, nor the closing quote holds a `_`. */
  lemma PayloadLineLacks(name: string, zip: seq<Base64.Byte>, other: string, d: nat)
    requires d < |other| && other[d] == '_' && other[0] !in name
    ensures FirstAssignAt(Assignment(name, BytesLiteral(Base64.Encode(zip))), other, 0).None?
  {
    var text := Base64.Encode(zip);
    var line := Assignment(name, BytesLiteral(text));
    var mid := " = b'";
    assert line == name + mid + text + "'";
    assert '_' !in mid;
    forall k | 0 <= k && k + |other| <= |line|
      ensures !(other <= line[k..])
    {
      if k < |name| {
        assert line[k] == name[k];
      } else {
        var j := k + d;
        if j < |name| + |mid| {
          assert line[j] == mid[j - |name|];
        } else if j < |name| + |mid| + |text| {
          assert line[j] == text[j - |name| - |mid|];
          assert Base64.IsEncodedChar(text[j - |name| - |mid|]);
        } else {
          assert line[j] == '\'';
        }
        assert line[k..][d] == line[j];
      }
    }
  }

  /** When the first match starts its line, the whole line becomes the replacement. */
  lemma SubstituteAtStart(lines: seq<string>, name: string, replacement: string, i: nat)
    requires FirstAssigningLine(lines, name) == Some(i) && FirstAssignAt(lines[i], name, 0) == Some(0)
    ensures Substitute(lines, name, replacement) == lines[i := replacement]
  {
    assert lines[i][..0] + replacement == replacement;
  }

  /** Lines that match `name` exactly where the old ones did have the same first match. */
  lemma FirstLineKept(lines: seq<string>, other: seq<string>, name: string)
    requires |other| == |lines|
    requires forall j :: 0 <= j < |lines| ==>
      (FirstAssignAt(other[j], name, 0).Some? <==> FirstAssignAt(lines[j], name, 0).Some?)
    ensures FirstAssigningLine(other, name) == FirstAssigningLine(lines, name)
  {
    var a, b := FirstAssigningLine(other, name), FirstAssigningLine(lines, name);
    if a.Some? && b.Some? {
      assert !(a.value < b.value) && !(b.value < a.value);
    }
  }

  /** The three substitutions of `create_installer_file` on a template whose two payload
      assignments and version assignment each start their line, in that order: the
      generated installer decodes both payloads back to the archives the build zipped,
      sets the version, and leaves every other line as it was. */
  lemma InstallerSourceFilled(template: seq<string>, windowsZip: seq<Base64.Byte>, ubuntuZip: seq<Base64.Byte>, version: string,
                              iw: nat, iu: nat, iv: nat)
    requires FirstAssigningLine(template, "windows_x64_zip") == Some(iw) && FirstAssignAt(template[iw], "windows_x64_zip", 0) == Some(0)
    requires FirstAssigningLine(template, "ubuntu_x64_zip") == Some(iu) && FirstAssignAt(template[iu], "ubuntu_x64_zip", 0) == Some(0)
    requires FirstAssigningLine(template, "METAFFI_VERSION") == Some(iv) && FirstAssignAt(template[iv], "METAFFI_VERSION", 0) == Some(0)
    requires iw < iu < iv
    ensures var out := InstallerSource(template, windowsZip, ubuntuZip, version);
      && |out| == |template|
      && LiteralPayload(out[iw], "windows_x64_zip") == Some(Base64.Encode(windowsZip))
      && Base64.Decode(Base64.Encode(windowsZip)) == Ok(windowsZip)
      && LiteralPayload(out[iu], "ubuntu_x64_zip") == Some(Base64.Encode(ubuntuZip))
      && Base64.Decode(Base64.Encode(ubuntuZip)) == Ok(ubuntuZip)
      && out[iv] == Assignment("METAFFI_VERSION", "'" + version + "'")
      && forall j :: 0 <= j < |template| && j != iw && j != iu && j != iv ==> out[j] == template[j]
  {
    NamesApart();
    ArchivesAndVersionFilled(template, windowsZip, ubuntuZip, iw, iu, iv, "METAFFI_VERSION", 7,
                             Assignment("METAFFI_VERSION", "'" + version + "'"));
  }

  /** No later name can match inside a written payload line: `ubuntu_x64_zip` after the
      Windows payload, and either version name after both, each has a `_` and a first
      letter the earlier payload names lack. */
  lemma NamesApart()
    ensures "ubuntu_x64_zip"[6] == '_' && 'u' !in "windows_x64_zip"
    ensures "METAFFI_VERSION"[7] == '_' && 'M' !in "windows_x64_zip" && 'M' !in "ubuntu_x64_zip"
    ensures "PLUGIN_VERSION"[6] == '_' && 'P' !in "windows_x64_zip" && 'P' !in "ubuntu_x64_zip"
  {
  }

  /** Both payload substitutions followed by the version substitution, for a version
      name `last` that neither payload line can match: the payloads read back, the
      version line is `replacement`, and every other line is unchanged. */
  lemma ArchivesAndVersionFilled(template: seq<string>, windowsZip: seq<Base64.Byte>, ubuntuZip: seq<Base64.Byte>,
                                 iw: nat, iu: nat, iv: nat, last: string, d: nat, replacement: string)
    requires FirstAssigningLine(template, "windows_x64_zip") == Some(iw) && FirstAssignAt(template[iw], "windows_x64_zip", 0) == Some(0)
    requires FirstAssigningLine(template, "ubuntu_x64_zip") == Some(iu) && FirstAssignAt(template[iu], "ubuntu_x64_zip", 0) == Some(0)
    requires FirstAssigningLine(template, last) == Some(iv) && FirstAssignAt(template[iv], last, 0) == Some(0)
    requires iw < iu < iv
    requires d < |last| && last[d] == '_' && last[0] !in "windows_x64_zip" && last[0] !in "ubuntu_x64_zip"
    ensures var out := Substitute(EmbedArchives(template, windowsZip, ubuntuZip), last, replacement);
      && |out| == |template|
      && LiteralPayload(out[iw], "windows_x64_zip") == Some(Base64.Encode(windowsZip))
      && Base64.Decode(Base64.Encode(windowsZip)) == Ok(windowsZip)
      && LiteralPayload(out[iu], "ubuntu_x64_zip") == Some(Base64.Encode(ubuntuZip))
      && Base64.Decode(Base64.Encode(ubuntuZip)) == Ok(ubuntuZip)
      && out[iv] == replacement
      && forall j :: 0 <= j < |template| && j != iw && j != iu && j != iv ==> out[j] == template[j]
  {
    FillPayloads(template, windowsZip, ubuntuZip, iw, iu, iv, last, d);
    var withUbuntu := EmbedArchives(template, windowsZip, ubuntuZip);
    assert withUbuntu[iv] == template[iv];
    SubstituteAtStart(withUbuntu, last, replacement, iv);
  }

  /** The two payload substitutions, which keep the first match of a later name `last`
      (one with a `_` at `d` and a first letter neither payload name has) where it was. */
  lemma FillPayloads(template: seq<string>, windowsZip: seq<Base64.Byte>, ubuntuZip: seq<Base64.Byte>,
                     iw: nat, iu: nat, iv: nat, last: string, d: nat)
    requires FirstAssigningLine(template, "windows_x64_zip") == Some(iw) && FirstAssignAt(template[iw], "windows_x64_zip", 0) == Some(0)
    requires FirstAssigningLine(template, "ubuntu_x64_zip") == Some(iu) && FirstAssignAt(template[iu], "ubuntu_x64_zip", 0) == Some(0)
    requires FirstAssigningLine(template, last) == Some(iv)
    requires iw < iu < iv
    requires d < |last| && last[d] == '_' && last[0] !in "windows_x64_zip" && last[0] !in "ubuntu_x64_zip"
    ensures |EmbedArchives(template, windowsZip, ubuntuZip)| == |template|
    ensures LiteralPayload(EmbedArchives(template, windowsZip, ubuntuZip)[iw], "windows_x64_zip") == Some(Base64.Encode(windowsZip))
    ensures LiteralPayload(EmbedArchives(template, windowsZip, ubuntuZip)[iu], "ubuntu_x64_zip") == Some(Base64.Encode(ubuntuZip))
    ensures Base64.Decode(Base64.Encode(windowsZip)) == Ok(windowsZip)
    ensures Base64.Decode(Base64.Encode(ubuntuZip)) == Ok(ubuntuZip)
    ensures forall j :: 0 <= j < |template| && j != iw && j != iu ==> EmbedArchives(template, windowsZip, ubuntuZip)[j] == template[j]
    ensures FirstAssigningLine(EmbedArchives(template, windowsZip, ubuntuZip), last) == Some(iv)
  {
    NamesApart();
    EmbedKeepsLaterMatch(template, "windows_x64_zip", windowsZip, iw, "ubuntu_x64_zip", 6, iu);
    EmbedKeepsLaterMatch(template, "windows_x64_zip", windowsZip, iw, last, d, iv);
    var withWindows := EmbedPayload(template, "windows_x64_zip", windowsZip);
    assert withWindows[iu] == template[iu];
    EmbedKeepsLaterMatch(withWindows, "ubuntu_x64_zip", ubuntuZip, iu, last, d, iv);
  }

  /** One payload substitution: the payload line reads back the archive, no other line
      changes, and the first match of a later name `last` (one with a `_` at `d` and a
      first letter the payload name lacks) stays where it was. */
  lemma EmbedKeepsLaterMatch(lines: seq<string>, name: string, zip: seq<Base64.Byte>, i: nat, last: string, d: nat, k: nat)
    requires FirstAssigningLine(lines, name) == Some(i) && FirstAssignAt(lines[i], name, 0) == Some(0)
    requires FirstAssigningLine(lines, last) == Some(k) && i < k
    requires d < |last| && last[d] == '_' && last[0] !in name
    ensures |EmbedPayload(lines, name, zip)| == |lines|
    ensures LiteralPayload(EmbedPayload(lines, name, zip)[i], name) == Some(Base64.Encode(zip))
    ensures Base64.Decode(Base64.Encode(zip)) == Ok(zip)
    ensures forall j :: 0 <= j < |lines| && j != i ==> EmbedPayload(lines, name, zip)[j] == lines[j]
    ensures FirstAssigningLine(EmbedPayload(lines, name, zip), last) == Some(k)
  {
    var out := EmbedPayload(lines, name, zip);
    PayloadRoundTrip(lines, name, zip);
    PayloadLineLacks(name, zip, last, d);
    assert out[i] == Assignment(name, BytesLiteral(Base64.Encode(zip))) by {
      assert lines[i][..0] == "";
    }
    FirstLineKept(lines, out, last);
  }

  lemma InstallerSourceKeepsLength(template: seq<string>, windowsZip: seq<Base64.Byte>, ubuntuZip: seq<Base64.Byte>, version: string)
    ensures |InstallerSource(template, windowsZip, ubuntuZip, version)| == |template|
  {
  }

  // ----- prompt_choice and prompt_string -----

  /** The first choice equal to the answer ignoring case. */
  function FirstTextMatch(choices: seq<string>, raw: string): (r: Option<nat>)
    ensures r.Some? ==> r.value < |choices| && Lower(raw) == Lower(choices[r.value])
    ensures r.Some? ==> forall j :: 0 <= j < r.value ==> Lower(raw) != Lower(choices[j])
    ensures r.None? ==> forall j :: 0 <= j < |choices| ==> Lower(raw) != Lower(choices[j])
  {
    if |choices| == 0 then None
    else if Lower(raw) == Lower(choices[0]) then Some(0)
    else match FirstTextMatch(choices[1..], raw)
      case None => None
      case Some(j) => Some(j + 1)
  }

  /** One round of `prompt_choice`: what an input line selects, or None to prompt again.
      Text is tried before the numeric index. */
  function ChoiceOf(choices: seq<string>, default: Option<string>, line: string): (r: Option<string>)
    ensures r.Some? ==> r.value in choices || default == Some(r.value)
    ensures var raw := Strip(line);
      r.Some? <==> (raw == "" && default.Some?) || FirstTextMatch(choices, raw).Some?
                   || (ParseNat(raw).Some? && 1 <= ParseNat(raw).value <= |choices|)
  {
    var raw := Strip(line);
    if raw == "" && default.Some? then default
    else match FirstTextMatch(choices, raw)
      case Some(j) => Some(choices[j])
      case None =>
        match ParseNat(raw)
        case Some(n) => if 1 <= n <= |choices| then Some(choices[n - 1]) else None
        case None => None
  }

  /** The first input line that selects something. */
  function FirstAnswered(choices: seq<string>, default: Option<string>, inputs: seq<string>): (r: Option<nat>)
    ensures r.Some? ==> r.value < |inputs| && ChoiceOf(choices, default, inputs[r.value]).Some?
    ensures r.Some? ==> forall j :: 0 <= j < r.value ==> ChoiceOf(choices, default, inputs[j]).None?
    ensures r.None? ==> forall j :: 0 <= j < |inputs| ==> ChoiceOf(choices, default, inputs[j]).None?
  {
    if |inputs| == 0 then None
    else if ChoiceOf(choices, default, inputs[0]).Some? then Some(0)
    else
      assert forall j :: 1 <= j < |inputs| ==> inputs[j] == inputs[1..][j - 1];
      match FirstAnswered(choices, default, inputs[1..])
      case None => None
      case Some(j) => Some(j + 1)
  }

  /** `prompt_choice` over the lines the user types; running out of input raises EOFError. */
  function PromptChoiceSpec(choices: seq<string>, default: Option<string>, inputs: seq<string>): Result<string, BuildError> {
    match FirstAnswered(choices, default, inputs)
    case None => Err(EOFError)
    case Some(i) => Ok(ChoiceOf(choices, default, inputs[i]).value)
  }

  /** The `while True` loop of `prompt_choice`. */
  method PromptChoice(choices: seq<string>, default: Option<string>, inputs: seq<string>) returns (r: Result<string, BuildError>)
    ensures r == PromptChoiceSpec(choices, default, inputs)
  {
    var i := 0;
    while i < |inputs|
      invariant i <= |inputs|
      invariant forall j :: 0 <= j < i ==> ChoiceOf(choices, default, inputs[j]).None?
    {
      var picked := ChoiceOf(choices, default, inputs[i]);
      if picked.Some? {
        var f := FirstAnswered(choices, default, inputs);
        assert f.Some? && !(f.value < i) && !(f.value > i);
        return Ok(picked.value);
      }
      i := i + 1;
    }
    return Err(EOFError);
  }

  /** The answer `prompt_choice` returns is one of the choices or the default, and every
      earlier line was rejected. */
  lemma PromptChoiceValid(choices: seq<string>, default: Option<string>, inputs: seq<string>)
    ensures PromptChoiceSpec(choices, default, inputs).Ok? ==>
      var c := PromptChoiceSpec(choices, default, inputs).value;
      c in choices || default == Some(c)
    ensures PromptChoiceSpec(choices, default, inputs).Err? <==>
      forall j :: 0 <= j < |inputs| ==> ChoiceOf(choices, default, inputs[j]).None?
  {
    if FirstAnswered(choices, default, inputs).Some? {
      var i := FirstAnswered(choices, default, inputs).value;
      assert ChoiceOf(choices, default, inputs[i]).Some?;
    }
  }

  /** An empty answer selects the default when there is one; without a default it is
      tried as a choice and then as a number, so it only selects a choice spelt "". */
  lemma EmptyAnswerTakesDefault(choices: seq<string>, d: string, line: string)
    requires Strip(line) == ""
    ensures ChoiceOf(choices, Some(d), line) == Some(d)
    ensures ChoiceOf(choices, None, line).Some? ==> "" in choices
  {
    if ChoiceOf(choices, None, line).Some? {
      var j := FirstTextMatch(choices, "").value;
      assert Lower(choices[j]) == "";
    }
  }

  /** A typed choice, in any case, returns the canonical spelling of the first choice it
      equals ignoring case. */
  lemma TextAnswerIsCanonical(choices: seq<string>, default: Option<string>, line: string, j: nat)
    requires j < |choices| && Strip(line) != "" && Lower(Strip(line)) == Lower(choices[j])
    requires forall i :: 0 <= i < j ==> Lower(choices[i]) != Lower(choices[j])
    ensures ChoiceOf(choices, default, line) == Some(choices[j])
  {
    var m := FirstTextMatch(choices, Strip(line));
    assert m.Some? && !(m.value < j) && !(m.value > j);
  }

  /** The number `n` in 1..len(choices), typed with surrounding whitespace or not,
      returns `choices[n - 1]` unless some choice is spelt like the number. */
  lemma NumberAnswerSelects(choices: seq<string>, default: Option<string>, n: nat, pad: string)
    requires 1 <= n <= |choices| && AllSpaces(pad)
    requires forall j :: 0 <= j < |choices| ==> Lower(choices[j]) != Lower(NatToString(n))
    ensures ChoiceOf(choices, default, NatToString(n) + pad) == Some(choices[n - 1])
  {
    var s := NatToString(n);
    assert !IsSpace(s[0]) && !IsSpace(s[|s| - 1]) by {
      assert IsDigit(s[0]) && IsDigit(s[|s| - 1]);
    }
    StripOfPadded(s, pad);
    ParseNatToString(n);
  }

  /** A number outside 1..len(choices) that is not itself a choice prompts again. */
  lemma NumberOutOfRangeRejected(choices: seq<string>, default: Option<string>, n: nat)
    requires n == 0 || n > |choices|
    requires forall j :: 0 <= j < |choices| ==> Lower(choices[j]) != Lower(NatToString(n))
    ensures ChoiceOf(choices, default, NatToString(n)).None?
  {
    var s := NatToString(n);
    assert !IsSpace(s[0]) && !IsSpace(s[|s| - 1]) by {
      assert IsDigit(s[0]) && IsDigit(s[|s| - 1]);
    }
    assert s + "" == s;
    StripOfPadded(s, "");
    ParseNatToString(n);
  }

  /** `prompt_string`: the stripped answer, the default for an empty answer, ValueError
      for an empty answer without a default, EOFError when there is no input. */
  function PromptString(default: Option<string>, line: Option<string>): (r: Result<string, BuildError>)
    ensures line.None? ==> r == Err(EOFError)
    ensures line.Some? ==> (r == Err(ValueError) <==> Strip(line.value) == "" && default.None?)
    ensures line.Some? && Strip(line.value) == "" && default.Some? ==> r == Ok(default.value)
    ensures line.Some? && Strip(line.value) != "" ==> r == Ok(Strip(line.value)) && Stripped(r.value)
  {
    match line
    case None => Err(EOFError)
    case Some(text) =>
      var raw := Strip(text);
      if raw == "" && default.Some? then Ok(default.value)
      else if raw == "" then Err(ValueError)
      else
        StripIsStripped(text);
        Ok(raw)
  }
}
