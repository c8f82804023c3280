/**
 * The three ways the build and publish scripts turn a Windows path into a path inside
 * WSL, where the Linux installers are built.
 */
module WslPaths {
  import opened Results
  import opened Text

  /** `to_wsl_path` of the installer build: backslashes become slashes, and a leading
      `C:` or `c:` becomes `/mnt/c`. */
  function ToWslPath(path: string): (r: string)
    ensures '\\' !in r
    ensures !("C:" <= path || "c:" <= path) ==>
      |r| == |path| && forall i :: 0 <= i < |path| ==> r[i] == (if path[i] == '\\' then '/' else path[i])
    ensures ("C:" <= path || "c:" <= path) ==>
      "/mnt/c" <= r && |r| == |path| + 4 &&
      forall i :: 2 <= i < |path| ==> r[i + 4] == (if path[i] == '\\' then '/' else path[i])
  {
    var p := ReplaceChar(path, '\\', '/');
    if "C:" <= p || "c:" <= p then "/mnt/c" + p[2..] else p
  }

  /** Rewriting a rewritten path changes nothing more. */
  lemma ToWslPathIdempotent(path: string)
    ensures ToWslPath(ToWslPath(path)) == ToWslPath(path)
  {
    var r := ToWslPath(path);
    assert ReplaceChar(r, '\\', '/') == r;
  }

  /** The rewrite of an absolute path by `create_linux_executable` in both build scripts:
      the first character lowercased, every `:` removed, backslashes turned into slashes,
      and `/mnt/` put in front. Relative paths are left alone. The first character of an
      empty path raises IndexError. */
  function MntPath(path: string, isAbs: bool): (r: Result<string, string>)
    ensures r.Err? <==> isAbs && |path| == 0
    ensures !isAbs ==> r == Ok(path)
    ensures isAbs && r.Ok? ==> "/mnt/" <= r.value && ':' !in r.value && '\\' !in r.value
    ensures isAbs && |path| > 0 ==>
      (r.Ok? && r.value[5..] == MountPart([LowerChar(path[0])]) + MountPart(path[1..]))
    ensures isAbs && |path| > 0 && path[0] != ':' && path[0] != '\\' ==>
      (r.value[5] == LowerChar(path[0]) && r.value[6..] == MountPart(path[1..]))
  {
    if !isAbs then Ok(path)
    else if |path| == 0 then Err("IndexError")
    else
      var lowered := [LowerChar(path[0])] + path[1..];
      MountPartAppend([LowerChar(path[0])], path[1..]);
      if path[0] != ':' && path[0] != '\\' then
        assert MountPart([LowerChar(path[0])]) == [LowerChar(path[0])] by {
          assert [LowerChar(path[0])][1..] == [];
        }
        Ok("/mnt/" + MountPart(lowered))
      else Ok("/mnt/" + MountPart(lowered))
  }

  /** A piece of a path as it appears under `/mnt/`: every `:` dropped and every
      backslash turned into a slash, the other characters kept in order. */
  function MountPart(s: string): (r: string)
    ensures ':' !in r && '\\' !in r
    ensures |r| <= |s|
    ensures ':' !in s ==> |r| == |s| && forall i :: 0 <= i < |s| ==> r[i] == (if s[i] == '\\' then '/' else s[i])
  {
    if ':' !in s then RemoveAbsent(s, ':'); ReplaceChar(RemoveChar(s, ':'), '\\', '/')
    else ReplaceChar(RemoveChar(s, ':'), '\\', '/')
  }

  /** Pieces are rewritten independently of one another. */
  lemma MountPartAppend(a: string, b: string)
    ensures MountPart(a + b) == MountPart(a) + MountPart(b)
  {
    RemoveAppend(a, b, ':');
    ReplaceCharAppend(RemoveChar(a, ':'), RemoveChar(b, ':'));
  }

  /** `convert_to_wsl_path` of the Launchpad publisher: every `C:` and then every `c:`
      becomes `/mnt/c`, backslashes become slashes, and a `/` is put in front if missing. */
  function ConvertToWslPath(path: string): (r: string)
    ensures |r| > 0 && r[0] == '/'
    ensures '\\' !in r
    ensures ':' !in path ==> r == Rooted(ReplaceChar(path, '\\', '/'))
  {
    var p := ReplaceChar(ReplaceAll(ReplaceAll(path, "C:", "/mnt/c"), "c:", "/mnt/c"), '\\', '/');
    if ':' !in path then
      ReplaceAllWithoutChar(path, "C:", "/mnt/c", ':');
      ReplaceAllWithoutChar(path, "c:", "/mnt/c", ':');
      Rooted(p)
    else Rooted(p)
  }

  /** A path with a `/` put in front unless it already starts with one. */
  function Rooted(p: string): (r: string)
    ensures |r| > 0 && r[0] == '/'
    ensures |r| == |p| <==> |p| > 0 && p[0] == '/'
    ensures |r| == |p| || |r| == |p| + 1
    ensures r[|r| - |p|..] == p
  {
    if |p| > 0 && p[0] == '/' then p else "/" + p
  }

  lemma ReplaceCharAppend(a: string, b: string)
    ensures ReplaceChar(a + b, '\\', '/') == ReplaceChar(a, '\\', '/') + ReplaceChar(b, '\\', '/')
  {
    var whole, front, back := ReplaceChar(a + b, '\\', '/'), ReplaceChar(a, '\\', '/'), ReplaceChar(b, '\\', '/');
    forall i | 0 <= i < |a + b|
      ensures whole[i] == (front + back)[i]
    {
      if i < |a| {
        assert (a + b)[i] == a[i];
      } else {
        assert (a + b)[i] == b[i - |a|];
      }
    }
  }

  /** For a path on drive C with no further colon, the three rewrites agree. */
  lemma RewritesAgreeOnDriveC(drive: char, rest: string)
    requires drive == 'C' || drive == 'c'
    requires ':' !in rest
    ensures ToWslPath([drive, ':'] + rest) == "/mnt/c" + ReplaceChar(rest, '\\', '/')
    ensures MntPath([drive, ':'] + rest, true) == Ok(ToWslPath([drive, ':'] + rest))
    ensures ConvertToWslPath([drive, ':'] + rest) == ToWslPath([drive, ':'] + rest)
  {
    ToWslOnDriveC(drive, rest);
    MntOnDriveC(drive, rest);
    ConvertOnDriveC(drive, rest);
  }

  lemma ToWslOnDriveC(drive: char, rest: string)
    requires drive == 'C' || drive == 'c'
    ensures ToWslPath([drive, ':'] + rest) == "/mnt/c" + ReplaceChar(rest, '\\', '/')
  {
    var tail := ReplaceChar(rest, '\\', '/');
    ReplaceCharAppend([drive, ':'], rest);
    assert ReplaceChar([drive, ':'], '\\', '/') == [drive, ':'];
    assert ([drive, ':'] + tail)[2..] == tail;
  }

  lemma MntOnDriveC(drive: char, rest: string)
    requires drive == 'C' || drive == 'c'
    requires ':' !in rest
    ensures MntPath([drive, ':'] + rest, true) == Ok("/mnt/c" + ReplaceChar(rest, '\\', '/'))
  {
    var path := [drive, ':'] + rest;
    var tail := ReplaceChar(rest, '\\', '/');
    var lowered := [LowerChar(path[0])] + path[1..];
    LoweredDriveC(drive, rest);
    assert MntPath(path, true) == Ok("/mnt/" + ("c" + tail));
    MountC(tail);
  }

  lemma MountC(tail: string)
    ensures "/mnt/" + ("c" + tail) == "/mnt/c" + tail
  {
    Associative("/mnt/", "c", tail);
    assert "/mnt/" + "c" == "/mnt/c";
  }

  lemma LoweredDriveC(drive: char, rest: string)
    requires drive == 'C' || drive == 'c'
    requires ':' !in rest
    ensures var path := [drive, ':'] + rest;
      MountPart([LowerChar(path[0])] + path[1..]) == "c" + ReplaceChar(rest, '\\', '/')
  {
    var path := [drive, ':'] + rest;
    var lowered := [LowerChar(path[0])] + path[1..];
    assert lowered == "c" + (":" + rest);
    MountPartAppend("c", ":" + rest);
    ColonThenRest(rest);
    assert MountPart("c") == "c" by {
      RemoveAbsent("c", ':');
      ReplaceCharAbsent("c", '\\', '/');
    }
  }

  lemma ColonThenRest(rest: string)
    requires ':' !in rest
    ensures MountPart(":" + rest) == ReplaceChar(rest, '\\', '/')
  {
    MountPartAppend(":", rest);
    assert RemoveChar(":", ':') == "" by { assert ":"[1..] == ""; }
  }

  lemma DriveColonRemoved(rest: string)
    requires ':' !in rest
    ensures RemoveChar("c:" + rest, ':') == "c" + rest
  {
    RemoveAppend("c:", rest, ':');
    assert RemoveChar("c:", ':') == "c";
    RemoveAbsent(rest, ':');
  }

  lemma ConvertOnDriveC(drive: char, rest: string)
    requires drive == 'C' || drive == 'c'
    requires ':' !in rest
    ensures ConvertToWslPath([drive, ':'] + rest) == "/mnt/c" + ReplaceChar(rest, '\\', '/')
  {
    var path := [drive, ':'] + rest;
    var second := ReplaceAll(ReplaceAll(path, "C:", "/mnt/c"), "c:", "/mnt/c");
    DriveReplaced(drive, rest);
    var p := ReplaceChar(second, '\\', '/');
    assert p == "/mnt/c" + ReplaceChar(rest, '\\', '/') by {
      ReplaceCharAppend("/mnt/c", rest);
      MountPrefixPlain();
      ReplaceCharAbsent("/mnt/c", '\\', '/');
    }
    assert p[0] == '/';
  }

  lemma MountPrefixPlain()
    ensures '\\' !in "/mnt/c"
  {
    var m := "/mnt/c";
    assert m[0] != '\\' && m[1] != '\\' && m[2] != '\\' && m[3] != '\\' && m[4] != '\\' && m[5] != '\\';
  }

  /** Both drive spellings become `/mnt/c`, and nothing after them changes. */
  lemma DriveReplaced(drive: char, rest: string)
    requires drive == 'C' || drive == 'c'
    requires ':' !in rest
    ensures ReplaceAll(ReplaceAll([drive, ':'] + rest, "C:", "/mnt/c"), "c:", "/mnt/c") == "/mnt/c" + rest
  {
    if drive == 'C' {
      assert [drive, ':'] == "C:";
      UpperDriveReplaced(rest);
    } else {
      assert [drive, ':'] == "c:";
      LowerDriveKept(rest);
      ReplaceAllAtFront("c:", rest, "/mnt/c", ':');
    }
  }

  lemma UpperDriveReplaced(rest: string)
    requires ':' !in rest
    ensures ReplaceAll(ReplaceAll("C:" + rest, "C:", "/mnt/c"), "c:", "/mnt/c") == "/mnt/c" + rest
  {
    ReplaceAllAtFront("C:", rest, "/mnt/c", ':');
    assert ':' !in "/mnt/c" + rest;
    ReplaceAllWithoutChar("/mnt/c" + rest, "c:", "/mnt/c", ':');
  }

  lemma ReplaceAllAtFront(pat: string, rest: string, rep: string, c: char)
    requires |pat| > 0 && c in pat && c !in rest
    ensures ReplaceAll(pat + rest, pat, rep) == rep + rest
  {
    assert pat <= pat + rest;
    assert (pat + rest)[|pat|..] == rest;
    ReplaceAllWithoutChar(rest, pat, rep, c);
  }

  /** Replacing `C:` leaves a lowercase drive alone. */
  lemma LowerDriveKept(rest: string)
    requires ':' !in rest
    ensures ReplaceAll("c:" + rest, "C:", "/mnt/c") == "c:" + rest
  {
    var s := "c:" + rest;
    var t := ":" + rest;
    assert s[1..] == t && t[1..] == rest;
    ReplaceAllWithoutChar(rest, "C:", "/mnt/c", ':');
    assert ReplaceAll(t, "C:", "/mnt/c") == t by {
      if |t| >= 2 {
        assert !("C:" <= t) by { assert t[0] == ':'; }
        assert ReplaceAll(t, "C:", "/mnt/c") == [t[0]] + ReplaceAll(t[1..], "C:", "/mnt/c");
      }
    }
    assert !("C:" <= s) by { assert s[0] == 'c'; }
    assert ReplaceAll(s, "C:", "/mnt/c") == [s[0]] + ReplaceAll(t, "C:", "/mnt/c");
  }

  /** A `C:` or `c:` anywhere in a path with no other colon becomes `/mnt/c`, every
      backslash becomes a slash and nothing else changes, apart from the `/` put in
      front. */
  lemma ConvertDriveAnywhere(a: string, drive: char, b: string)
    requires drive == 'C' || drive == 'c'
    requires ':' !in a && ':' !in b
    ensures ConvertToWslPath(a + [drive, ':'] + b)
      == Rooted(ReplaceChar(a, '\\', '/') + "/mnt/c" + ReplaceChar(b, '\\', '/'))
  {
    var rep := "/mnt/c";
    assert ':' !in rep by { assert rep[0] != ':' && rep[1] != ':' && rep[2] != ':' && rep[3] != ':' && rep[4] != ':' && rep[5] != ':'; }
    var path := a + [drive, ':'] + b;
    if drive == 'C' {
      assert [drive, ':'] == "C:";
      ReplaceAllAround(a, b, "C:", rep);
      ReplaceAllWithoutChar(b, "C:", rep, ':');
      assert ':' !in a + rep + b;
      ReplaceAllWithoutChar(a + rep + b, "c:", rep, ':');
    } else {
      assert [drive, ':'] == "c:";
      UpperDriveAbsent(a, b);
      ReplaceAllAround(a, b, "c:", rep);
      ReplaceAllWithoutChar(b, "c:", rep, ':');
    }
    assert ReplaceAll(ReplaceAll(path, "C:", rep), "c:", rep) == a + rep + b;
    ReplaceCharAppend(a + rep, b);
    ReplaceCharAppend(a, rep);
    MountPrefixPlain();
    ReplaceCharAbsent(rep, '\\', '/');
  }

  /** A two-character pattern whose second character occurs nowhere before it is
      matched there first, and the text before it is kept. */
  lemma {:induction false} ReplaceAllAround(a: string, b: string, pat: string, rep: string)
    requires |pat| == 2 && pat[1] !in a && pat[0] != pat[1]
    ensures ReplaceAll(a + pat + b, pat, rep) == a + rep + ReplaceAll(b, pat, rep)
    decreases |a|
  {
    var s := a + pat + b;
    if |a| == 0 {
      assert s == pat + b;
      assert pat <= s;
      assert s[|pat|..] == b;
    } else {
      assert !(pat <= s) by {
        if |a| == 1 { assert s[1] == pat[0]; } else { assert s[1] == a[1]; }
      }
      assert s[1..] == a[1..] + pat + b;
      ReplaceAllAround(a[1..], b, pat, rep);
      assert a == [a[0]] + a[1..];
    }
  }

  /** A path whose only colon follows a lowercase `c` has no `C:` to replace. */
  lemma {:induction false} UpperDriveAbsent(a: string, b: string)
    requires ':' !in a && ':' !in b
    ensures ReplaceAll(a + "c:" + b, "C:", "/mnt/c") == a + "c:" + b
    decreases |a|
  {
    if |a| == 0 {
      assert a + "c:" + b == "c:" + b;
      LowerDriveKept(b);
    } else {
      var s := a + "c:" + b;
      assert !("C:" <= s) by {
        if |a| == 1 { assert s[1] == 'c'; } else { assert s[1] == a[1]; }
      }
      assert s[1..] == a[1..] + "c:" + b;
      UpperDriveAbsent(a[1..], b);
      assert s == [a[0]] + s[1..];
    }
  }

  /** On any other drive the three rewrites disagree: `to_wsl_path` leaves the drive in
      place, so the result is not a WSL path, `create_linux_executable` moves it under
      `/mnt/` in lower case, and `convert_to_wsl_path` puts a `/` in front of it. */
  lemma RewritesDisagreeOffDriveC(drive: char, rest: string)
    requires ('A' <= drive <= 'Z' || 'a' <= drive <= 'z') && drive != 'C' && drive != 'c'
    requires ':' !in rest
    ensures ToWslPath([drive, ':'] + rest) == [drive, ':'] + ReplaceChar(rest, '\\', '/')
    ensures MntPath([drive, ':'] + rest, true) == Ok("/mnt/" + [LowerChar(drive)] + ReplaceChar(rest, '\\', '/'))
    ensures ConvertToWslPath([drive, ':'] + rest) == "/" + [drive, ':'] + ReplaceChar(rest, '\\', '/')
    ensures Ok(ToWslPath([drive, ':'] + rest)) != MntPath([drive, ':'] + rest, true)
  {
    ToWslOffDriveC(drive, rest);
    MntOffDriveC(drive, rest);
    ConvertDriveFree(drive, rest);
    assert ToWslPath([drive, ':'] + rest)[0] == drive;
  }

  lemma ToWslOffDriveC(drive: char, rest: string)
    requires drive != 'C' && drive != 'c' && drive != '\\'
    ensures ToWslPath([drive, ':'] + rest) == [drive, ':'] + ReplaceChar(rest, '\\', '/')
  {
    ReplaceCharAppend([drive, ':'], rest);
    assert ReplaceChar([drive, ':'], '\\', '/') == [drive, ':'];
  }

  lemma MntOffDriveC(drive: char, rest: string)
    requires drive != ':' && drive != '\\' && LowerChar(drive) != ':' && LowerChar(drive) != '\\'
    requires ':' !in rest
    ensures MntPath([drive, ':'] + rest, true) == Ok("/mnt/" + [LowerChar(drive)] + ReplaceChar(rest, '\\', '/'))
  {
    var path := [drive, ':'] + rest;
    var tail := ReplaceChar(rest, '\\', '/');
    var l := [LowerChar(drive)];
    var lowered := [LowerChar(path[0])] + path[1..];
    assert lowered == l + (":" + rest);
    MountPartAppend(l, ":" + rest);
    ColonThenRest(rest);
    assert MountPart(l) == l by {
      RemoveAbsent(l, ':');
      ReplaceCharAbsent(l, '\\', '/');
    }
    assert MntPath(path, true) == Ok("/mnt/" + (l + tail));
    Associative("/mnt/", l, tail);
  }

  /** A drive other than C is not replaced by `convert_to_wsl_path`. */
  lemma ConvertDriveFree(drive: char, rest: string)
    requires drive != 'C' && drive != 'c' && drive != '/' && drive != '\\'
    requires ':' !in rest
    ensures ConvertToWslPath([drive, ':'] + rest) == "/" + [drive, ':'] + ReplaceChar(rest, '\\', '/')
  {
    var path := [drive, ':'] + rest;
    KeptDrive(drive, rest, "C:");
    KeptDrive(drive, rest, "c:");
    ReplaceCharAppend([drive, ':'], rest);
    assert ReplaceChar([drive, ':'], '\\', '/') == [drive, ':'];
  }

  /** With its only colon after a letter other than `pat[0]`, the path has no
      occurrence of `pat`. */
  lemma KeptDrive(drive: char, rest: string, pat: string)
    requires |pat| == 2 && pat[1] == ':' && drive != pat[0]
    requires ':' !in rest
    ensures ReplaceAll([drive, ':'] + rest, pat, "/mnt/c") == [drive, ':'] + rest
  {
    var s := [drive, ':'] + rest;
    var t := ":" + rest;
    assert s[1..] == t && t[1..] == rest;
    ReplaceAllWithoutChar(rest, pat, "/mnt/c", ':');
    assert ReplaceAll(t, pat, "/mnt/c") == t by {
      if |t| >= 2 {
        assert !(pat <= t) by { assert t[0] == ':'; }
      }
    }
    assert !(pat <= s) by { assert s[0] == drive; }
  }

  lemma RemoveAppend(a: string, b: string, c: char)
    ensures RemoveChar(a + b, c) == RemoveChar(a, c) + RemoveChar(b, c)
  {
    if |a| > 0 {
      assert (a + b)[1..] == a[1..] + b;
      RemoveAppend(a[1..], b, c);
    } else {
      assert a + b == b;
    }
  }

  lemma RemoveAbsent(s: string, c: char)
    requires c !in s
    ensures RemoveChar(s, c) == s
  {
    if |s| > 0 {
      RemoveAbsent(s[1..], c);
    }
  }
}
