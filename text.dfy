/**
 * Python `str` operations the installer scripts rely on, restricted to ASCII:
 * `strip`, `lower`, `upper`, `split(sep)`, `split()`, `in`, `startswith`,
 * `replace`, `re.sub(..., count=1)` on a literal, `str(int)`, `int(str)` and `<`.
 */
module Text {
  import opened Results

  /** `str.isspace` on ASCII: tab, line feed, vertical tab, form feed, carriage return,
      the separators 0x1C-0x1F and space. */
  predicate IsSpace(c: char) {
    (9 <= c as int <= 13) || (28 <= c as int <= 32)
  }

  predicate IsDigit(c: char) {
    '0' <= c <= '9'
  }

  predicate AllDigits(s: string) {
    |s| > 0 && forall i :: 0 <= i < |s| ==> IsDigit(s[i])
  }

  predicate AllSpaces(s: string) {
    forall i :: 0 <= i < |s| ==> IsSpace(s[i])
  }

  /** `str.lstrip()` */
  function TrimStart(s: string): string {
    if |s| > 0 && IsSpace(s[0]) then TrimStart(s[1..]) else s
  }

  /** `lstrip` removes a run of whitespace from the front and stops at the first other
      character. */
  lemma {:induction false} TrimStartFacts(s: string)
    ensures var r := TrimStart(s);
      && |r| <= |s| && r == s[|s| - |r|..]
      && (|r| == 0 || !IsSpace(r[0]))
      && AllSpaces(s[..|s| - |r|])
    decreases |s|
  {
    if |s| > 0 && IsSpace(s[0]) {
      TrimStartFacts(s[1..]);
      var r := TrimStart(s[1..]);
      assert s[..|s| - |r|] == [s[0]] + s[1..][..|s| - 1 - |r|];
    }
  }

  /** `str.rstrip()` */
  function TrimEnd(s: string): string {
    if |s| > 0 && IsSpace(s[|s| - 1]) then TrimEnd(s[..|s| - 1]) else s
  }

  /** `rstrip` removes a run of whitespace from the back and stops at the last other
      character. */
  lemma {:induction false} TrimEndFacts(s: string)
    ensures var r := TrimEnd(s);
      && |r| <= |s| && r == s[..|r|]
      && (|r| == 0 || !IsSpace(r[|r| - 1]))
      && AllSpaces(s[|r|..])
    decreases |s|
  {
    if |s| > 0 && IsSpace(s[|s| - 1]) {
      TrimEndFacts(s[..|s| - 1]);
      var r := TrimEnd(s[..|s| - 1]);
      assert s[|r|..] == s[..|s| - 1][|r|..] + [s[|s| - 1]];
    }
  }

  /** `str.strip()` */
  function Strip(s: string): string {
    TrimEnd(TrimStart(s))
  }

  /** A string that `str.strip()` leaves unchanged. */
  predicate Stripped(s: string) {
    |s| == 0 || (!IsSpace(s[0]) && !IsSpace(s[|s| - 1]))
  }

  lemma {:induction false} TrimEndOfPadded(v: string, w: string)
    requires |v| == 0 || !IsSpace(v[|v| - 1])
    requires AllSpaces(w)
    ensures TrimEnd(v + w) == v
    decreases |w|
  {
    if |w| == 0 {
      assert v + w == v;
      if |v| > 0 {
        assert (v + w)[|v + w| - 1] == v[|v| - 1];
      }
    } else {
      var w' := w[..|w| - 1];
      assert (v + w)[|v + w| - 1] == w[|w| - 1];
      assert (v + w)[..|v + w| - 1] == v + w';
      TrimEndOfPadded(v, w');
    }
  }

  /** Trailing whitespace (for instance the line break of a line read from a file)
      disappears under `strip()`, and a stripped text is kept as it is. */
  lemma StripOfPadded(v: string, w: string)
    requires Stripped(v)
    requires AllSpaces(w)
    ensures Strip(v + w) == v
  {
    if |v| > 0 {
      assert (v + w)[0] == v[0];
      assert TrimStart(v + w) == v + w;
    } else {
      assert v + w == w;
      TrimStartFacts(w);
      assert TrimStart(w) == "";
    }
    TrimEndOfPadded(v, w);
  }

  lemma StripIsStripped(s: string)
    ensures Stripped(Strip(s))
  {
    var t := TrimStart(s);
    var r := TrimEnd(t);
    TrimStartFacts(s);
    TrimEndFacts(t);
    if |r| > 0 {
      assert r[0] == t[0];
    }
  }

  function LowerChar(c: char): char {
    if 'A' <= c <= 'Z' then (c as int + 32) as char else c
  }

  function UpperChar(c: char): char {
    if 'a' <= c <= 'z' then (c as int - 32) as char else c
  }

  /** `str.lower()` (ASCII letters only) */
  function Lower(s: string): (r: string)
    ensures |r| == |s| && forall i :: 0 <= i < |s| ==> r[i] == LowerChar(s[i])
  {
    if |s| == 0 then "" else [LowerChar(s[0])] + Lower(s[1..])
  }

  /** `str.upper()` (ASCII letters only) */
  function Upper(s: string): (r: string)
    ensures |r| == |s| && forall i :: 0 <= i < |s| ==> r[i] == UpperChar(s[i])
  {
    if |s| == 0 then "" else [UpperChar(s[0])] + Upper(s[1..])
  }

  lemma LowerIdempotent(s: string)
    ensures Lower(Lower(s)) == Lower(s)
  {
  }

  /** `sub in s` */
  predicate Contains(s: string, sub: string) {
    sub <= s || (|s| > 0 && Contains(s[1..], sub))
  }

  lemma {:induction false} ContainsAppend(s: string, t: string, sub: string)
    requires Contains(s, sub)
    ensures Contains(s + t, sub)
  {
    if sub <= s {
      assert sub <= s + t by {
        assert (s + t)[..|sub|] == s[..|sub|];
      }
    } else {
      assert (s + t)[1..] == s[1..] + t;
      ContainsAppend(s[1..], t, sub);
    }
  }

  lemma {:induction false} ContainsSuffix(s: string, t: string, sub: string)
    requires Contains(t, sub)
    ensures Contains(s + t, sub)
    decreases |s|
  {
    if |s| == 0 {
      assert s + t == t;
    } else {
      assert (s + t)[1..] == s[1..] + t;
      ContainsSuffix(s[1..], t, sub);
    }
  }

  /** Joins `parts` with `sep` between consecutive parts: `sep.join(parts)`. */
  function Join(parts: seq<string>, sep: char): string
    requires |parts| >= 1
  {
    if |parts| == 1 then parts[0] else parts[0] + [sep] + Join(parts[1..], sep)
  }

  /** `s.split(sep)` for a one-character separator: never empty, no part holds the
      separator, and joining the parts with the separator gives back `s`. */
  function Split(s: string, sep: char): (parts: seq<string>)
    ensures |parts| >= 1
    ensures forall k :: 0 <= k < |parts| ==> sep !in parts[k]
    ensures Join(parts, sep) == s
  {
    if |s| == 0 then [""]
    else
      var rest := Split(s[1..], sep);
      if s[0] == sep then
        assert Join([""] + rest, sep) == [sep] + Join(rest, sep) by {
          assert ([""] + rest)[1..] == rest;
        }
        assert s == [s[0]] + s[1..];
        [""] + rest
      else
        var head := [s[0]] + rest[0];
        assert Join([head] + rest[1..], sep) == [s[0]] + Join(rest, sep) by {
          assert ([head] + rest[1..])[1..] == rest[1..];
          if |rest| > 1 {
            assert rest == [rest[0]] + rest[1..];
          }
        }
        assert s == [s[0]] + s[1..];
        [head] + rest[1..]
  }

  lemma SplitWithoutSeparator(s: string, sep: char)
    requires sep !in s
    ensures Split(s, sep) == [s]
  {
    if |s| > 0 {
      SplitWithoutSeparator(s[1..], sep);
    }
  }

  /** Appending `sep + t` to a text adds exactly the part `t`. */
  lemma {:induction false} SplitSnoc(s: string, sep: char, t: string)
    requires sep !in t
    ensures Split(s + [sep] + t, sep) == Split(s, sep) + [t]
    decreases |s|
  {
    if |s| == 0 {
      assert s + [sep] + t == [sep] + t;
      assert ([sep] + t)[1..] == t;
      SplitWithoutSeparator(t, sep);
    } else {
      assert (s + [sep] + t)[1..] == s[1..] + [sep] + t;
      assert (s + [sep] + t)[0] == s[0];
      SplitSnoc(s[1..], sep, t);
    }
  }

  /** Prepending `a + sep` to a text adds exactly the part `a`. */
  lemma {:induction false} SplitCons(a: string, sep: char, t: string)
    requires sep !in a
    ensures Split(a + [sep] + t, sep) == [a] + Split(t, sep)
    decreases |a|
  {
    if |a| == 0 {
      assert a + [sep] + t == [sep] + t;
      assert ([sep] + t)[1..] == t;
    } else {
      assert (a + [sep] + t)[1..] == a[1..] + [sep] + t;
      assert (a + [sep] + t)[0] == a[0];
      SplitCons(a[1..], sep, t);
      assert a == [a[0]] + a[1..];
    }
  }

  /** Splitting parts joined by a separator none of them holds gives the parts back. */
  lemma {:induction false} SplitJoin(parts: seq<string>, sep: char)
    requires |parts| >= 1
    requires forall k :: 0 <= k < |parts| ==> sep !in parts[k]
    ensures Split(Join(parts, sep), sep) == parts
    decreases |parts|
  {
    if |parts| == 1 {
      SplitWithoutSeparator(parts[0], sep);
    } else {
      SplitJoin(parts[1..], sep);
      SplitCons(parts[0], sep, Join(parts[1..], sep));
      assert parts == [parts[0]] + parts[1..];
    }
  }

  /** Index of the first whitespace character of `s`, or `|s|`. */
  function WordEnd(s: string): (n: nat)
    ensures n <= |s|
    ensures forall i :: 0 <= i < n ==> !IsSpace(s[i])
    ensures n < |s| ==> IsSpace(s[n])
  {
    if |s| == 0 || IsSpace(s[0]) then 0 else 1 + WordEnd(s[1..])
  }

  /** A non-empty run of non-whitespace characters. */
  predicate IsWord(w: string) {
    |w| > 0 && forall i :: 0 <= i < |w| ==> !IsSpace(w[i])
  }

  /** `s.split()`: the maximal runs of non-whitespace characters, in order. */
  function Tokens(s: string): (toks: seq<string>)
    ensures forall k :: 0 <= k < |toks| ==> IsWord(toks[k])
    decreases |s|
  {
    TrimStartFacts(s);
    var t := TrimStart(s);
    if |t| == 0 then []
    else
      var n := WordEnd(t);
      var word := t[..n];
      assert IsWord(word);
      var rest := Tokens(t[n..]);
      [word] + rest
  }

  /** `lstrip` of a run of whitespace followed by a text that starts with a
      non-whitespace character (or is empty) leaves exactly that text. */
  lemma {:induction false} TrimStartOfSpaces(sp: string, t: string)
    requires AllSpaces(sp) && (|t| == 0 || !IsSpace(t[0]))
    ensures TrimStart(sp + t) == t
    decreases |sp|
  {
    if |sp| == 0 {
      assert sp + t == t;
    } else {
      assert (sp + t)[1..] == sp[1..] + t;
      TrimStartOfSpaces(sp[1..], t);
    }
  }

  /** A text made only of whitespace has no token. */
  lemma TokensOfSpaces(sp: string)
    requires AllSpaces(sp)
    ensures Tokens(sp) == []
  {
    TrimStartOfSpaces(sp, "");
    assert sp + "" == sp;
  }

  /** The first token is the whole first run of non-whitespace characters: after
      leading whitespace, a word that ends the text or is followed by whitespace is the
      first token, and the rest is split on its own. With `TokensOfSpaces` this fixes
      `Tokens` on every text: the maximal runs, in order. */
  lemma TokensCons(sp: string, w: string, rest: string)
    requires AllSpaces(sp) && IsWord(w)
    requires |rest| == 0 || IsSpace(rest[0])
    ensures Tokens(sp + w + rest) == [w] + Tokens(rest)
  {
    var t := w + rest;
    assert sp + w + rest == sp + t;
    TrimStartOfSpaces(sp, t);
    var n := WordEnd(t);
    assert forall i :: 0 <= i < |w| ==> t[i] == w[i];
    assert |rest| > 0 ==> t[|w|] == rest[0];
    assert n == |w|;
    assert t[..n] == w && t[n..] == rest;
  }

  /** The characters of `s` that are not whitespace, in order. */
  function NonSpace(s: string): (r: string)
    ensures |r| <= |s|
    ensures forall i :: 0 <= i < |r| ==> !IsSpace(r[i])
  {
    if |s| == 0 then "" else (if IsSpace(s[0]) then "" else [s[0]]) + NonSpace(s[1..])
  }

  lemma {:induction false} NonSpaceAppend(a: string, b: string)
    ensures NonSpace(a + b) == NonSpace(a) + NonSpace(b)
    decreases |a|
  {
    if |a| == 0 {
      assert a + b == b;
    } else {
      assert (a + b)[1..] == a[1..] + b;
      NonSpaceAppend(a[1..], b);
    }
  }

  lemma {:induction false} NonSpaceOfSpaces(sp: string)
    requires AllSpaces(sp)
    ensures NonSpace(sp) == ""
    decreases |sp|
  {
    if |sp| > 0 {
      NonSpaceOfSpaces(sp[1..]);
    }
  }

  lemma {:induction false} NonSpaceOfWord(w: string)
    requires forall i :: 0 <= i < |w| ==> !IsSpace(w[i])
    ensures NonSpace(w) == w
    decreases |w|
  {
    if |w| > 0 {
      NonSpaceOfWord(w[1..]);
    }
  }

  /** The words of `ws` written one after the other. */
  function Concat(ws: seq<string>): string {
    if |ws| == 0 then "" else ws[0] + Concat(ws[1..])
  }

  /** The tokens, written one after the other, are the text without its whitespace:
      `s.split()` loses nothing but whitespace and keeps the order. */
  lemma {:induction false} TokensFlatten(s: string)
    ensures Concat(Tokens(s)) == NonSpace(s)
    decreases |s|
  {
    TrimStartFacts(s);
    var t := TrimStart(s);
    var k := |s| - |t|;
    assert s == s[..k] + t;
    NonSpaceAppend(s[..k], t);
    NonSpaceOfSpaces(s[..k]);
    if |t| > 0 {
      var n := WordEnd(t);
      assert t == t[..n] + t[n..];
      NonSpaceAppend(t[..n], t[n..]);
      NonSpaceOfWord(t[..n]);
      TokensFlatten(t[n..]);
      assert Tokens(s)[1..] == Tokens(t[n..]);
    }
  }

  /** `s.replace(pat, rep)`: occurrences are replaced left to right without overlap. */
  function ReplaceAll(s: string, pat: string, rep: string): string
    requires |pat| > 0
  {
    if |s| < |pat| then s
    else if pat <= s then rep + ReplaceAll(s[|pat|..], pat, rep)
    else [s[0]] + ReplaceAll(s[1..], pat, rep)
  }

  /** A text lacking a character of the pattern has no occurrence to replace. */
  lemma {:induction false} ReplaceAllWithoutChar(s: string, pat: string, rep: string, c: char)
    requires |pat| > 0 && c in pat && c !in s
    ensures ReplaceAll(s, pat, rep) == s
    decreases |s|
  {
    if |s| >= |pat| {
      ReplaceAllWithoutChar(s[1..], pat, rep, c);
      assert s == [s[0]] + s[1..];
    }
  }

  /** `s.replace(a, b)` for single characters. */
  function ReplaceChar(s: string, a: char, b: char): (r: string)
    ensures |r| == |s|
    ensures forall i :: 0 <= i < |s| ==> r[i] == (if s[i] == a then b else s[i])
  {
    if |s| == 0 then "" else [if s[0] == a then b else s[0]] + ReplaceChar(s[1..], a, b)
  }

  /** Replacing a pattern the text does not contain changes nothing. */
  lemma {:induction false} ReplaceAllAbsent(s: string, pat: string, rep: string)
    requires |pat| > 0 && !Contains(s, pat)
    ensures ReplaceAll(s, pat, rep) == s
    decreases |s|
  {
    if |s| >= |pat| {
      ReplaceAllAbsent(s[1..], pat, rep);
      assert s == [s[0]] + s[1..];
    }
  }

  lemma ReplaceCharAbsent(s: string, a: char, b: char)
    requires a !in s
    ensures ReplaceChar(s, a, b) == s
  {
    assert forall i :: 0 <= i < |s| ==> ReplaceChar(s, a, b)[i] == s[i];
  }

  lemma ReplaceCharIsReplaceAll(s: string, a: char, b: char)
    ensures ReplaceChar(s, a, b) == ReplaceAll(s, [a], [b])
  {
    if |s| > 0 {
      ReplaceCharIsReplaceAll(s[1..], a, b);
    }
  }

  /** `s.replace(a, "")` for a single character. */
  function RemoveChar(s: string, a: char): (r: string)
    ensures a !in r
    ensures |r| <= |s|
    ensures multiset(r) == multiset(s)[a := 0]
  {
    if |s| == 0 then "" else
      assert s == [s[0]] + s[1..];
      (if s[0] == a then "" else [s[0]]) + RemoveChar(s[1..], a)
  }

  /** Index of the first occurrence of `pat` in `s`. */
  function FindFirst(s: string, pat: string): (r: Option<nat>)
    ensures r.Some? ==> r.value + |pat| <= |s| && pat <= s[r.value..]
    ensures r.Some? ==> forall j :: 0 <= j < r.value ==> !(pat <= s[j..])
    ensures r.None? ==> forall j :: 0 <= j <= |s| ==> !(pat <= s[j..])
  {
    if pat <= s then Some(0)
    else if |s| == 0 then None
    else
      match FindFirst(s[1..], pat)
      case None =>
        assert forall j :: 1 <= j <= |s| ==> s[j..] == s[1..][j - 1..];
        None
      case Some(i) =>
        assert forall j :: 1 <= j <= |s| ==> s[j..] == s[1..][j - 1..];
        assert s[i + 1..] == s[1..][i..];
        Some(i + 1)
  }

  /** `re.sub(re.escape(pat), rep, s, count=1)`: only the first occurrence is replaced. */
  function ReplaceFirst(s: string, pat: string, rep: string): (r: string)
    ensures FindFirst(s, pat).None? ==> r == s
    ensures FindFirst(s, pat).Some? ==>
      var i := FindFirst(s, pat).value;
      && |r| == |s| - |pat| + |rep|
      && r[..i] == s[..i] && r[i..i + |rep|] == rep && r[i + |rep|..] == s[i + |pat|..]
  {
    match FindFirst(s, pat)
    case None => s
    case Some(i) => s[..i] + rep + s[i + |pat|..]
  }

  /** Decimal digit string of a natural number: `str(n)`. */
  function NatToString(n: nat): (r: string)
    ensures AllDigits(r)
    ensures |r| == 1 || r[0] != '0'
    decreases n
  {
    if n < 10 then [DigitChar(n)] else NatToString(n / 10) + [DigitChar(n % 10)]
  }

  function DigitChar(d: nat): (c: char)
    requires d < 10
    ensures IsDigit(c)
  {
    ('0' as int + d) as char
  }

  function DigitValue(c: char): (d: nat)
    requires IsDigit(c)
    ensures d < 10
  {
    c as int - '0' as int
  }

  /** Value of a string of decimal digits, read most significant digit first. */
  function DigitsValue(s: string): nat
    requires forall i :: 0 <= i < |s| ==> IsDigit(s[i])
  {
    if |s| == 0 then 0 else 10 * DigitsValue(s[..|s| - 1]) + DigitValue(s[|s| - 1])
  }

  /** `int(s)` for a non-empty ASCII digit string; other texts raise ValueError. */
  function ParseNat(s: string): Option<nat> {
    if AllDigits(s) then Some(DigitsValue(s)) else None
  }

  lemma {:induction false} ParseNatToString(n: nat)
    ensures ParseNat(NatToString(n)) == Some(n)
    decreases n
  {
    var r := NatToString(n);
    if n >= 10 {
      ParseNatToString(n / 10);
      var front := NatToString(n / 10);
      assert r == front + [DigitChar(n % 10)];
      assert r[..|r| - 1] == front;
      assert DigitsValue(r) == 10 * (n / 10) + n % 10;
    } else {
      assert DigitsValue(r) == 10 * DigitsValue(r[..0]) + DigitValue(r[0]);
    }
  }

  /** A decimal numeral holds no dot, so it is a single dot-separated field. */
  lemma NoDotInNumber(n: nat)
    ensures '.' !in NatToString(n)
  {
    var s := NatToString(n);
    forall i | 0 <= i < |s|
      ensures s[i] != '.'
    {
      assert IsDigit(s[i]);
    }
  }

  /** Concatenation regroups freely; the solver is given this fact one instance at a time. */
  lemma Associative<T>(x: seq<T>, y: seq<T>, z: seq<T>)
    ensures (x + y) + z == x + (y + z)
  {
  }

  /** Python's `a < b` on strings: code-point lexicographic order. */
  predicate LexLess(a: string, b: string) {
    if |a| == 0 then |b| > 0
    else if |b| == 0 then false
    else if a[0] != b[0] then a[0] < b[0]
    else LexLess(a[1..], b[1..])
  }

  /** `sed -i "/pat/d"` for a literal pattern: deletes every line containing `pat`
      and keeps the others in order. */
  function DropLinesContaining(lines: seq<string>, pat: string): (r: seq<string>)
    ensures |r| <= |lines|
    ensures forall i :: 0 <= i < |r| ==> !Contains(r[i], pat) && r[i] in lines
    ensures forall i :: 0 <= i < |lines| && !Contains(lines[i], pat) ==> lines[i] in r
  {
    if |lines| == 0 then []
    else (if Contains(lines[0], pat) then [] else [lines[0]]) + DropLinesContaining(lines[1..], pat)
  }

  /** The deletion works line by line: on two consecutive blocks it is the deletion on
      each, one after the other, so the kept lines stay in their order, each as often as
      it occurs. */
  lemma {:induction false} DropLinesConcat(a: seq<string>, b: seq<string>, pat: string)
    ensures DropLinesContaining(a + b, pat) == DropLinesContaining(a, pat) + DropLinesContaining(b, pat)
    decreases |a|
  {
    if |a| == 0 {
      assert a + b == b;
    } else {
      assert (a + b)[1..] == a[1..] + b;
      DropLinesConcat(a[1..], b, pat);
    }
  }

  /** A single line is kept exactly when it does not contain the pattern. */
  lemma DropOneLine(line: string, pat: string)
    ensures DropLinesContaining([line], pat) == if Contains(line, pat) then [] else [line]
  {
    assert [line][1..] == [];
  }
}
