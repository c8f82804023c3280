/**
 * The base64 encoding of section 4 of RFC 4648, which carries the zipped payload
 * from the build scripts (`base64.b64encode`) into the generated installers
 * (`base64.b64decode` in `unpack_into_directory`).
 */
module Base64 {
  import opened Results

  type Byte = x: int | 0 <= x < 256
  type Sextet = x: int | 0 <= x < 64

  datatype DecodeError = IncorrectPadding | InvalidCharacter

  /** Table 1 of RFC 4648: A-Z, a-z, 0-9, '+', '/'. */
  function CharOf(v: Sextet): (c: char)
    ensures IsAlphabetChar(c) && SextetOf(c) == v
  {
    if v < 26 then ('A' as int + v) as char
    else if v < 52 then ('a' as int + (v - 26)) as char
    else if v < 62 then ('0' as int + (v - 52)) as char
    else if v == 62 then '+'
    else '/'
  }

  predicate IsAlphabetChar(c: char) {
    ('A' <= c <= 'Z') || ('a' <= c <= 'z') || ('0' <= c <= '9') || c == '+' || c == '/'
  }

  function SextetOf(c: char): Sextet
    requires IsAlphabetChar(c)
  {
    if 'A' <= c <= 'Z' then c as int - 'A' as int
    else if 'a' <= c <= 'z' then c as int - 'a' as int + 26
    else if '0' <= c <= '9' then c as int - '0' as int + 52
    else if c == '+' then 62
    else 63
  }

  /** Three octets become four characters (section 4, most significant bits first). */
  function EncodeGroup(b0: Byte, b1: Byte, b2: Byte): string {
    [CharOf(b0 / 4), CharOf((b0 % 4) * 16 + b1 / 16), CharOf((b1 % 16) * 4 + b2 / 64), CharOf(b2 % 64)]
  }

  /** A character of encoded output: the alphabet or the pad character. */
  predicate IsEncodedChar(c: char) {
    IsAlphabetChar(c) || c == '='
  }

  /** `base64.b64encode`: final groups of one or two octets are padded with `=`. */
  function Encode(data: seq<Byte>): (s: string)
    ensures forall i :: 0 <= i < |s| ==> IsEncodedChar(s[i])
    decreases |data|
  {
    if |data| == 0 then ""
    else if |data| == 1 then
      [CharOf(data[0] / 4), CharOf((data[0] % 4) * 16), '=', '=']
    else if |data| == 2 then
      [CharOf(data[0] / 4), CharOf((data[0] % 4) * 16 + data[1] / 16), CharOf((data[1] % 16) * 4), '=']
    else
      EncodeGroup(data[0], data[1], data[2]) + Encode(data[3..])
  }

  /** Every started group of three octets takes four characters. */
  lemma {:induction false} EncodeLength(data: seq<Byte>)
    ensures |Encode(data)| == 4 * ((|data| + 2) / 3)
    decreases |data|
  {
    if |data| >= 3 {
      EncodeLength(data[3..]);
      assert (|data| + 2) / 3 == (|data[3..]| + 2) / 3 + 1;
    }
  }

  /** Four alphabet characters become three octets. */
  function DecodeGroup(q: string): (b: seq<Byte>)
    requires |q| == 4 && forall i :: 0 <= i < 4 ==> IsAlphabetChar(q[i])
  {
    var c0, c1, c2, c3 := SextetOf(q[0]), SextetOf(q[1]), SextetOf(q[2]), SextetOf(q[3]);
    [c0 * 4 + c1 / 16, (c1 % 16) * 16 + c2 / 4, (c2 % 4) * 64 + c3]
  }

  /** The last group, which may end in one or two pad characters. */
  function DecodeFinal(q: string): Result<seq<Byte>, DecodeError>
    requires |q| == 4
  {
    if forall i :: 0 <= i < 4 ==> IsAlphabetChar(q[i]) then Ok(DecodeGroup(q))
    else if IsAlphabetChar(q[0]) && IsAlphabetChar(q[1]) && q[2] == '=' && q[3] == '=' then
      Ok([SextetOf(q[0]) * 4 + SextetOf(q[1]) / 16])
    else if IsAlphabetChar(q[0]) && IsAlphabetChar(q[1]) && IsAlphabetChar(q[2]) && q[3] == '=' then
      Ok([SextetOf(q[0]) * 4 + SextetOf(q[1]) / 16, (SextetOf(q[1]) % 16) * 16 + SextetOf(q[2]) / 4])
    else if forall i :: 0 <= i < 4 ==> IsEncodedChar(q[i]) then Err(IncorrectPadding)
    else Err(InvalidCharacter)
  }

  /** Strict decoding: the length is a multiple of four and padding only ends the text. */
  function Decode(s: string): Result<seq<Byte>, DecodeError>
    decreases |s|
  {
    if |s| == 0 then Ok([])
    else if |s| < 4 then Err(IncorrectPadding)
    else if |s| == 4 then DecodeFinal(s)
    else if !(forall i :: 0 <= i < 4 ==> IsAlphabetChar(s[i])) then
      (if forall i :: 0 <= i < 4 ==> IsEncodedChar(s[i]) then Err(IncorrectPadding) else Err(InvalidCharacter))
    else
      match Decode(s[4..])
      case Err(e) => Err(e)
      case Ok(rest) => Ok(DecodeGroup(s[..4]) + rest)
  }

  lemma DecodeEncodeGroup(b0: Byte, b1: Byte, b2: Byte)
    ensures DecodeGroup(EncodeGroup(b0, b1, b2)) == [b0, b1, b2]
  {
  }

  /** The round trip the installers rely on: decoding the embedded text gives back
      exactly the zip bytes the build script encoded. */
  lemma {:induction false} DecodeEncode(data: seq<Byte>)
    ensures Decode(Encode(data)) == Ok(data)
    decreases |data|
  {
    if |data| >= 3 {
      DecodeEncode(data[3..]);
      DecodeEncodeStep(data);
    } else if |data| == 2 {
      DecodeEncodeTwo(data[0], data[1]);
      assert data == [data[0], data[1]];
    } else if |data| == 1 {
      DecodeEncodeOne(data[0]);
      assert data == [data[0]];
    }
  }

  /** A full leading group decodes back, given that the rest does. */
  lemma DecodeEncodeStep(data: seq<Byte>)
    requires |data| >= 3
    requires Decode(Encode(data[3..])) == Ok(data[3..])
    ensures Decode(Encode(data)) == Ok(data)
  {
    EncodeStep(data);
    DecodeStep(data[0], data[1], data[2], Encode(data[3..]), data[3..]);
    FirstThree(data);
  }

  lemma EncodeStep(data: seq<Byte>)
    requires |data| >= 3
    ensures Encode(data) == EncodeGroup(data[0], data[1], data[2]) + Encode(data[3..])
  {
  }

  lemma DecodeStep(b0: Byte, b1: Byte, b2: Byte, rest: string, tail: seq<Byte>)
    requires Decode(rest) == Ok(tail)
    ensures Decode(EncodeGroup(b0, b1, b2) + rest) == Ok([b0, b1, b2] + tail)
  {
    DecodeEncodeGroup(b0, b1, b2);
    DecodeGroupFirst(EncodeGroup(b0, b1, b2), rest);
  }

  lemma FirstThree(data: seq<Byte>)
    requires |data| >= 3
    ensures data == [data[0], data[1], data[2]] + data[3..]
  {
  }

  /** Decoding peels off a leading group of four alphabet characters. */
  lemma DecodeGroupFirst(g: string, rest: string)
    requires |g| == 4 && forall i :: 0 <= i < 4 ==> IsAlphabetChar(g[i])
    ensures Decode(g + rest) == match Decode(rest)
      case Err(e) => Err(e)
      case Ok(b) => Ok(DecodeGroup(g) + b)
  {
    var s := g + rest;
    assert s[..4] == g;
    assert s[4..] == rest;
    assert forall i :: 0 <= i < 4 ==> s[i] == g[i];
    if |rest| == 0 {
      assert s == g;
      assert DecodeGroup(g) + [] == DecodeGroup(g);
    }
  }

  lemma DecodeEncodeOne(b0: Byte)
    ensures Decode(Encode([b0])) == Ok([b0])
  {
    var s := Encode([b0]);
    assert !IsAlphabetChar(s[3]);
    assert SextetOf(s[1]) == (b0 % 4) * 16;
    assert ((b0 % 4) * 16) / 16 == b0 % 4;
    assert s[2] == '=' && s[3] == '=';
  }

  lemma DecodeEncodeTwo(b0: Byte, b1: Byte)
    ensures Decode(Encode([b0, b1])) == Ok([b0, b1])
  {
    var s := Encode([b0, b1]);
    assert !IsAlphabetChar(s[3]);
    var x := (b0 % 4) * 16 + b1 / 16;
    assert SextetOf(s[1]) == x;
    assert SextetOf(s[2]) == (b1 % 16) * 4;
    assert x % 16 == b1 / 16 && x / 16 == b0 % 4;
    assert ((b1 % 16) * 4) / 4 == b1 % 16;
  }
}
