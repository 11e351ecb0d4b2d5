/**
 * `encoding/base64.StdEncoding`: the standard alphabet with '=' padding
 * (section 4 of RFC 4648), encoding as `EncodeToString` does and decoding
 * with the leniency of Go's `DecodeString`: carriage returns and line feeds
 * are skipped anywhere, padding is required, and the unused low bits of a
 * padded final group are not checked.
 */
module Base64 {
  import opened Wrappers
  import opened Octets

  /** Go reports a `CorruptInputError`; its offset is not modelled. */
  datatype DecodeError = CorruptInput

  const Pad: char := '='

  /** The character for a 6-bit group value: A-Z, a-z, 0-9, '+', '/'. */
  function Digit(v: int): (c: char)
    requires 0 <= v < 64
    ensures c != Pad && c != '\r' && c != '\n'
  {
    if v < 26 then ('A' as int + v) as char
    else if v < 52 then ('a' as int + (v - 26)) as char
    else if v < 62 then ('0' as int + (v - 52)) as char
    else if v == 62 then '+'
    else '/'
  }

  /** Inverse of Digit; None for every character outside the alphabet. */
  function DigitValue(c: char): (r: Option<int>)
    ensures r.Some? ==> 0 <= r.value < 64 && Digit(r.value) == c
  {
    if 'A' <= c <= 'Z' then Some(c as int - 'A' as int)
    else if 'a' <= c <= 'z' then Some(c as int - 'a' as int + 26)
    else if '0' <= c <= '9' then Some(c as int - '0' as int + 52)
    else if c == '+' then Some(62)
    else if c == '/' then Some(63)
    else None
  }

  lemma DigitValueOfDigit(v: int)
    requires 0 <= v < 64
    ensures DigitValue(Digit(v)) == Some(v)
  {
  }

  // A 24-bit group x y z is split into four 6-bit values.
  function Group3(x: Byte, y: Byte, z: Byte): string
  {
    [Digit(x / 4), Digit((x % 4) * 16 + y / 16), Digit((y % 16) * 4 + z / 64), Digit(z % 64)]
  }

  function Group2(x: Byte, y: Byte): string
  {
    [Digit(x / 4), Digit((x % 4) * 16 + y / 16), Digit((y % 16) * 4), Pad]
  }

  function Group1(x: Byte): string
  {
    [Digit(x / 4), Digit((x % 4) * 16), Pad, Pad]
  }

  /** `StdEncoding.EncodeToString`. */
  function Encode(b: seq<Byte>): (s: string)
    ensures |s| == (|b| + 2) / 3 * 4
    decreases |b|
  {
    if |b| == 0 then ""
    else if |b| == 1 then Group1(b[0])
    else if |b| == 2 then Group2(b[0], b[1])
    else Group3(b[0], b[1], b[2]) + Encode(b[3..])
  }

  /** Go's decoder skips '\r' and '\n' wherever they occur. */
  function StripNewlines(s: string): (t: string)
    ensures |t| <= |s|
    ensures forall i :: 0 <= i < |t| ==> t[i] != '\r' && t[i] != '\n'
  {
    if |s| == 0 then ""
    else if s[0] == '\r' || s[0] == '\n' then StripNewlines(s[1..])
    else [s[0]] + StripNewlines(s[1..])
  }

  /** Decodes four-character groups; only the last group may carry padding. */
  function DecodeGroups(s: string): (r: Result<seq<Byte>, DecodeError>)
    decreases |s|
  {
    if |s| == 0 then Success([])
    else if |s| < 4 then Failure(CorruptInput)
    else if s[2] == Pad then
      if s[3] == Pad && |s| == 4 then
        match (DigitValue(s[0]), DigitValue(s[1]))
        case (Some(a), Some(b)) => Success([a * 4 + b / 16])
        case _ => Failure(CorruptInput)
      else Failure(CorruptInput)
    else if s[3] == Pad then
      if |s| == 4 then
        match (DigitValue(s[0]), DigitValue(s[1]), DigitValue(s[2]))
        case (Some(a), Some(b), Some(c)) => Success([a * 4 + b / 16, (b % 16) * 16 + c / 4])
        case _ => Failure(CorruptInput)
      else Failure(CorruptInput)
    else
      match Quad(s[0], s[1], s[2], s[3])
      case None => Failure(CorruptInput)
      case Some(q) =>
        var rest :- DecodeGroups(s[4..]);
        Success(q + rest)
  }

  /** The three octets of an unpadded group, or None if a character is outside the alphabet. */
  function Quad(c0: char, c1: char, c2: char, c3: char): Option<seq<Byte>>
  {
    match (DigitValue(c0), DigitValue(c1), DigitValue(c2), DigitValue(c3))
    case (Some(a), Some(b), Some(c), Some(d)) => Some([a * 4 + b / 16, (b % 16) * 16 + c / 4, (c % 4) * 64 + d])
    case _ => None
  }

  /**
   * `StdEncoding.DecodeString`. Whatever it accepts has exactly the length of the
   * encoding of the octets it yields, so it accepts no partial group and no
   * surplus characters.
   */
  function Decode(s: string): (r: Result<seq<Byte>, DecodeError>)
    ensures r.Success? ==> |StripNewlines(s)| == |Encode(r.value)|
  {
    DecodedLength(StripNewlines(s));
    DecodeGroups(StripNewlines(s))
  }

  // ---------------------------------------------------------------------
  // Properties
  // ---------------------------------------------------------------------

  lemma {:induction false} EncodeHasNoNewlines(b: seq<Byte>)
    ensures forall i :: 0 <= i < |Encode(b)| ==> Encode(b)[i] != '\r' && Encode(b)[i] != '\n'
    decreases |b|
  {
    if |b| >= 3 {
      EncodeHasNoNewlines(b[3..]);
    }
  }

  lemma {:induction false} StripNewlinesKeeps(s: string)
    requires forall i :: 0 <= i < |s| ==> s[i] != '\r' && s[i] != '\n'
    ensures StripNewlines(s) == s
    decreases |s|
  {
    if |s| > 0 {
      StripNewlinesKeeps(s[1..]);
      assert s == [s[0]] + s[1..];
    }
  }

  /** Joining a high part and a 4-bit low part, then splitting them again, is the identity. */
  lemma Rejoin16(hi: int, lo: int)
    requires 0 <= lo < 16
    ensures (hi * 16 + lo) / 16 == hi && (hi * 16 + lo) % 16 == lo
  {
  }

  /** The same for a 2-bit low part. */
  lemma Rejoin4(hi: int, lo: int)
    requires 0 <= lo < 4
    ensures (hi * 4 + lo) / 4 == hi && (hi * 4 + lo) % 4 == lo
  {
  }

  /** The arithmetic of a full group: the four 6-bit values rebuild x, y and z. */
  lemma Group3Arithmetic(x: Byte, y: Byte, z: Byte)
    ensures var a, b, c, d := x / 4, (x % 4) * 16 + y / 16, (y % 16) * 4 + z / 64, z % 64;
      a * 4 + b / 16 == x && (b % 16) * 16 + c / 4 == y && (c % 4) * 64 + d == z
  {
    Rejoin16(x % 4, y / 16);
    Rejoin4(y % 16, z / 64);
  }

  /** Decoding what Encode produced gives back the original octets. */
  lemma {:induction false} DecodeEncode(b: seq<Byte>)
    ensures Decode(Encode(b)) == Success(b)
    decreases |b|
  {
    EncodeHasNoNewlines(b);
    StripNewlinesKeeps(Encode(b));
    DecodeGroupsEncode(b);
  }

  lemma Group1RoundTrip(x: Byte)
    ensures DecodeGroups(Group1(x)) == Success([x])
  {
    DigitValueOfDigit(x / 4);
    DigitValueOfDigit((x % 4) * 16);
    Rejoin16(x % 4, 0);
  }

  lemma Group2RoundTrip(x: Byte, y: Byte)
    ensures DecodeGroups(Group2(x, y)) == Success([x, y])
  {
    DigitValueOfDigit(x / 4);
    DigitValueOfDigit((x % 4) * 16 + y / 16);
    DigitValueOfDigit((y % 16) * 4);
    Group3Arithmetic(x, y, 0);
  }

  lemma Group3Prefix(x: Byte, y: Byte, z: Byte, rest: string)
    requires DecodeGroups(rest).Success?
    ensures DecodeGroups(Group3(x, y, z) + rest) == Success([x, y, z] + DecodeGroups(rest).value)
  {
    var g := Group3(x, y, z);
    var s := g + rest;
    QuadOfGroup3(x, y, z);
    assert s[0] == g[0] && s[1] == g[1] && s[2] == g[2] && s[3] == g[3];
    assert s[4..] == rest;
  }

  /** The characters of a full group decode to the octets they encode. */
  lemma QuadOfGroup3(x: Byte, y: Byte, z: Byte)
    ensures var g := Group3(x, y, z);
      g[2] != Pad && g[3] != Pad && Quad(g[0], g[1], g[2], g[3]) == Some([x, y, z])
  {
    DigitValueOfDigit(x / 4);
    DigitValueOfDigit((x % 4) * 16 + y / 16);
    DigitValueOfDigit((y % 16) * 4 + z / 64);
    DigitValueOfDigit(z % 64);
    Group3Arithmetic(x, y, z);
  }

  lemma {:induction false} DecodeGroupsEncode(b: seq<Byte>)
    ensures DecodeGroups(Encode(b)) == Success(b)
    decreases |b|, 1
  {
    if |b| == 0 {
    } else if |b| < 3 {
      ShortGroupRoundTrip(b);
    } else {
      FullGroupStep(b);
    }
  }

  /** One or two bytes make a single padded group. */
  lemma ShortGroupRoundTrip(b: seq<Byte>)
    requires 1 <= |b| <= 2
    ensures DecodeGroups(Encode(b)) == Success(b)
  {
    if |b| == 1 {
      Group1RoundTrip(b[0]);
      assert b == [b[0]];
    } else {
      Group2RoundTrip(b[0], b[1]);
      assert b == [b[0], b[1]];
    }
  }

  /** A full group in front of an encoding that round-trips. */
  lemma {:induction false} FullGroupStep(b: seq<Byte>)
    requires |b| >= 3
    ensures DecodeGroups(Encode(b)) == Success(b)
    decreases |b|, 0
  {
    var front, tail := SplitThree(b);
    DecodeGroupsEncode(tail);
    QuadOfGroup3(b[0], b[1], b[2]);
    PrefixDecode(Group3(b[0], b[1], b[2]), Encode(tail), front, tail);
    EncodeStep(b);
  }

  lemma SplitThree(b: seq<Byte>) returns (front: seq<Byte>, tail: seq<Byte>)
    requires |b| >= 3
    ensures front == [b[0], b[1], b[2]] && tail == b[3..] && b == front + tail
    ensures |tail| < |b|
  {
    front, tail := [b[0], b[1], b[2]], b[3..];
  }

  /** An unpadded group decodes the same whatever follows it. */
  lemma PrefixDecode(g: string, rest: string, front: seq<Byte>, tail: seq<Byte>)
    requires |g| == 4 && g[2] != Pad && g[3] != Pad
    requires Quad(g[0], g[1], g[2], g[3]) == Some(front)
    requires DecodeGroups(rest) == Success(tail)
    ensures DecodeGroups(g + rest) == Success(front + tail)
  {
    assert (g + rest)[4..] == rest;
  }

  lemma EncodeStep(b: seq<Byte>)
    requires |b| >= 3
    ensures Encode(b) == Group3(b[0], b[1], b[2]) + Encode(b[3..])
  {
  }

  /** A character outside the alphabet, other than a line break, is rejected wherever it appears. */
  lemma ForeignCharacterRejected(s: string, k: int)
    requires 0 <= k < |s|
    requires DigitValue(s[k]).None? && s[k] != Pad
    requires s[k] != '\r' && s[k] != '\n'
    ensures Decode(s).Failure?
  {
    var j := StripKeepsOthers(s, k);
    GroupsRejectForeign(StripNewlines(s), j);
  }

  /** Removing line breaks keeps every other character, at some position of the result. */
  lemma {:induction false} StripKeepsOthers(s: string, k: int) returns (j: int)
    requires 0 <= k < |s|
    requires s[k] != '\r' && s[k] != '\n'
    ensures 0 <= j < |StripNewlines(s)| && StripNewlines(s)[j] == s[k]
    decreases |s|
  {
    if k == 0 {
      j := 0;
    } else {
      var i := StripKeepsOthers(s[1..], k - 1);
      j := if s[0] == '\r' || s[0] == '\n' then i else i + 1;
    }
  }

  lemma {:induction false} GroupsRejectForeign(s: string, k: int)
    requires 0 <= k < |s|
    requires DigitValue(s[k]).None? && s[k] != Pad
    ensures DecodeGroups(s).Failure?
    decreases |s|
  {
    if |s| >= 4 && s[2] != Pad && s[3] != Pad && k >= 4 {
      GroupsRejectForeign(s[4..], k - 4);
    }
  }

  /** Input whose length, line breaks removed, is not a multiple of four is rejected. */
  lemma {:induction false} RaggedLengthRejected(s: string)
    requires |StripNewlines(s)| % 4 != 0
    ensures Decode(s).Failure?
  {
    GroupsRejectRagged(StripNewlines(s));
  }

  lemma {:induction false} GroupsRejectRagged(s: string)
    requires |s| % 4 != 0
    ensures DecodeGroups(s).Failure?
    decreases |s|
  {
    if |s| >= 4 && s[2] != Pad && s[3] != Pad {
      GroupsRejectRagged(s[4..]);
    }
  }

  /** Four characters per group: what decodes to b is exactly as long as the encoding of b. */
  lemma {:induction false} DecodedLength(s: string)
    ensures DecodeGroups(s).Success? ==> |s| == (|DecodeGroups(s).value| + 2) / 3 * 4
    decreases |s|
  {
    if |s| >= 4 && s[2] != Pad && s[3] != Pad && Quad(s[0], s[1], s[2], s[3]).Some? {
      DecodedLength(s[4..]);
      if DecodeGroups(s[4..]).Success? {
        var q := Quad(s[0], s[1], s[2], s[3]).value;
        var rest := DecodeGroups(s[4..]).value;
        assert DecodeGroups(s) == Success(q + rest);
        GroupLength(|rest|);
      }
    }
  }

  lemma GroupLength(n: nat)
    ensures (n + 3 + 2) / 3 * 4 == (n + 2) / 3 * 4 + 4
  {
  }

  /**
   * Padding may only close the input: a '=' anywhere but the last two
   * positions, or a '=' followed by a digit ("AB=A"), is rejected.
   */
  lemma {:induction false} MisplacedPadRejected(s: string, i: int)
    requires 0 <= i < |s| && s[i] == Pad
    requires i < |s| - 2 || (i == |s| - 2 && s[|s| - 1] != Pad)
    ensures DecodeGroups(s).Failure?
    decreases |s|
  {
    if |s| >= 4 && s[2] != Pad && s[3] != Pad && i >= 4 {
      MisplacedPadRejected(s[4..], i - 4);
    }
  }

  /** The same, for the text handed to `DecodeString`: positions count after line breaks are removed. */
  lemma MisplacedPadInTokenRejected(s: string, i: int)
    requires 0 <= i < |StripNewlines(s)| && StripNewlines(s)[i] == Pad
    requires i < |StripNewlines(s)| - 2 || (i == |StripNewlines(s)| - 2 && StripNewlines(s)[|StripNewlines(s)| - 1] != Pad)
    ensures Decode(s).Failure?
  {
    MisplacedPadRejected(StripNewlines(s), i);
  }

  /** "AAAA" is the encoding of three zero octets. */
  lemma DecodeZeroGroup()
    ensures Decode("AAAA") == Success([0, 0, 0])
  {
    var s := "AAAA";
    assert StripNewlines(s[3..]) == s[3..];
    assert StripNewlines(s[2..]) == s[2..];
    assert StripNewlines(s[1..]) == s[1..];
    assert StripNewlines(s) == s;
    assert Group3(0, 0, 0) + "" == s;
    Group3Prefix(0, 0, 0, "");
    var zeros: seq<Byte> := [0, 0, 0];
    assert zeros + DecodeGroups("").value == zeros;
    assert DecodeGroups(StripNewlines(s)) == Success(zeros);
  }
}
