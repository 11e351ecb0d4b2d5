/**
 * The UUID value type of github.com/google/uuid: sixteen octets, their
 * canonical 8-4-4-4-12 lower-case hexadecimal text (section 3 of RFC 4122),
 * the library's `Parse`, and the bytewise order PostgreSQL uses to compare
 * `uuid` columns.
 */
module Uuids {
  import opened Wrappers
  import opened Octets

  type Uuid = s: seq<Byte> | |s| == 16 witness [0, 0, 0, 0, 0, 0, 0, 0, 0, 0, 0, 0, 0, 0, 0, 0]

  /** `uuid.Nil`, the all-zero UUID. */
  const Nil: Uuid := [0, 0, 0, 0, 0, 0, 0, 0, 0, 0, 0, 0, 0, 0, 0, 0]

  // ---------------------------------------------------------------------
  // Ordering: lexicographic on unsigned octets (memcmp)
  // ---------------------------------------------------------------------

  predicate Less(a: seq<Byte>, b: seq<Byte>)
    requires |a| == |b|
  {
    |a| > 0 && (a[0] < b[0] || (a[0] == b[0] && Less(a[1..], b[1..])))
  }

  /** `a <= b` in the order used by `WHERE ID >= $1` and `ORDER BY ID`. */
  predicate AtMost(a: seq<Byte>, b: seq<Byte>)
    requires |a| == |b|
  {
    a == b || Less(a, b)
  }

  lemma {:induction false} LessIrreflexive(a: seq<Byte>)
    ensures !Less(a, a)
    decreases |a|
  {
    if |a| > 0 {
      LessIrreflexive(a[1..]);
    }
  }

  lemma {:induction false} LessTransitive(a: seq<Byte>, b: seq<Byte>, c: seq<Byte>)
    requires |a| == |b| == |c|
    requires Less(a, b) && Less(b, c)
    ensures Less(a, c)
    decreases |a|
  {
    if a[0] == b[0] && b[0] == c[0] {
      LessTransitive(a[1..], b[1..], c[1..]);
    }
  }

  lemma {:induction false} LessTotal(a: seq<Byte>, b: seq<Byte>)
    requires |a| == |b|
    requires a != b
    ensures Less(a, b) || Less(b, a)
    decreases |a|
  {
    if a[0] == b[0] {
      assert a == [a[0]] + a[1..] && b == [b[0]] + b[1..];
      LessTotal(a[1..], b[1..]);
    }
  }

  lemma LessAsymmetric(a: seq<Byte>, b: seq<Byte>)
    requires |a| == |b|
    requires Less(a, b)
    ensures !Less(b, a) && a != b
  {
    if Less(b, a) {
      LessTransitive(a, b, a);
      LessIrreflexive(a);
    }
    if a == b {
      LessIrreflexive(a);
    }
  }

  lemma AtMostTransitive(a: seq<Byte>, b: seq<Byte>, c: seq<Byte>)
    requires |a| == |b| == |c|
    requires AtMost(a, b) && AtMost(b, c)
    ensures AtMost(a, c)
  {
    if Less(a, b) && Less(b, c) {
      LessTransitive(a, b, c);
    }
  }

  /** `uuid.Nil` is the least UUID, so a cursor of Nil bounds nothing. */
  lemma {:induction false} NilIsLeast(a: seq<Byte>, z: seq<Byte>)
    requires |a| == |z|
    requires forall i :: 0 <= i < |z| ==> z[i] == 0
    ensures AtMost(z, a)
    decreases |a|
  {
    if |a| > 0 && a[0] == 0 {
      NilIsLeast(a[1..], z[1..]);
      if z[1..] == a[1..] {
        assert z == [z[0]] + z[1..] && a == [a[0]] + a[1..];
      }
    }
  }

  // ---------------------------------------------------------------------
  // Canonical text form: UUID.String()
  // ---------------------------------------------------------------------

  const Dash: Byte := 45

  /** Lower-case hexadecimal digit for a nibble. */
  function HexDigit(n: int): Byte
    requires 0 <= n < 16
  {
    if n < 10 then 48 + n else 87 + n
  }

  /** Number of dashes that precede position k of the 36-character text. */
  function DashesBefore(k: int): int
  {
    if k < 8 then 0 else if k < 13 then 1 else if k < 18 then 2 else if k < 23 then 3 else 4
  }

  predicate IsDashPosition(k: int)
  {
    k == 8 || k == 13 || k == 18 || k == 23
  }

  function TextAt(u: Uuid, k: int): Byte
    requires 0 <= k < 36
  {
    if IsDashPosition(k) then Dash
    else
      var j := k - DashesBefore(k);
      if j % 2 == 0 then HexDigit(u[j / 2] / 16) else HexDigit(u[j / 2] % 16)
  }

  /** `UUID.String()`: xxxxxxxx-xxxx-xxxx-xxxx-xxxxxxxxxxxx in lower case. */
  function Text(u: Uuid): (t: seq<Byte>)
    ensures |t| == 36
    ensures forall k :: 0 <= k < 36 && IsDashPosition(k) ==> t[k] == Dash
  {
    seq(36, k requires 0 <= k < 36 => TextAt(u, k))
  }

  /** The text form as a Go string, as it appears in event payloads. */
  function String(u: Uuid): (s: string)
    ensures |s| == 36
  {
    AsString(Text(u))
  }

  // ---------------------------------------------------------------------
  // uuid.Parse
  // ---------------------------------------------------------------------

  datatype ParseError = InvalidLength(length: nat) | InvalidUrnPrefix | InvalidFormat

  /** The library's `xvalues` table: a hexadecimal digit in either case. */
  function HexValue(c: Byte): (r: Option<int>)
    ensures r.Some? ==> 0 <= r.value < 16
  {
    if 48 <= c <= 57 then Some(c - 48)
    else if 97 <= c <= 102 then Some(c - 87)
    else if 65 <= c <= 70 then Some(c - 55)
    else None
  }

  /** The library's `xtob`: two hexadecimal digits to one octet. */
  function Xtob(hi: Byte, lo: Byte): Option<Byte>
  {
    match (HexValue(hi), HexValue(lo))
    case (Some(h), Some(l)) => Some(h * 16 + l)
    case _ => None
  }

  /** Where the high digit of each octet sits in the dashed text form. */
  const DashedOffsets: seq<int> := [0, 2, 4, 6, 9, 11, 14, 16, 19, 21, 24, 26, 28, 30, 32, 34]

  /** Where the high digit of each octet sits in the 32-digit form. */
  const RawOffsets: seq<int> := [0, 2, 4, 6, 8, 10, 12, 14, 16, 18, 20, 22, 24, 26, 28, 30]

  /** "urn:uuid:" */
  const UrnPrefix: seq<Byte> := [117, 114, 110, 58, 117, 117, 105, 100, 58]

  function LowerAscii(c: Byte): Byte
  {
    if 65 <= c <= 90 then c + 32 else c
  }

  /** `strings.EqualFold` against an ASCII pattern. */
  predicate FoldEqual(a: seq<Byte>, b: seq<Byte>)
  {
    |a| == |b| && forall i :: 0 <= i < |a| ==> LowerAscii(a[i]) == LowerAscii(b[i])
  }

  /** Decodes the hexadecimal pair at each offset. */
  function PairsAt(s: seq<Byte>, offsets: seq<int>): (r: Option<seq<Byte>>)
    requires forall i :: 0 <= i < |offsets| ==> 0 <= offsets[i] && offsets[i] + 1 < |s|
    ensures r.Some? ==> |r.value| == |offsets|
    ensures r.Some? <==> forall i :: 0 <= i < |offsets| ==> Xtob(s[offsets[i]], s[offsets[i] + 1]).Some?
    ensures r.Some? ==> forall i :: 0 <= i < |offsets| ==> Xtob(s[offsets[i]], s[offsets[i] + 1]) == Some(r.value[i])
  {
    if |offsets| == 0 then Some([])
    else
      var tail := offsets[1..];
      assert forall i :: 1 <= i < |offsets| ==> offsets[i] == tail[i - 1];
      match Xtob(s[offsets[0]], s[offsets[0] + 1])
      case None => None
      case Some(b) =>
        match PairsAt(s, tail)
        case None => None
        case Some(rest) => Some([b] + rest)
  }

  /** The 8-4-4-4-12 form; only the first 36 octets of s are read. */
  function ParseDashed(s: seq<Byte>): (r: Result<Uuid, ParseError>)
    requires |s| >= 36
  {
    if s[8] != Dash || s[13] != Dash || s[18] != Dash || s[23] != Dash then Failure(InvalidFormat)
    else
      match PairsAt(s, DashedOffsets)
      case None => Failure(InvalidFormat)
      case Some(b) => Success(b)
  }

  /**
   * `uuid.Parse`: the 36-character dashed form, the same behind "urn:uuid:"
   * (any case), the same behind one leading character and followed by one
   * more (the library does not check that they are braces), or 32 bare
   * hexadecimal digits. Hexadecimal digits may be in either case.
   */
  function Parse(s: seq<Byte>): (r: Result<Uuid, ParseError>)
    ensures |s| !in {32, 36, 38, 45} ==> r == Failure(InvalidLength(|s|))
  {
    if |s| == 36 then ParseDashed(s)
    else if |s| == 36 + 9 then
      if FoldEqual(s[..9], UrnPrefix) then ParseDashed(s[9..]) else Failure(InvalidUrnPrefix)
    else if |s| == 36 + 2 then ParseDashed(s[1..])
    else if |s| == 32 then
      match PairsAt(s, RawOffsets)
      case None => Failure(InvalidFormat)
      case Some(b) => Success(b)
    else Failure(InvalidLength(|s|))
  }

  // ---------------------------------------------------------------------
  // Round trip of the text form
  // ---------------------------------------------------------------------

  lemma XtobDigits(b: Byte)
    ensures Xtob(HexDigit(b / 16), HexDigit(b % 16)) == Some(b)
  {
  }

  lemma {:induction false} PairsAtAll(s: seq<Byte>, offsets: seq<int>, b: seq<Byte>)
    requires forall i :: 0 <= i < |offsets| ==> 0 <= offsets[i] && offsets[i] + 1 < |s|
    requires |b| == |offsets|
    requires forall i :: 0 <= i < |offsets| ==> Xtob(s[offsets[i]], s[offsets[i] + 1]) == Some(b[i])
    ensures PairsAt(s, offsets) == Some(b)
    decreases |offsets|
  {
    if |offsets| > 0 {
      PairsAtAll(s, offsets[1..], b[1..]);
      assert b == [b[0]] + b[1..];
    }
  }

  /** Where the two digits of byte i sit in the 36-character text: no dash, and g dashes before them. */
  lemma OffsetShape(i: int) returns (g: int)
    requires 0 <= i < 16
    ensures DashedOffsets[i] == 2 * i + g
    ensures !IsDashPosition(DashedOffsets[i]) && DashesBefore(DashedOffsets[i]) == g
    ensures !IsDashPosition(DashedOffsets[i] + 1) && DashesBefore(DashedOffsets[i] + 1) == g
  {
    g := if i < 4 then 0 else if i < 6 then 1 else if i < 8 then 2 else if i < 10 then 3 else 4;
  }

  lemma TextDigits(u: Uuid, i: int)
    requires 0 <= i < 16
    ensures Text(u)[DashedOffsets[i]] == HexDigit(u[i] / 16)
    ensures Text(u)[DashedOffsets[i] + 1] == HexDigit(u[i] % 16)
  {
    var g := OffsetShape(i);
    var k := DashedOffsets[i];
    assert Text(u)[k] == TextAt(u, k) && Text(u)[k + 1] == TextAt(u, k + 1);
    assert (k - g) / 2 == i && (k + 1 - g) / 2 == i;
  }

  /** Parsing the canonical text of a UUID gives back that UUID. */
  lemma ParseText(u: Uuid)
    ensures Parse(Text(u)) == Success(u)
  {
    var t := Text(u);
    forall i | 0 <= i < 16
      ensures Xtob(t[DashedOffsets[i]], t[DashedOffsets[i] + 1]) == Some(u[i])
    {
      TextDigits(u, i);
      XtobDigits(u[i]);
    }
    PairsAtAll(t, DashedOffsets, u);
  }

  /** Distinct UUIDs have distinct text forms. */
  lemma TextInjective(u: Uuid, v: Uuid)
    requires Text(u) == Text(v)
    ensures u == v
  {
    ParseText(u);
    ParseText(v);
  }
}
