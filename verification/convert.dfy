/**
 * The page-token codec of internal/repositories/common/convert.go: a token
 * is the standard base64 encoding of a UUID's canonical text, and the empty
 * token stands for `uuid.Nil`.
 */
module Convert {
  import opened Wrappers
  import opened Uuids
  import Base64

  datatype DecodeError = InvalidBase64(base64: Base64.DecodeError) | InvalidUuid(uuid: ParseError)

  /** `EncodeUUIDToBase64`: base64 of the 36-octet text, so always 48 characters. */
  function EncodeUuidToBase64(u: Uuid): (token: string)
    ensures |token| == 48
    ensures token != ""
  {
    Base64.Encode(Text(u))
  }

  /** `DecodeBase64ToUUID`. */
  function DecodeBase64ToUuid(token: string): (r: Result<Uuid, DecodeError>)
    ensures token == "" ==> r == Success(Nil)
    ensures token != "" && Base64.Decode(token).Failure? ==> r.Failure? && r.error.InvalidBase64?
    ensures token != "" && Base64.Decode(token).Success? && Parse(Base64.Decode(token).value).Failure? ==>
              r.Failure? && r.error.InvalidUuid?
    ensures token != "" ==>
              (r.Success? <==> Base64.Decode(token).Success? && Parse(Base64.Decode(token).value).Success?)
    ensures r.Success? && token != "" ==> Parse(Base64.Decode(token).value) == Success(r.value)
  {
    if token == "" then Success(Nil)
    else
      match Base64.Decode(token)
      case Failure(e) => Failure(InvalidBase64(e))
      case Success(text) =>
        match Parse(text)
        case Failure(e) => Failure(InvalidUuid(e))
        case Success(u) => Success(u)
  }

  /** Every token the encoder hands out decodes to the UUID it was made from. */
  lemma DecodeEncode(u: Uuid)
    ensures DecodeBase64ToUuid(EncodeUuidToBase64(u)) == Success(u)
  {
    Base64.DecodeEncode(Text(u));
    ParseText(u);
  }

  /** Distinct UUIDs get distinct tokens. */
  lemma EncodeInjective(u: Uuid, v: Uuid)
    requires EncodeUuidToBase64(u) == EncodeUuidToBase64(v)
    ensures u == v
  {
    DecodeEncode(u);
    DecodeEncode(v);
  }

  /** A token that is not whole base64 groups, line breaks aside, is refused. */
  lemma RaggedTokenRejected(token: string)
    requires |Base64.StripNewlines(token)| % 4 != 0
    ensures DecodeBase64ToUuid(token).Failure?
  {
    Base64.RaggedLengthRejected(token);
  }

  /** An instance of RaggedTokenRejected: the three-character token "ABC" is refused as malformed base64. */
  lemma ShortTokenRejected()
    ensures DecodeBase64ToUuid("ABC") == Failure(InvalidBase64(Base64.CorruptInput))
  {
    assert Base64.StripNewlines("ABC") == "ABC";
  }

  /** "AAAA" is valid base64 for three zero octets, which is no UUID text. */
  lemma NonUuidPayloadRejected()
    ensures DecodeBase64ToUuid("AAAA") == Failure(InvalidUuid(InvalidLength(3)))
  {
    Base64.DecodeZeroGroup();
  }
}
