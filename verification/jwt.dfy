/**
 * `JwtHelper.DecodeSteamId`: the `sub` claim (section 4.1.2 of RFC 7519)
 * of a token's payload, or `""` whenever anything goes wrong.
 *
 * The token is cut into segments and its payload padded exactly as
 * `ConfigHelper.ParseEya` does (`SteamConfig.TokenPayload`), then decoded
 * with the standard base64 alphabet. `Encoding.UTF8.GetString` and the JSON
 * reader are library code and are passed in as `Codecs`.
 */
module Jwt {
  import opened Bits
  import opened TextUtil
  import Base64
  import opened SteamConfig

  /** What `JsonDocument.Parse(json).RootElement.TryGetProperty("sub", …)`
      followed by `GetString()` yields for a payload text. */
  datatype SubClaim =
    | Malformed(message: string)     // `JsonException` from `Parse`
    | NotAnObject(message: string)   // `TryGetProperty` on a non-object root throws
    | NoSub                          // `TryGetProperty` returns false
    | SubNull                        // `GetString()` returns null
    | SubNotString(message: string)  // `GetString()` throws on a number, object, …
    | SubText(value: string)         // `GetString()` returns the text

  /** The library decoders the token helpers rely on. */
  datatype Codecs = Codecs(utf8: seq<byte> -> string, readSub: string -> SubClaim)

  /** The text of a `sub` claim, `""` for every other outcome: the exceptions
      are caught and a null claim becomes `string.Empty`. */
  function SubValue(claim: SubClaim): (id: string)
    ensures id != "" ==> claim == SubText(id)
    ensures claim.SubText? ==> id == claim.value
  {
    if claim.SubText? then claim.value else ""
  }

  /** `DecodeSteamId(token)`. */
  function DecodeSteamId(token: string, codecs: Codecs): (id: string)
    ensures |Split(token, '.')| != 3 ==> id == ""
    ensures id != "" ==> TokenPayload(token).Some? && Base64.Decode(TokenPayload(token).value).Some?
    ensures TokenPayload(token).Some? && Base64.Decode(TokenPayload(token).value).Some? ==>
      id == SubValue(codecs.readSub(codecs.utf8(Base64.Decode(TokenPayload(token).value).value)))
  {
    match TokenPayload(token)
    case None => ""
    case Some(payload) =>
      match Base64.Decode(payload)
      case None => ""
      case Some(bytes) => SubValue(codecs.readSub(codecs.utf8(bytes)))
  }

  /** `DecodeSteamId` reads the `sub` claim of the very text `ParseEya`
      returns whenever the latter is not empty. */
  lemma DecodeThroughParseEya(token: string, codecs: Codecs)
    requires ParseEya(token, codecs.utf8) != ""
    ensures DecodeSteamId(token, codecs) == SubValue(codecs.readSub(ParseEya(token, codecs.utf8)))
  {
  }

  /** The two token readers reject exactly the same tokens for their segment
      count: both need exactly two dots. */
  lemma SegmentRuleShared(token: string, codecs: Codecs)
    requires multiset(token)['.'] != 2
    ensures DecodeSteamId(token, codecs) == ""
    ensures ParseEya(token, codecs.utf8) == ""
  {
    TokenSegments(token);
  }

  /** A non-empty result is the `sub` text of a three-segment token whose
      padded payload decoded as standard base64. */
  lemma DecodedIdOrigin(token: string, codecs: Codecs)
    requires DecodeSteamId(token, codecs) != ""
    ensures |Split(token, '.')| == 3
    ensures var bytes := Base64.Decode(TokenPayload(token).value);
      && bytes.Some?
      && codecs.readSub(codecs.utf8(bytes.value)) == SubText(DecodeSteamId(token, codecs))
  {
  }

  /** A payload in the URL-safe alphabet (carrying `-` or `_`) yields `""`. */
  lemma UrlSafePayloadRejected(token: string, codecs: Codecs, i: nat)
    requires |Split(token, '.')| == 3
    requires i < |Split(token, '.')[1]|
    requires Split(token, '.')[1][i] in "-_"
    ensures DecodeSteamId(token, codecs) == ""
  {
    var payload := TokenPayload(token).value;
    assert payload[i] == Split(token, '.')[1][i];
    Base64.UrlSafeCharFails(payload, i);
  }

  /** A payload that is not JSON, not an object, lacks `sub`, or holds a
      null or non-string `sub` yields `""`: nothing escapes as an exception. */
  lemma MissingSubRejected(token: string, codecs: Codecs)
    requires TokenPayload(token).Some?
    requires Base64.Decode(TokenPayload(token).value).Some?
    requires !codecs.readSub(codecs.utf8(Base64.Decode(TokenPayload(token).value).value)).SubText?
    ensures DecodeSteamId(token, codecs) == ""
  {
  }
}
