/** `enoxian://` invite links (`src/invite.rs`): the version in the scheme, the payload in
    base64url, and a query string old clients may have appended. */
module InviteUri {
  import opened Octets
  import opened Wrappers
  import opened Wire
  import opened Invite
  import opened LegacyInvite
  import Base64

  const SCHEME_V1: string := "enoxian://v1/"
  const SCHEME_V2: string := "enoxian://v2/"
  const SCHEME_V3: string := "enoxian://v3/"

  function Scheme(v3: bool): string {
    if v3 then SCHEME_V3 else SCHEME_V2
  }

  /** The link for an encodable payload. */
  function Uri(p: Payload, v3: bool, c: Codecs): string
    requires EncodeRefuses(p, v3, c).None?
  {
    Scheme(v3) + Base64.Encode(Encoded(p, v3, c))
  }

  method EncodeUri(p: Payload, v3: bool, c: Codecs) returns (r: Result<string, EncodeError>)
    ensures EncodeRefuses(p, v3, c).Some? ==> r == Err(EncodeRefuses(p, v3, c).value)
    ensures EncodeRefuses(p, v3, c).None? ==> r == Ok(Uri(p, v3, c))
  {
    hide Encoded, EncodeRefuses;
    var raw :- EncodeWith(p, v3, c);
    if !v3 {
      return Ok(SCHEME_V2 + Base64.Encode(raw));
    }
    return Ok(SCHEME_V3 + Base64.Encode(raw));
  }

  function BeforeQuery(uri: string): (base: string)
    ensures base <= uri && '?' !in base
    ensures '?' !in uri ==> base == uri
  {
    if uri == [] || uri[0] == '?' then [] else [uri[0]] + BeforeQuery(uri[1..])
  }

  function Value(r: Read<Payload>): Result<Payload, ReadError> {
    match r
    case Ok((p, _)) => Ok(p)
    case Err(e) => Err(e)
  }

  function FromBase64(b64: string, v3: bool, c: Codecs): Result<Payload, ReadError> {
    match Base64.Decode(b64)
    case Some(raw) => Value(Decoded(raw, v3, c))
    case None => Err(BadBase64)
  }

  function LegacyFromBase64(b64: string, c: Codecs): Result<Payload, ReadError> {
    match Base64.Decode(b64)
    case Some(raw) => DecodedV1(raw, c)
    case None => Err(BadBase64)
  }

  function DecodedUri(uri: string, c: Codecs): Result<Payload, ReadError> {
    var base := BeforeQuery(uri);
    if SCHEME_V3 <= base then FromBase64(base[|SCHEME_V3|..], true, c)
    else if SCHEME_V2 <= base then FromBase64(base[|SCHEME_V2|..], false, c)
    else if SCHEME_V1 <= base then LegacyFromBase64(base[|SCHEME_V1|..], c)
    else Err(NotAnInvite)
  }

  method DecodeUri(uri: string, c: Codecs) returns (p: Result<Payload, ReadError>)
    ensures p == DecodedUri(uri, c)
  {
    hide Decoded, DecodedV1;
    var base := BeforeQuery(uri);
    if SCHEME_V3 <= base || SCHEME_V2 <= base {
      var raw := Base64.Decode(base[|SCHEME_V3|..]);
      if raw.None? {
        return Err(BadBase64);
      }
      p := Invite.Decode(raw.value, SCHEME_V3 <= base, c);
    } else if SCHEME_V1 <= base {
      var raw := Base64.Decode(base[|SCHEME_V1|..]);
      if raw.None? {
        return Err(BadBase64);
      }
      p := DecodeV1(raw.value, c);
    } else {
      p := Err(NotAnInvite);
    }
  }

  lemma {:induction false} QueryIsStripped(base: string, query: string)
    requires '?' !in base
    ensures BeforeQuery(base + ['?'] + query) == base
  {
    if base != [] {
      QueryIsStripped(base[1..], query);
      assert (base + ['?'] + query)[1..] == base[1..] + ['?'] + query;
    }
  }

  lemma UriHasNoQuery(p: Payload, v3: bool, c: Codecs)
    requires EncodeRefuses(p, v3, c).None?
    ensures '?' !in Uri(p, v3, c)
  {
    hide Encoded, EncodeRefuses;
    Base64.NoQuestionMark(Encoded(p, v3, c));
  }

  lemma SchemesDiffer(rest: string)
    ensures SCHEME_V3 <= SCHEME_V3 + rest && !(SCHEME_V3 <= SCHEME_V2 + rest) && SCHEME_V2 <= SCHEME_V2 + rest
  {
    assert (SCHEME_V2 + rest)[11] == '2' && SCHEME_V3[11] == '3';
  }

  lemma BaseDecides(uri: string, v3: bool, b64: string, c: Codecs)
    requires BeforeQuery(uri) == Scheme(v3) + b64
    ensures DecodedUri(uri, c) == FromBase64(b64, v3, c)
  {
    hide FromBase64, BeforeQuery;
    SchemesDiffer(b64);
    assert (Scheme(v3) + b64)[|SCHEME_V3|..] == b64;
  }

  /** Only what stands before the first question mark is read. */
  lemma QueryIsIgnored(base: string, query: string, c: Codecs)
    requires '?' !in base
    ensures DecodedUri(base + ['?'] + query, c) == DecodedUri(base, c)
  {
    hide FromBase64, LegacyFromBase64, BeforeQuery;
    QueryIsStripped(base, query);
    assert BeforeQuery(base) == base;
  }

  /** It is read under the scheme of its version, in base64url, and under no other. */
  lemma SchemeDecides(b64: string, c: Codecs)
    requires '?' !in b64
    ensures DecodedUri("enoxian://v3/" + b64, c) == FromBase64(b64, true, c)
    ensures DecodedUri("enoxian://v2/" + b64, c) == FromBase64(b64, false, c)
    ensures DecodedUri("enoxian://v1/" + b64, c) == LegacyFromBase64(b64, c)
  {
    hide FromBase64, LegacyFromBase64, BeforeQuery;
    hide DecodedUri;
    NoQueryAfter("enoxian://v3/", b64);
    BaseDecides("enoxian://v3/" + b64, true, b64, c);
    NoQueryAfter("enoxian://v2/", b64);
    BaseDecides("enoxian://v2/" + b64, false, b64, c);
    NoQueryAfter("enoxian://v1/", b64);
    LegacyDecides("enoxian://v1/" + b64, b64, c);
  }

  lemma NoQueryAfter(scheme: string, b64: string)
    requires '?' !in scheme && '?' !in b64
    ensures BeforeQuery(scheme + b64) == scheme + b64
  {
  }

  lemma LegacyDecides(uri: string, b64: string, c: Codecs)
    requires BeforeQuery(uri) == "enoxian://v1/" + b64
    ensures DecodedUri(uri, c) == LegacyFromBase64(b64, c)
  {
    hide LegacyFromBase64, FromBase64, BeforeQuery;
    var base := "enoxian://v1/" + b64;
    assert base[11] == '1' && SCHEME_V3[11] == '3' && SCHEME_V2[11] == '2';
    assert base[|SCHEME_V1|..] == b64;
  }

  lemma OtherLinksAreRefused(uri: string, c: Codecs)
    requires !("enoxian://v3/" <= uri || "enoxian://v2/" <= uri || "enoxian://v1/" <= uri)
    ensures DecodedUri(uri, c) == Err(NotAnInvite)
  {
    hide FromBase64, LegacyFromBase64;
    var base := BeforeQuery(uri);
    assert uri[..|base|] == base;
    assert forall k: nat :: k <= |base| ==> base[..k] == uri[..k];
  }

  /** A minted link, with or without a query string, decodes to the payload's normal form. */
  lemma LinksRoundTrip(p: Payload, v3: bool, c: Codecs, query: string)
    requires AddrsRead(c) && EncodeRefuses(p, v3, c).None? && Fits(p, v3, c)
    ensures DecodedUri(Uri(p, v3, c), c) == Ok(Normal(p, v3, c))
    ensures DecodedUri(Uri(p, v3, c) + ['?'] + query, c) == Ok(Normal(p, v3, c))
  {
    hide Encoded, EncodeRefuses, Normal, Fits, Decoded, DecodedUri, Scheme, BeforeQuery;
    var raw := Encoded(p, v3, c);
    UriHasNoQuery(p, v3, c);
    QueryIsStripped(Uri(p, v3, c), query);
    BaseDecides(Uri(p, v3, c), v3, Base64.Encode(raw), c);
    BaseDecides(Uri(p, v3, c) + ['?'] + query, v3, Base64.Encode(raw), c);
    Base64.DecodeInvertsEncode(raw);
    DecodeInvertsEncode(p, v3, c, []);
    assert raw + [] == raw;
  }

  lemma CutSchemeIsRefused(v3: bool, n: nat, c: Codecs)
    requires n < |Scheme(v3)|
    ensures DecodedUri(Scheme(v3)[..n], c) == Err(NotAnInvite)
  {
    assert |BeforeQuery(Scheme(v3)[..n])| <= n;
  }

  /** A link cut short anywhere is refused, never read as a shorter invite. */
  lemma CutLinksAreRefused(p: Payload, v3: bool, c: Codecs, n: nat)
    requires AddrsRead(c) && EncodeRefuses(p, v3, c).None? && Fits(p, v3, c)
    requires n < |Uri(p, v3, c)|
    ensures DecodedUri(Uri(p, v3, c)[..n], c).Err?
  {
    hide Encoded, EncodeRefuses, Fits, Decoded, DecodedUri, BeforeQuery;
    var raw := Encoded(p, v3, c);
    var b64 := Base64.Encode(raw);
    var k := |Scheme(v3)|;
    if n < k {
      CutSchemeIsRefused(v3, n, c);
      assert Uri(p, v3, c)[..n] == Scheme(v3)[..n];
    } else {
      assert Uri(p, v3, c)[..n] == Scheme(v3) + b64[..n - k];
      UriHasNoQuery(p, v3, c);
      BaseDecides(Scheme(v3) + b64[..n - k], v3, b64[..n - k], c);
      if Base64.Decode(b64[..n - k]).Some? {
        Base64.StrictPrefixesLoseBytes(raw, n - k);
        var cut := Base64.Decode(b64[..n - k]).value;
        StrictPrefixesAreRefused(p, v3, c, |cut|);
        assert raw[..|cut|] == cut;
      }
    }
  }

  /** A v1 link of any generation still decodes to what it carried. */
  lemma LegacyLinksRead(p: Payload, g: nat, c: Codecs)
    requires FitsV1(p, c)
    ensures DecodedUri(SCHEME_V1 + Base64.Encode(EncodedV1(p, g, c)), c) == Ok(NormalV1(p, g, c))
  {
    hide EncodedV1, NormalV1, DecodedV1, FitsV1, BeforeQuery;
    var raw := EncodedV1(p, g, c);
    var uri := SCHEME_V1 + Base64.Encode(raw);
    Base64.NoQuestionMark(raw);
    Base64.DecodeInvertsEncode(raw);
    EveryGenerationReads(p, g, c);
    assert '?' !in uri && BeforeQuery(uri) == uri;
    assert uri[11] == '1' && SCHEME_V3[11] == '3' && SCHEME_V2[11] == '2';
    assert uri[|SCHEME_V1|..] == Base64.Encode(raw);
  }
}
