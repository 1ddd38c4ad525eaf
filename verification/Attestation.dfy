/** Attestation chains and the messages signed around them (`src/identity.rs`). */
module Attestation {
  import opened Octets
  import opened Text
  import opened Wrappers

  // ---- Signed messages -------------------------------------------------------------

  /** The bytes of an ASCII literal. */
  function Ascii(s: string): Bytes
    requires forall i :: 0 <= i < |s| ==> s[i] as int < 128
  {
    seq(|s|, i requires 0 <= i < |s| => s[i] as int)
  }

  function AttestationMessage(key: Bytes): Bytes {
    Ascii("enoxian-device-attestation-v1") + Be32(|key|) + key
  }

  function BindingMessage(circle: Bytes, key: Bytes): Bytes {
    Ascii("enoxian-circle-device-binding-v1") + Be32(|circle|) + circle + Be32(|key|) + key
  }

  function KeyPackageMessage(circle: Bytes, key: Bytes): Bytes {
    Ascii("enoxian-mls-key-package-v1") + [0] + circle + [0] + key
  }

  /** Every message is its domain's name, then each part behind its length in four bytes,
      most significant first; the KeyPackage's parts stand behind a NUL instead. */
  lemma MessageLayouts(circle: Bytes, key: Bytes)
    requires |circle| < 0x1_0000_0000 && |key| < 0x1_0000_0000
    ensures var m := AttestationMessage(key);
            && |m| == 33 + |key| && m[..29] == Ascii("enoxian-device-attestation-v1")
            && FromBe32(m[29..33]) == |key| && m[33..] == key
    ensures var m, n := BindingMessage(circle, key), |circle|;
            && |m| == 40 + n + |key| && m[..32] == Ascii("enoxian-circle-device-binding-v1")
            && FromBe32(m[32..36]) == n && m[36..36 + n] == circle
            && FromBe32(m[36 + n..40 + n]) == |key| && m[40 + n..] == key
    ensures var m, n := KeyPackageMessage(circle, key), |circle|;
            && |m| == 28 + n + |key| && m[..26] == Ascii("enoxian-mls-key-package-v1")
            && m[26] == 0 && m[27..27 + n] == circle && m[27 + n] == 0 && m[28 + n..] == key
  {
    hide Be32, FromBe32, Ascii;
    Be32Reads(|circle|);
    Be32Reads(|key|);
    Lengths();
    var n, b, k := |circle|, BindingMessage(circle, key), KeyPackageMessage(circle, key);
    assert AttestationMessage(key)[29..33] == Be32(|key|);
    assert b[32..36] == Be32(n) && b[36 + n..40 + n] == Be32(|key|);
  }

  lemma Lengths()
    ensures |Ascii("enoxian-device-attestation-v1")| == 29
    ensures |Ascii("enoxian-circle-device-binding-v1")| == 32
    ensures |Ascii("enoxian-mls-key-package-v1")| == 26
  {
  }

  /** An attestation covers one key. */
  lemma AttestationMessageInjective(k: Bytes, l: Bytes)
    requires AttestationMessage(k) == AttestationMessage(l)
    ensures k == l
  {
    hide Ascii, Be32;
    var n := |Ascii("enoxian-device-attestation-v1")|;
    assert AttestationMessage(k)[n + 4..] == k && AttestationMessage(l)[n + 4..] == l;
  }

  /** A binding covers one circle and one key. */
  lemma BindingMessageInjective(c: Bytes, k: Bytes, d: Bytes, l: Bytes)
    requires |c| < 0x1_0000_0000 && |d| < 0x1_0000_0000
    requires BindingMessage(c, k) == BindingMessage(d, l)
    ensures c == d && k == l
  {
    hide Ascii, Be32, FromBe32;
    var domain := Ascii("enoxian-circle-device-binding-v1");
    var n := |domain|;
    var m := BindingMessage(c, k);
    assert m[n..n + 4] == Be32(|c|) && m[n..n + 4] == Be32(|d|);
    Be32Reads(|c|);
    Be32Reads(|d|);
    assert m[n + 4..n + 4 + |c|] == c && m[n + 4..n + 4 + |d|] == d;
    assert m[n + 8 + |c|..] == k && m[n + 8 + |d|..] == l;
  }

  /** A KeyPackage binding covers one circle and one key, circle ids holding no NUL. */
  lemma KeyPackageMessageInjective(c: Bytes, k: Bytes, d: Bytes, l: Bytes)
    requires 0 !in c && 0 !in d && KeyPackageMessage(c, k) == KeyPackageMessage(d, l)
    ensures c == d && k == l
  {
    var domain := Ascii("enoxian-mls-key-package-v1") + [0];
    var m := KeyPackageMessage(c, k);
    assert m[|domain|..] == c + [0] + k && m[|domain|..] == d + [0] + l;
    SplitFirst(c, k, d, l, 0);
  }

  /** No signature made for one purpose reads as one made for another. */
  lemma DomainsAreSeparate(a: Bytes, c: Bytes, k: Bytes, d: Bytes, l: Bytes)
    ensures AttestationMessage(a) != BindingMessage(c, k)
    ensures AttestationMessage(a) != KeyPackageMessage(d, l)
    ensures BindingMessage(c, k) != KeyPackageMessage(d, l)
  {
    assert AttestationMessage(a)[8] == 'd' as int;
    assert BindingMessage(c, k)[8] == 'c' as int;
    assert KeyPackageMessage(d, l)[8] == 'm' as int;
  }

  // ---- Links -----------------------------------------------------------------------

  datatype Link = Link(signer: string, subject: string, sig: string)

  datatype LinkError = BadKey | BadSignatureText

  /** Which bytes are a public key, and which signatures a key made over which messages. */
  datatype Crypto = Crypto(isKey: Bytes -> bool, verify: (Bytes, Bytes, Bytes) -> bool)

  const MAX_CHAIN_DEPTH: nat := 4

  function Codes(s: string): seq<int> {
    seq(|s|, i requires 0 <= i < |s| => s[i] as int)
  }

  /** The bytes a text spells in hex, white space around it aside and in either case. */
  function HexBytes(text: string): Option<Bytes> {
    FromHex(Codes(Trim(text)))
  }

  function PublicKey(text: string, c: Crypto): Result<Bytes, LinkError> {
    match HexBytes(text)
    case Some(key) => if c.isKey(key) then Ok(key) else Err(BadKey)
    case None => Err(BadKey)
  }

  /** What vouching for `subject` signs: the key itself, whatever its spelling. */
  function SubjectMessage(subject: string, c: Crypto): Result<Bytes, LinkError> {
    var key :- PublicKey(subject, c);
    if |key| < 0x1_0000_0000 then Ok(AttestationMessage(key)) else Err(BadKey)
  }

  /** `subject` names a key, short enough for its length to be written in 32 bits. */
  predicate Signable(subject: string, c: Crypto) {
    HexBytes(subject).Some? && c.isKey(HexBytes(subject).value) && |HexBytes(subject).value| < 0x1_0000_0000
  }

  function IsValid(l: Link, c: Crypto): Result<bool, LinkError> {
    var signer :- PublicKey(l.signer, c);
    if HexBytes(l.sig).None? then Err(BadSignatureText)
    else
      var message :- SubjectMessage(l.subject, c);
      Ok(c.verify(signer, message, HexBytes(l.sig).value))
  }

  /** The link's texts are hex and name keys, the subject's short enough to be signed over. */
  predicate Readable(l: Link, c: Crypto) {
    && HexBytes(l.signer).Some? && c.isKey(HexBytes(l.signer).value)
    && HexBytes(l.sig).Some? && Signable(l.subject, c)
  }

  /** It is readable, and carries a signature of its signer's key over its subject's. */
  predicate Signed(l: Link, c: Crypto) {
    && Readable(l, c)
    && c.verify(HexBytes(l.signer).value, AttestationMessage(HexBytes(l.subject).value), HexBytes(l.sig).value)
  }

  /** A link is valid exactly when it is so signed, and an error exactly when unreadable. */
  lemma ValidExactlyWhen(l: Link, c: Crypto)
    ensures IsValid(l, c) == Ok(true) <==> Signed(l, c)
    ensures IsValid(l, c).Err? <==> !Readable(l, c)
  {
    hide HexBytes, AttestationMessage;
  }

  /** Check the rest of a chain, given who must sign next and who has been vouched for. */
  function VerifyRest(rest: seq<Link>, seen: set<string>, expected: string, device: string, c: Crypto)
    : Result<bool, LinkError>
  {
    if rest == [] then Ok(expected == Trim(device))
    else
      var subject := Trim(rest[0].subject);
      if Trim(rest[0].signer) != expected || subject in seen || subject == expected then Ok(false)
      else
        match IsValid(rest[0], c)
        case Err(e) => Err(e)
        case Ok(false) => Ok(false)
        case Ok(true) => VerifyRest(rest[1..], seen + {subject}, subject, device, c)
  }

  function Verify(chain: seq<Link>, user: string, device: string, c: Crypto): Result<bool, LinkError> {
    if chain == [] || |chain| > MAX_CHAIN_DEPTH then Ok(false) else VerifyRest(chain, {}, Trim(user), device, c)
  }

  method VerifyChain(chain: seq<Link>, user: string, device: string, c: Crypto) returns (r: Result<bool, LinkError>)
    ensures r == Verify(chain, user, device, c)
  {
    if chain == [] || |chain| > MAX_CHAIN_DEPTH {
      return Ok(false);
    }
    var seen: set<string> := {};
    var expected := Trim(user);
    for i := 0 to |chain|
      invariant VerifyRest(chain[i..], seen, expected, device, c) == VerifyRest(chain, {}, Trim(user), device, c)
    {
      var link := chain[i];
      assert chain[i..][1..] == chain[i + 1..];
      if Trim(link.signer) != expected {
        return Ok(false);
      }
      var subject := Trim(link.subject);
      if subject in seen || subject == expected {
        return Ok(false);
      }
      var valid := IsValid(link, c);
      if valid.Err? {
        return Err(valid.error);
      }
      if !valid.value {
        return Ok(false);
      }
      seen := seen + {subject};
      expected := subject;
    }
    return Ok(expected == Trim(device));
  }

  // ---- What acceptance means -------------------------------------------------------

  function Subject(chain: seq<Link>, i: nat): string
    requires i < |chain|
  {
    Trim(chain[i].subject)
  }

  /** Who must sign link `i`: the root for the first, then the subject before. */
  function SignerAt(chain: seq<Link>, root: string, i: nat): string
    requires i <= |chain|
  {
    if i == 0 then root else Subject(chain, i - 1)
  }

  /** Link `i` carries the signature of who must sign it, and is not about its own signer. */
  predicate LinkOk(chain: seq<Link>, root: string, c: Crypto, i: nat)
    requires i < |chain|
  {
    && Trim(chain[i].signer) == SignerAt(chain, root, i)
    && Subject(chain, i) != SignerAt(chain, root, i)
    && Signed(chain[i], c)
  }

  ghost predicate NoRepeats(chain: seq<Link>) {
    forall i, j :: 0 <= i < j < |chain| ==> Subject(chain, i) != Subject(chain, j)
  }

  /** A path of signed links from `root`, with no repeated subject and no self-signing. */
  ghost predicate IsPath(chain: seq<Link>, root: string, c: Crypto) {
    (forall i :: 0 <= i < |chain| ==> LinkOk(chain, root, c, i)) && NoRepeats(chain)
  }

  ghost predicate Accepts(chain: seq<Link>, user: string, device: string, c: Crypto) {
    1 <= |chain| <= 4 && IsPath(chain, Trim(user), c) && Subject(chain, |chain| - 1) == Trim(device)
  }

  lemma {:induction false} VerifyRestMeans(rest: seq<Link>, seen: set<string>, expected: string, device: string,
                                           c: Crypto)
    ensures VerifyRest(rest, seen, expected, device, c) == Ok(true) <==>
      IsPath(rest, expected, c) && (forall i :: 0 <= i < |rest| ==> Subject(rest, i) !in seen) &&
      SignerAt(rest, expected, |rest|) == Trim(device)
  {
    if rest != [] {
      var subject, tail := Trim(rest[0].subject), rest[1..];
      VerifyRestMeans(tail, seen + {subject}, subject, device, c);
      ValidExactlyWhen(rest[0], c);
      hide IsValid, Signed, Readable, Trim;
      PathTail(rest, expected, c);
      forall i | 0 <= i < |tail| ensures Subject(tail, i) == Subject(rest, i + 1) { }
      assert SignerAt(rest, expected, |rest|) == SignerAt(tail, subject, |tail|);
      assert (forall i :: 0 <= i < |rest| ==> Subject(rest, i) !in seen) <==>
        subject !in seen && forall i :: 0 <= i < |tail| ==> Subject(tail, i) !in seen by {
        if subject !in seen && forall i :: 0 <= i < |tail| ==> Subject(tail, i) !in seen {
          forall i | 0 <= i < |rest| ensures Subject(rest, i) !in seen {
            if i > 0 { assert Subject(tail, i - 1) !in seen; }
          }
        }
        assert Subject(rest, 0) == subject;
      }
    }
  }

  lemma LinkShift(rest: seq<Link>, expected: string, c: Crypto, i: nat)
    requires i + 1 < |rest|
    ensures LinkOk(rest[1..], Subject(rest, 0), c, i) == LinkOk(rest, expected, c, i + 1)
    ensures Subject(rest[1..], i) == Subject(rest, i + 1)
  {
  }

  lemma PathTail(rest: seq<Link>, expected: string, c: Crypto)
    requires rest != []
    ensures var subject, tail := Subject(rest, 0), rest[1..];
            IsPath(rest, expected, c) <==>
              LinkOk(rest, expected, c, 0) &&
              (forall i :: 0 <= i < |tail| ==> Subject(tail, i) != subject) && IsPath(tail, subject, c)
  {
    hide Signed, Trim;
    var subject, tail := Subject(rest, 0), rest[1..];
    forall i | 0 <= i < |tail|
      ensures LinkOk(tail, subject, c, i) == LinkOk(rest, expected, c, i + 1)
      ensures Subject(tail, i) == Subject(rest, i + 1)
    {
      LinkShift(rest, expected, c, i);
    }
    hide LinkOk, Subject;
    var apart := forall i :: 0 <= i < |tail| ==> Subject(tail, i) != subject;
    if LinkOk(rest, expected, c, 0) && apart && IsPath(tail, subject, c) {
      forall i | 0 <= i < |rest| ensures LinkOk(rest, expected, c, i) {
        if i > 0 { assert LinkOk(tail, subject, c, i - 1); }
      }
      forall i, j | 0 <= i < j < |rest| ensures Subject(rest, i) != Subject(rest, j) {
        assert Subject(rest, j) == Subject(tail, j - 1);
        if i > 0 { assert Subject(rest, i) == Subject(tail, i - 1); }
      }
    }
    if IsPath(rest, expected, c) {
      forall i | 0 <= i < |tail| ensures LinkOk(tail, subject, c, i) && Subject(tail, i) != subject {
        assert LinkOk(rest, expected, c, i + 1) && Subject(rest, 0) != Subject(rest, i + 1);
      }
      forall i, j | 0 <= i < j < |tail| ensures Subject(tail, i) != Subject(tail, j) {
        assert Subject(rest, i + 1) != Subject(rest, j + 1);
      }
    }
  }

  /** `verify_chain` accepts exactly the paths of one to four signed links from the user's
      root to the device, with no subject repeated and no link signing itself. */
  lemma VerifyAcceptsExactly(chain: seq<Link>, user: string, device: string, c: Crypto)
    ensures Verify(chain, user, device, c) == Ok(true) <==> Accepts(chain, user, device, c)
  {
    if 1 <= |chain| <= MAX_CHAIN_DEPTH {
      VerifyRestMeans(chain, {}, Trim(user), device, c);
    }
  }

  /** So every link of an accepted chain carries a signature that the key before it, the
      root's for the first, made over the next one. */
  lemma AcceptedChainsAreSigned(chain: seq<Link>, user: string, device: string, c: Crypto, i: nat)
    requires Verify(chain, user, device, c) == Ok(true) && i < |chain|
    ensures Readable(chain[i], c)
    ensures var signer := if i == 0 then user else chain[i - 1].subject;
            && HexBytes(signer).Some? && HexBytes(signer) == HexBytes(chain[i].signer)
            && c.verify(HexBytes(signer).value, AttestationMessage(HexBytes(chain[i].subject).value),
                        HexBytes(chain[i].sig).value)
    ensures HexBytes(chain[|chain| - 1].subject) == HexBytes(device)
  {
    VerifyAcceptsExactly(chain, user, device, c);
    assert LinkOk(chain, Trim(user), c, i);
    TrimIsIdempotent(user);
    hide AttestationMessage, Trim, FromHex, Codes;
  }

  /** Link `k` stops the check with an error: all before it are in order, it comes from who
      must sign it, about somebody new, and cannot be read. */
  ghost predicate ErrsAt(chain: seq<Link>, seen: set<string>, root: string, c: Crypto, k: nat)
    requires k < |chain|
  {
    && (forall i :: 0 <= i < k ==> LinkOk(chain, root, c, i))
    && (forall i :: 0 <= i <= k ==> Subject(chain, i) !in seen)
    && (forall i, j :: 0 <= i < j <= k ==> Subject(chain, i) != Subject(chain, j))
    && Trim(chain[k].signer) == SignerAt(chain, root, k) && Subject(chain, k) != SignerAt(chain, root, k)
    && !Readable(chain[k], c)
  }

  ghost predicate Errs(chain: seq<Link>, seen: set<string>, root: string, c: Crypto) {
    exists k :: 0 <= k < |chain| && ErrsAt(chain, seen, root, c, k)
  }

  lemma {:induction false} RestErrs(rest: seq<Link>, seen: set<string>, expected: string, device: string, c: Crypto)
    ensures VerifyRest(rest, seen, expected, device, c).Err? <==> Errs(rest, seen, expected, c)
  {
    if rest != [] {
      ValidExactlyWhen(rest[0], c);
      hide IsValid, Signed, Readable, Trim;
      var subject, tail := Subject(rest, 0), rest[1..];
      RestErrs(tail, seen + {subject}, subject, device, c);
      forall k | 0 <= k < |tail|
        ensures ErrsAt(rest, seen, expected, c, k + 1) <==>
                LinkOk(rest, expected, c, 0) && subject !in seen && ErrsAt(tail, seen + {subject}, subject, c, k)
      {
        ErrsShift(rest, seen, expected, c, k);
      }
      hide ErrsAt;
      if k :| 0 <= k < |rest| && ErrsAt(rest, seen, expected, c, k) {
        if k > 0 {
          assert ErrsAt(tail, seen + {subject}, subject, c, k - 1);
        }
      }
      ErrsFirst(rest, seen, expected, c);
    }
  }

  lemma ErrsFirst(rest: seq<Link>, seen: set<string>, expected: string, c: Crypto)
    requires rest != []
    ensures ErrsAt(rest, seen, expected, c, 0) <==>
            && Trim(rest[0].signer) == expected && Subject(rest, 0) !in seen && Subject(rest, 0) != expected
            && !Readable(rest[0], c)
  {
    hide Readable, Trim;
  }

  lemma ErrsShift(rest: seq<Link>, seen: set<string>, expected: string, c: Crypto, k: nat)
    requires k + 1 < |rest|
    ensures ErrsAt(rest, seen, expected, c, k + 1) <==>
            LinkOk(rest, expected, c, 0) && Subject(rest, 0) !in seen &&
            ErrsAt(rest[1..], seen + {Subject(rest, 0)}, Subject(rest, 0), c, k)
  {
    hide Readable, Signed, Trim;
    var subject, tail := Subject(rest, 0), rest[1..];
    forall i | 0 <= i < |tail| ensures Subject(tail, i) == Subject(rest, i + 1) {
    }
    forall i | 0 <= i < |tail| ensures LinkOk(tail, subject, c, i) == LinkOk(rest, expected, c, i + 1) {
      LinkShift(rest, expected, c, i);
    }
    hide LinkOk, Subject;
    if ErrsAt(rest, seen, expected, c, k + 1) {
      forall i | 0 <= i < k ensures LinkOk(tail, subject, c, i) {
        assert LinkOk(rest, expected, c, i + 1);
      }
      forall i | 0 <= i <= k ensures Subject(tail, i) !in seen + {subject} {
        assert Subject(rest, i + 1) !in seen && Subject(rest, 0) != Subject(rest, i + 1);
      }
      forall i, j | 0 <= i < j <= k ensures Subject(tail, i) != Subject(tail, j) {
        assert Subject(rest, i + 1) != Subject(rest, j + 1);
      }
    }
    if LinkOk(rest, expected, c, 0) && subject !in seen && ErrsAt(tail, seen + {subject}, subject, c, k) {
      forall i | 0 <= i < k + 1 ensures LinkOk(rest, expected, c, i) {
        assert i > 0 ==> LinkOk(tail, subject, c, i - 1);
      }
      forall i | 0 <= i <= k + 1 ensures Subject(rest, i) !in seen {
        assert i > 0 ==> Subject(tail, i - 1) !in seen + {subject};
      }
      forall i, j | 0 <= i < j <= k + 1 ensures Subject(rest, i) != Subject(rest, j) {
        assert Subject(tail, j - 1) !in seen + {subject};
        assert i > 0 ==> Subject(tail, i - 1) != Subject(tail, j - 1);
      }
    }
  }

  /** The check is an error, not a refusal, exactly when it meets a link it cannot read. */
  lemma VerifyErrsExactlyWhen(chain: seq<Link>, user: string, device: string, c: Crypto)
    ensures Verify(chain, user, device, c).Err? <==>
            1 <= |chain| <= 4 && Errs(chain, {}, Trim(user), c)
  {
    hide Errs, VerifyRest, Trim;
    RestErrs(chain, {}, Trim(user), device, c);
  }

  /** Every non-empty prefix of an accepted chain verifies for its own last subject. */
  lemma PrefixesVerify(chain: seq<Link>, user: string, device: string, c: Crypto, k: nat)
    requires Verify(chain, user, device, c) == Ok(true) && 0 < k <= |chain|
    ensures Verify(chain[..k], user, chain[k - 1].subject, c) == Ok(true)
  {
    hide Signed, Trim, Verify;
    VerifyAcceptsExactly(chain, user, device, c);
    var prefix := chain[..k];
    forall i | 0 <= i < k ensures Subject(prefix, i) == Subject(chain, i) && LinkOk(prefix, Trim(user), c, i) {
      assert LinkOk(chain, Trim(user), c, i);
    }
    VerifyAcceptsExactly(prefix, user, chain[k - 1].subject, c);
  }

  // ---- Keys, not their spelling ----------------------------------------------------

  /** No subject's key occurs twice, and no link is signed by the key it vouches for. */
  ghost predicate KeysDiffer(chain: seq<Link>) {
    && (forall i, j :: 0 <= i < j < |chain| ==> HexBytes(chain[i].subject) != HexBytes(chain[j].subject))
    && (forall i :: 0 <= i < |chain| ==> HexBytes(chain[i].signer) != HexBytes(chain[i].subject))
  }

  function Lowered(text: string): seq<int> {
    LowerCodes(Codes(Trim(text)))
  }

  /** No two subjects, nor the root and the first subject, are spelled alike but for case. */
  ghost predicate SpelledApart(chain: seq<Link>, user: string) {
    && (forall i, j :: 0 <= i < j < |chain| ==> Lowered(chain[i].subject) != Lowered(chain[j].subject))
    && (chain != [] ==> Lowered(user) != Lowered(chain[0].subject))
  }

  /** Chains are compared as text but verified as bytes. So an accepted chain is a path of
      distinct keys with no key vouching for itself exactly when its texts differ by more
      than the case of their letters. */
  lemma AcceptedKeysDifferExactlyWhen(chain: seq<Link>, user: string, device: string, c: Crypto)
    requires Verify(chain, user, device, c) == Ok(true)
    ensures KeysDiffer(chain) <==> SpelledApart(chain, user)
  {
    VerifyAcceptsExactly(chain, user, device, c);
    forall i | 0 <= i < |chain|
      ensures HexBytes(chain[i].subject).Some? && HexBytes(chain[i].signer).Some?
      ensures Trim(chain[i].signer) == SignerAt(chain, Trim(user), i)
    {
      assert LinkOk(chain, Trim(user), c, i);
    }
    hide Trim, Signed, Readable, LinkOk, NoRepeats, IsPath, LowerCodes, Verify;
    forall i, j | 0 <= i < j < |chain|
      ensures HexBytes(chain[i].subject) == HexBytes(chain[j].subject) <==>
              Lowered(chain[i].subject) == Lowered(chain[j].subject)
    {
      SameBytesExactlyWhen(Codes(Trim(chain[i].subject)), Codes(Trim(chain[j].subject)));
    }
    assert Trim(chain[0].signer) == Trim(user);
    SameBytesExactlyWhen(Codes(Trim(chain[0].signer)), Codes(Trim(chain[0].subject)));
    if SpelledApart(chain, user) {
      forall i | 0 <= i < |chain| ensures HexBytes(chain[i].signer) != HexBytes(chain[i].subject) {
        if i > 0 {
          assert HexBytes(chain[i].signer) == HexBytes(chain[i - 1].subject);
          assert Lowered(chain[i - 1].subject) != Lowered(chain[i].subject);
        }
      }
    }
  }

  predicate IsLowercase(text: string) {
    Lowered(text) == Codes(Trim(text))
  }

  /** In particular when every text is lowercase hex, as enoxian itself writes keys. */
  lemma LowercaseChainsAreKeyPaths(chain: seq<Link>, user: string, device: string, c: Crypto)
    requires Verify(chain, user, device, c) == Ok(true)
    requires IsLowercase(user) && forall l :: l in chain ==> IsLowercase(l.subject)
    ensures KeysDiffer(chain)
  {
    VerifyAcceptsExactly(chain, user, device, c);
    AcceptedKeysDifferExactlyWhen(chain, user, device, c);
    assert LinkOk(chain, Trim(user), c, 0);
    hide Trim, KeysDiffer, Signed, LinkOk, Verify, Codes, LowerCodes;
    LowercaseApart(user, chain[0].subject);
    forall i, j | 0 <= i < j < |chain| ensures Lowered(chain[i].subject) != Lowered(chain[j].subject) {
      assert Subject(chain, i) != Subject(chain, j);
      LowercaseApart(chain[i].subject, chain[j].subject);
    }
  }

  lemma LowercaseApart(a: string, b: string)
    requires IsLowercase(a) && IsLowercase(b) && Trim(a) != Trim(b)
    ensures Lowered(a) != Lowered(b)
  {
    hide Trim, LowerCodes;
    if Codes(Trim(a)) == Codes(Trim(b)) {
      DifferentTexts(Trim(a), Trim(b));
    }
  }

  lemma DifferentTexts(a: string, b: string)
    requires Codes(a) == Codes(b)
    ensures a == b
  {
    assert |a| == |Codes(a)| && |b| == |Codes(b)|;
    forall i | 0 <= i < |a| ensures a[i] == b[i] {
      assert Codes(a)[i] == Codes(b)[i];
    }
  }

  /** Otherwise they may not be: here one key is a subject twice, in two spellings, and the
      second link is signed by the very key it vouches for. */
  lemma RespelledKeyIsAccepted()
    ensures exists chain: seq<Link>, user: string, device: string, c: Crypto ::
              && Verify(chain, user, device, c) == Ok(true) && |chain| == 2
              && HexBytes(chain[0].subject) == HexBytes(chain[1].subject)
              && HexBytes(chain[1].signer) == HexBytes(chain[1].subject)
  {
    var c := Crypto(k => true, (k, m, s) => true);
    var chain := [Link.Link("00", "AB", "00"), Link.Link("AB", "ab", "00")];
    TrimPlain("00");
    TrimPlain("AB");
    TrimPlain("ab");
    SpellsOneByte("00", 0);
    SpellsOneByte("AB", 0xAB);
    SpellsOneByte("ab", 0xAB);
    hide HexBytes, Trim;
    var none: set<string> := {};
    assert none + {"AB"} == {"AB"} && {"AB"} + {"ab"} == {"AB", "ab"};
    assert "AB"[0] != "ab"[0] && "00"[0] != "AB"[0];
    assert IsValid(chain[0], c) == Ok(true) && IsValid(chain[1], c) == Ok(true);
    assert chain[1..] == [chain[1]] && chain[1..][1..] == [];
    assert VerifyRest([], {"AB", "ab"}, "ab", "ab", c) == Ok(true);
    assert VerifyRest(chain[1..], {"AB"}, "AB", "ab", c) == Ok(true);
    assert Verify(chain, "00", "ab", c) == Ok(true);
  }

  lemma SpellsOneByte(text: string, b: byte)
    requires |text| == 2 && Trim(text) == text
    requires HexValue(text[0] as int) == Some(b / 16) && HexValue(text[1] as int) == Some(b % 16)
    ensures HexBytes(text) == Some([b])
  {
    assert Codes(text)[2..] == [] && FromHex(Codes(text)[2..]) == Some([]);
    assert 16 * (b / 16) + b % 16 == b && [b] + [] == [b];
  }

  // ---- Vouching for the next device ------------------------------------------------

  datatype IdentityError = NotCovered | NoValidAttestation | TooDeep | Link(e: LinkError)

  /** `hex::encode`, as text. */
  function HexString(b: Bytes): (s: string)
    ensures |s| == 2 * |b| && forall i :: 0 <= i < |s| ==> s[i] as int < 128 && s[i] as int == Hex(b)[i]
  {
    seq(|Hex(b)|, i requires 0 <= i < |Hex(b)| => Hex(b)[i] as char)
  }

  class DeviceIdentity {
    const key: Bytes
    const crypto: Crypto
    /** Signs a message with the device key. */
    const sign: Bytes -> Bytes
    var handle: Option<string>
    var user: Option<string>
    var chain: seq<Link>

    constructor (key: Bytes, crypto: Crypto, sign: Bytes -> Bytes)
      ensures this.key == key && this.crypto == crypto && this.sign == sign
      ensures handle == None && user == None && chain == []
    {
      this.key, this.crypto, this.sign := key, crypto, sign;
      handle, user, chain := None, None, [];
    }

    method AdoptChain(newHandle: string, newUser: string, newChain: seq<Link>) returns (r: Result<(), IdentityError>)
      modifies this
      ensures r.Ok? <==> Verify(newChain, newUser, HexString(key), crypto) == Ok(true)
      ensures r.Ok? ==> handle == Some(newHandle) && user == Some(newUser) && chain == newChain
      ensures r.Err? ==> handle == old(handle) && user == old(user) && chain == old(chain)
    {
      var verdict := VerifyChain(newChain, newUser, HexString(key), crypto);
      match verdict {
        case Err(e) => return Err(IdentityError.Link(e));
        case Ok(covered) =>
          if !covered {
            return Err(NotCovered);
          }
      }
      handle := Some(newHandle);
      user := Some(newUser);
      chain := newChain;
      return Ok(());
    }

    ghost predicate Attested()
      reads this
    {
      user.Some? && Verify(chain, user.value, HexString(key), crypto) == Ok(true)
    }

    method AttestationIsValid() returns (valid: bool)
      ensures valid == Attested()
    {
      if user.None? {
        return false;
      }
      var verdict := VerifyChain(chain, user.value, HexString(key), crypto);
      return verdict == Ok(true);
    }

    /** Vouch for another device by one more link. */
    method Attest(subject: string) returns (r: Result<seq<Link>, IdentityError>)
      ensures r.Ok? <==> Attested() && |chain| < 4 && Signable(subject, crypto)
      ensures r.Ok? ==>
        r.value == Extended(chain, key, subject, sign(AttestationMessage(HexBytes(subject).value)))
    {
      var valid := AttestationIsValid();
      if !valid {
        return Err(NoValidAttestation);
      }
      if |chain| + 1 > MAX_CHAIN_DEPTH {
        return Err(TooDeep);
      }
      var message := SubjectMessage(subject, crypto);
      if message.Err? {
        return Err(IdentityError.Link(message.error));
      }
      var sig := sign(message.value);
      return Ok(chain + [Link.Link(HexString(key), Trim(subject), HexString(sig))]);
    }
  }

  function Extended(chain: seq<Link>, key: Bytes, subject: string, sig: Bytes): seq<Link> {
    chain + [Link.Link(HexString(key), Trim(subject), HexString(sig))]
  }

  /** The device's key is a key, and what it signs verifies under it. */
  ghost predicate Honest(key: Bytes, sign: Bytes -> Bytes, c: Crypto) {
    c.isKey(key) && forall m :: c.verify(key, m, sign(m))
  }

  lemma HexStringReads(b: Bytes)
    ensures Trim(HexString(b)) == HexString(b) && HexBytes(HexString(b)) == Some(b)
  {
    HexInverse(b);
    assert Codes(HexString(b)) == Hex(b);
    HexIsPlain(b);
    TrimPlain(HexString(b));
  }

  lemma {:induction false} HexIsPlain(b: Bytes)
    ensures forall i :: 0 <= i < |Hex(b)| ==> 0x30 <= Hex(b)[i] < 0x67
  {
    if b != [] {
      HexIsPlain(b[1..]);
      var t := Hex(b);
      assert forall i :: 2 <= i < |t| ==> t[i] == Hex(b[1..])[i - 2];
    }
  }

  /** What the device signs is a signed link. */
  lemma HonestLinkIsSigned(key: Bytes, sign: Bytes -> Bytes, subject: string, c: Crypto)
    requires Honest(key, sign, c) && Signable(subject, c)
    ensures var sig := sign(AttestationMessage(HexBytes(subject).value));
            Signed(Link.Link(HexString(key), Trim(subject), HexString(sig)), c)
  {
    var message := AttestationMessage(HexBytes(subject).value);
    TrimIsIdempotent(subject);
    HexStringReads(key);
    HexStringReads(sign(message));
    assert HexBytes(Trim(subject)) == HexBytes(subject);
  }

  /** Extending a valid chain shorter than four verifies for the new device exactly when
      that device is not already on it. */
  lemma AttestExtendsExactlyWhen(chain: seq<Link>, user: string, key: Bytes, sign: Bytes -> Bytes, subject: string,
                                 c: Crypto)
    requires Honest(key, sign, c) && Signable(subject, c)
    requires Verify(chain, user, HexString(key), c) == Ok(true) && |chain| < 4
    ensures var more := Extended(chain, key, subject, sign(AttestationMessage(HexBytes(subject).value)));
            Verify(more, user, subject, c) == Ok(true) <==>
            forall i :: 0 <= i < |chain| ==> Subject(chain, i) != Trim(subject)
  {
    var sig := sign(AttestationMessage(HexBytes(subject).value));
    var n, more := |chain|, Extended(chain, key, subject, sig);
    HonestLinkIsSigned(key, sign, subject, c);
    HexStringReads(key);
    VerifyAcceptsExactly(chain, user, HexString(key), c);
    VerifyAcceptsExactly(more, user, subject, c);
    hide Honest, Signable, AttestationMessage, Signed, Verify, HexString, HexBytes, Trim;
    ExtendedLinks(chain, Trim(user), key, subject, sig, c);
    if forall i :: 0 <= i < n ==> Subject(chain, i) != Trim(subject) {
      FreshExtends(chain, more, user, key, subject, c);
    }
    if Accepts(more, user, subject, c) {
      ExtendsFresh(chain, more, user, subject, c);
    }
  }

  lemma FreshExtends(chain: seq<Link>, more: seq<Link>, user: string, key: Bytes, subject: string, c: Crypto)
    requires Accepts(chain, user, HexString(key), c) && |chain| < 4 && |more| == |chain| + 1
    requires Subject(more, |chain|) == Trim(subject)
    requires LinkOk(more, Trim(user), c, |chain|) <==> Trim(subject) != Trim(HexString(key))
    requires forall i :: 0 <= i < |chain| ==>
      Subject(more, i) == Subject(chain, i) && LinkOk(more, Trim(user), c, i) == LinkOk(chain, Trim(user), c, i)
    requires forall i :: 0 <= i < |chain| ==> Subject(chain, i) != Trim(subject)
    ensures Accepts(more, user, subject, c)
  {
    hide Trim, LinkOk, Subject, SignerAt, HexString;
    assert Subject(chain, |chain| - 1) != Trim(subject);
  }

  lemma ExtendsFresh(chain: seq<Link>, more: seq<Link>, user: string, subject: string, c: Crypto)
    requires Accepts(more, user, subject, c) && |more| == |chain| + 1
    requires forall i :: 0 <= i < |chain| ==> Subject(more, i) == Subject(chain, i)
    ensures forall i :: 0 <= i < |chain| ==> Subject(chain, i) != Trim(subject)
  {
    hide Trim, LinkOk, Subject, SignerAt;
    forall i | 0 <= i < |chain| ensures Subject(chain, i) != Trim(subject) {
      assert Subject(more, i) != Subject(more, |chain|);
    }
  }

  lemma ExtendedLinks(chain: seq<Link>, root: string, key: Bytes, subject: string, sig: Bytes, c: Crypto)
    requires chain != [] && Subject(chain, |chain| - 1) == Trim(HexString(key))
    requires Signed(Link.Link(HexString(key), Trim(subject), HexString(sig)), c)
    ensures var n, more := |chain|, Extended(chain, key, subject, sig);
            && |more| == n + 1 && Subject(more, n) == Trim(subject)
            && (LinkOk(more, root, c, n) <==> Trim(subject) != Trim(HexString(key)))
            && forall i :: 0 <= i < n ==>
              Subject(more, i) == Subject(chain, i) && LinkOk(more, root, c, i) == LinkOk(chain, root, c, i)
  {
    TrimIsIdempotent(subject);
    hide Trim, Signed, HexString;
  }

  /** An older file's single attestation becomes a chain that verifies exactly when the
      signature is good and the root did not attest itself. */
  function Migrated(chain: seq<Link>, user: Option<string>, attestation: Option<string>, key: Bytes): seq<Link> {
    if chain != [] then chain
    else if user.None? || attestation.None? then []
    else [Link.Link(user.value, HexString(key), attestation.value)]
  }

  lemma MigrationVerifiesExactlyWhen(user: string, attestation: string, key: Bytes, c: Crypto)
    ensures Verify(Migrated([], Some(user), Some(attestation), key), user, HexString(key), c) == Ok(true) <==>
            Trim(user) != HexString(key) && Signed(Link.Link(user, HexString(key), attestation), c)
    ensures Migrated([], None, Some(attestation), key) == [] && Migrated([], Some(user), None, key) == []
    ensures forall chain: seq<Link>, u, a :: chain != [] ==> Migrated(chain, u, a, key) == chain
  {
    var chain := Migrated([], Some(user), Some(attestation), key);
    VerifyAcceptsExactly(chain, user, HexString(key), c);
    HexStringReads(key);
    hide Signed, Verify, HexString, HexBytes;
    assert Subject(chain, 0) == HexString(key) && SignerAt(chain, Trim(user), 0) == Trim(user);
    assert IsPath(chain, Trim(user), c) <==> LinkOk(chain, Trim(user), c, 0);
  }
}
