/** The v1 payload (`src/invite.rs`): fixed offsets, then length-prefixed extensions that older
    minters left off. Nothing mints it any more, but links in circulation still decode. */
module LegacyInvite {
  import opened Octets
  import opened Wrappers
  import opened Wire
  import opened Invite

  const MIN_LEN_V1: nat := 58

  // ---- The layout ------------------------------------------------------------------

  function BeBytes(n: nat, k: nat): (b: Bytes)
    ensures |b| == k
  {
    if k == 0 then [] else BeBytes(n / 256, k - 1) + [n % 256]
  }

  function FromBe(b: Bytes): nat {
    if b == [] then 0 else FromBe(b[..|b| - 1]) * 256 + b[|b| - 1]
  }

  const TWO_64: nat := 0x1_0000_0000_0000_0000

  /** An `i64` in two's complement. */
  function Signed(n: nat): int {
    if n < TWO_64 / 2 then n else n - TWO_64
  }

  function Run8(b: Bytes): Bytes
    requires |b| < 256
  {
    [|b|] + b
  }

  function Run16(b: Bytes): Bytes
    requires |b| < 0x1_0000
  {
    [|b| / 256, |b| % 256] + b
  }

  function Or(o: Option<Bytes>): Bytes {
    if o.Some? then o.value else []
  }

  /** What the historical encoder could carry without truncating a length or a timestamp. */
  predicate FitsV1(p: Payload, c: Codecs) {
    && c.uuidParse(p.circleId).Some?
    && -(TWO_64 / 2 as int) <= p.expires < TWO_64 / 2 && c.calendar(p.expires)
    && |Or(p.name)| < 256 && |Or(p.peer)| < 256
    && |Or(p.admin)| < 0x1_0000 && |Or(p.relay)| < 0x1_0000 && |Or(p.rendezvous)| < 0x1_0000
    && (p.grant.Some? ==>
          && |p.grant.value.inviterHex| < 0x1_0000 && |p.grant.value.nonce| < 0x1_0000
          && |p.grant.value.sigHex| < 0x1_0000)
  }

  function GrantFields(g: Option<Grant>): seq<Utf8> {
    if g.Some? then [g.value.inviterHex, g.value.nonce, g.value.sigHex] else [[], [], []]
  }

  function GrantBytes(g: Option<Grant>): Bytes
    requires forall t <- GrantFields(g) :: |t| < 0x1_0000
  {
    var f := GrantFields(g);
    Run16(f[0]) + (Run16(f[1]) + Run16(f[2]))
  }

  /** The extensions an invite of generation `g` carries: none, then one more each time. */
  function Extensions(p: Payload, g: nat, c: Codecs): Bytes
    requires FitsV1(p, c)
  {
    if g == 0 then []
    else
      Run16(Or(p.admin)) +
      (if g == 1 then []
       else Run16(Or(p.relay)) +
            (if g == 2 then [] else Run16(Or(p.rendezvous)) + (if g == 3 then [] else GrantBytes(p.grant))))
  }

  function EncodedV1(p: Payload, g: nat, c: Codecs): Bytes
    requires FitsV1(p, c)
  {
    c.uuidParse(p.circleId).value +
    (p.psk + (BeBytes(p.expires % TWO_64, 8) + (Run8(Or(p.name)) + (Run8(Or(p.peer)) + Extensions(p, g, c)))))
  }

  // ---- What is read ----------------------------------------------------------------

  function AsText(b: Bytes): Result<Utf8, ReadError> {
    if IsUtf8(b) then Ok(b) else Err(BadUtf8)
  }

  /** The name: one more byte must follow it, for the peer's length. */
  function TakeName(s: Bytes): Read<Option<Utf8>>
    requires s != []
  {
    if 1 + s[0] >= |s| then Err(Truncated)
    else if s[0] == 0 then Ok((None, s[1..]))
    else
      var t :- AsText(s[1..1 + s[0]]);
      Ok((Some(t), s[1 + s[0]..]))
  }

  function TakePeer(s: Bytes): Read<Option<Utf8>>
    requires s != []
  {
    if s[0] == 0 then Ok((None, s[1..]))
    else if 1 + s[0] > |s| then Err(Truncated)
    else
      var t :- AsText(s[1..1 + s[0]]);
      Ok((Some(t), s[1 + s[0]..]))
  }

  function Len16(s: Bytes): nat
    requires |s| >= 2
  {
    s[0] as int * 256 + s[1]
  }

  /** An extension that is empty, or runs past the end, is absent: only its length is passed. */
  function TakeExt(s: Bytes): (Option<Bytes>, Bytes) {
    if |s| < 2 then (None, s)
    else if 0 < Len16(s) && 2 + Len16(s) <= |s| then (Some(s[2..2 + Len16(s)]), s[2 + Len16(s)..])
    else (None, s[2..])
  }

  function TakeExtText(s: Bytes): Read<Option<Utf8>> {
    var (b, rest) := TakeExt(s);
    if b.None? then Ok((None, rest))
    else
      var t :- AsText(b.value);
      Ok((Some(t), rest))
  }

  /** Up to `n` fields, stopping at the first that is not all there. */
  function TakeFields(n: nat, s: Bytes): Result<seq<Utf8>, ReadError> {
    if n == 0 || |s| < 2 || 2 + Len16(s) > |s| then Ok([])
    else
      var t :- AsText(s[2..2 + Len16(s)]);
      var more :- TakeFields(n - 1, s[2 + Len16(s)..]);
      Ok([t] + more)
  }

  function GrantOf(fields: seq<Utf8>): Option<Grant> {
    if |fields| == 3 then WholeGrant(fields[0], fields[1], fields[2]) else None
  }

  datatype Fields = Fields(
    name: Option<Utf8>, peer: Option<Utf8>, admin: Option<Bytes>, relay: Option<Utf8>, rendezvous: Option<Utf8>,
    grant: Option<Grant>)

  function TakeRest(s: Bytes): Result<Fields, ReadError>
    requires |s| >= 2
  {
    var (name, s1) :- TakeName(s);
    if s1 == [] then Err(Truncated)
    else
      var (peer, s2) :- TakePeer(s1);
      var (admin, s3) := TakeExt(s2);
      var (relay, s4) :- TakeExtText(s3);
      var (rendezvous, s5) :- TakeExtText(s4);
      var fields :- TakeFields(3, s5);
      Ok(Fields(name, peer, admin, relay, rendezvous, GrantOf(fields)))
  }

  function PayloadV1(id: Uuid, psk: Psk, expires: int, f: Fields, c: Codecs): Payload {
    Payload(c.uuidText(id), psk, expires, f.name, f.peer, f.admin, f.relay, false, f.rendezvous, false, f.grant, [])
  }

  function DecodedV1(raw: Bytes, c: Codecs): Result<Payload, ReadError> {
    if |raw| < MIN_LEN_V1 then Err(TooShort)
    else
      var expires := Signed(FromBe(raw[48..56]));
      if !c.calendar(expires) then Err(BadTime)
      else
        var f :- TakeRest(raw[56..]);
        Ok(PayloadV1(raw[..16], raw[16..48], expires, f, c))
  }

  // ---- The decoder -----------------------------------------------------------------

  method ReadExt(raw: Bytes, offset: nat) returns (ext: Option<Bytes>, next: nat)
    requires offset <= |raw|
    ensures next <= |raw| && (ext, raw[next..]) == TakeExt(raw[offset..])
    ensures if offset + 2 > |raw| then ext == None && next == offset
            else
              var end := offset + 2 + (raw[offset] as int * 256 + raw[offset + 1]);
              if offset + 2 < end <= |raw| then ext == Some(raw[offset + 2..end]) && next == end
              else ext == None && next == offset + 2
  {
    if offset + 2 <= |raw| {
      var len := raw[offset] as int * 256 + raw[offset + 1];
      var start := offset + 2;
      var end := start + len;
      if len > 0 && end <= |raw| {
        assert raw[offset..][2..2 + len] == raw[start..end] && raw[offset..][2 + len..] == raw[end..];
        return Some(raw[start..end]), end;
      }
      return None, start;
    }
    return None, offset;
  }

  method ReadExtText(raw: Bytes, offset: nat) returns (r: Result<(Option<Utf8>, nat), ReadError>)
    requires offset <= |raw|
    ensures match TakeExtText(raw[offset..])
            case Ok((t, rest)) => r.Ok? && r.value.0 == t && r.value.1 <= |raw| && raw[r.value.1..] == rest
            case Err(e) => r == Err(e)
  {
    hide TakeExt, IsUtf8;
    var ext, next := ReadExt(raw, offset);
    if ext.None? {
      return Ok((None, next));
    }
    var t :- AsText(ext.value);
    return Ok((Some(t), next));
  }

  lemma TakeFieldsStep(n: nat, s: Bytes)
    requires n > 0 && |s| >= 2 && 2 + Len16(s) <= |s|
    ensures AsText(s[2..2 + Len16(s)]).Err? ==> TakeFields(n, s) == Err(AsText(s[2..2 + Len16(s)]).error)
    ensures AsText(s[2..2 + Len16(s)]).Ok? ==>
      TakeFields(n, s) == After([AsText(s[2..2 + Len16(s)]).value], TakeFields(n - 1, s[2 + Len16(s)..]))
  {
    hide IsUtf8;
  }

  function After(before: seq<Utf8>, r: Result<seq<Utf8>, ReadError>): Result<seq<Utf8>, ReadError> {
    match r
    case Ok(more) => Ok(before + more)
    case Err(e) => Err(e)
  }

  lemma AfterAfter(a: seq<Utf8>, b: seq<Utf8>, r: Result<seq<Utf8>, ReadError>)
    ensures After(a, After(b, r)) == After(a + b, r)
    ensures After([], r) == r
    ensures forall e :: r == Err(e) ==> After(a, r) == Err(e)
  {
    if r.Ok? {
      assert a + (b + r.value) == (a + b) + r.value && [] + r.value == r.value;
    }
  }

  method ReadFields(raw: Bytes, from: nat) returns (fields: Result<seq<Utf8>, ReadError>)
    requires from <= |raw|
    ensures fields == TakeFields(3, raw[from..])
  {
    hide AsText, IsUtf8;
    var got: seq<Utf8> := [];
    var offset := from;
    ghost var whole := TakeFields(3, raw[from..]);
    AfterAfter([], [], whole);
    for i := 0 to 3
      invariant from <= offset <= |raw|
      invariant whole == After(got, TakeFields(3 - i, raw[offset..]))
    {
      ghost var s := raw[offset..];
      if offset + 2 > |raw| {
        break;
      }
      var len := raw[offset] as int * 256 + raw[offset + 1];
      var start := offset + 2;
      var end := start + len;
      if end > |raw| {
        break;
      }
      assert s[2..2 + Len16(s)] == raw[start..end] && s[2 + Len16(s)..] == raw[end..];
      TakeFieldsStep(3 - i, s);
      var t :- AsText(raw[start..end]);
      AfterAfter(got, [t], TakeFields(2 - i, raw[end..]));
      got := got + [t];
      offset := end;
    }
    assert whole == Ok(got + []);
    assert got + [] == got;
    return Ok(got);
  }

  method ReadName(raw: Bytes) returns (r: Result<Option<Utf8>, ReadError>)
    requires |raw| >= MIN_LEN_V1
    ensures match TakeName(raw[56..])
            case Ok((name, rest)) => r == Ok(name) && 57 + raw[56] < |raw| && rest == raw[57 + raw[56]..]
            case Err(e) => r == Err(e)
  {
    hide IsUtf8;
    var s := raw[56..];
    var len := raw[56];
    if 57 + len >= |raw| {
      return Err(Truncated);
    }
    assert s[0] == len && s[1..1 + len] == raw[57..57 + len] && s[1 + len..] == raw[57 + len..];
    if len == 0 {
      return Ok(None);
    }
    var t :- AsText(raw[57..57 + len]);
    return Ok(Some(t));
  }

  method ReadPeer(raw: Bytes, offset: nat) returns (r: Result<Option<Utf8>, ReadError>)
    requires offset < |raw|
    ensures match TakePeer(raw[offset..])
            case Ok((peer, rest)) =>
              r == Ok(peer) && offset + 1 + raw[offset] <= |raw| && rest == raw[offset + 1 + raw[offset]..]
            case Err(e) => r == Err(e)
  {
    hide IsUtf8;
    var s := raw[offset..];
    var len := raw[offset];
    if len == 0 {
      return Ok(None);
    }
    var start := offset + 1;
    var end := start + len;
    if end > |raw| {
      return Err(Truncated);
    }
    assert s[1..1 + len] == raw[start..end] && s[1 + len..] == raw[end..];
    var t :- AsText(raw[start..end]);
    return Ok(Some(t));
  }

  method ReadRest(raw: Bytes) returns (r: Result<Fields, ReadError>)
    requires |raw| >= MIN_LEN_V1
    ensures r == TakeRest(raw[56..])
  {
    hide TakeName, TakePeer, TakeExt, TakeExtText, TakeFields;
    var name :- ReadName(raw);
    var peerOffset: nat := 57 + raw[56] as int;
    var peer :- ReadPeer(raw, peerOffset);
    var admin, ext2 := ReadExt(raw, peerOffset + 1 + raw[peerOffset]);
    var relay :- ReadExtText(raw, ext2);
    var rendezvous :- ReadExtText(raw, relay.1);
    var fields :- ReadFields(raw, rendezvous.1);
    return Ok(Fields(name, peer, admin, relay.0, rendezvous.0, GrantOf(fields)));
  }

  method DecodeV1(raw: Bytes, c: Codecs) returns (p: Result<Payload, ReadError>)
    ensures p == DecodedV1(raw, c)
  {
    hide TakeRest, FromBe, Signed;
    if |raw| < MIN_LEN_V1 {
      return Err(TooShort);
    }
    var id, psk := raw[..16], raw[16..48];
    var expires := Signed(FromBe(raw[48..56]));
    if !c.calendar(expires) {
      return Err(BadTime);
    }
    var f :- ReadRest(raw);
    return Ok(PayloadV1(id, psk, expires, f, c));
  }

  // ---- What is read from any bytes -------------------------------------------------

  /** Whatever bytes are accepted, the id, key and time stand at their offsets, the time as
      a signed big-endian number; name and peer are there exactly when their length bytes
      are not zero; v1 has no default servers and no relays, and no grant has an empty
      field. Fewer than 58 bytes are refused as too few, and no others. */
  lemma AcceptedV1IsLaidOut(raw: Bytes, c: Codecs)
    ensures DecodedV1(raw, c) == Err(TooShort) <==> |raw| < 58
    ensures DecodedV1(raw, c) == Err(BadTime) <==> |raw| >= 58 && !c.calendar(Signed(FromBe(raw[48..56])))
    ensures DecodedV1(raw, c).Ok? ==>
              var p, n := DecodedV1(raw, c).value, raw[56] as int;
              && p.circleId == c.uuidText(raw[..16]) && p.psk == raw[16..48]
              && p.expires == Signed(FromBe(raw[48..56])) && c.calendar(p.expires)
              && 57 + n < |raw| && (if n == 0 then p.name == None else p.name == Some(raw[57..57 + n]))
              && var m := raw[57 + n] as int;
              && 58 + n + m <= |raw| && (if m == 0 then p.peer == None else p.peer == Some(raw[58 + n..58 + n + m]))
              && !p.relayDefault && !p.rendezvousDefault && p.relays == []
              && (p.grant.Some? ==>
                    p.grant.value.inviterHex != [] && p.grant.value.nonce != [] && p.grant.value.sigHex != [])
  {
    hide FromBe, Signed, IsUtf8;
    if |raw| >= 58 {
      RestIsLaidOut(raw);
    }
    hide TakeRest;
  }

  lemma RestIsLaidOut(raw: Bytes)
    requires |raw| >= 58
    ensures TakeRest(raw[56..]) != Err(TooShort) && TakeRest(raw[56..]) != Err(BadTime)
    ensures TakeRest(raw[56..]).Ok? ==>
              var f, n := TakeRest(raw[56..]).value, raw[56] as int;
              && 57 + n < |raw| && (if n == 0 then f.name == None else f.name == Some(raw[57..57 + n]))
              && var m := raw[57 + n] as int;
              && 58 + n + m <= |raw| && (if m == 0 then f.peer == None else f.peer == Some(raw[58 + n..58 + n + m]))
              && (f.grant.Some? ==>
                    f.grant.value.inviterHex != [] && f.grant.value.nonce != [] && f.grant.value.sigHex != [])
  {
    hide IsUtf8, TakeExt;
    var s, n := raw[56..], raw[56] as int;
    if TakeName(s).Ok? {
      assert s[1..1 + n] == raw[57..57 + n] && s[1 + n..] == raw[57 + n..];
      var s1 := raw[57 + n..];
      var m := raw[57 + n] as int;
      if TakePeer(s1).Ok? {
        assert s1[1..1 + m] == raw[58 + n..58 + n + m] && s1[1 + m..] == raw[58 + n + m..];
        var s3 := TakeExt(s1[1 + m..]).1;
        var relay := TakeExtText(s3);
        if relay.Ok? {
          var rendezvous := TakeExtText(relay.value.1);
          if rendezvous.Ok? {
            FieldsErr(3, rendezvous.value.1);
          }
        }
      }
    }
  }

  lemma {:induction false} FieldsErr(n: nat, s: Bytes)
    ensures TakeFields(n, s).Err? ==> TakeFields(n, s).error == BadUtf8
  {
    hide IsUtf8;
    if n > 0 && |s| >= 2 && 2 + Len16(s) <= |s| {
      FieldsErr(n - 1, s[2 + Len16(s)..]);
    }
  }

  /** Numbers stand most significant byte first, and the top bit makes them negative. */
  lemma TimesAreSigned(high: byte, low: byte)
    ensures FromBe([high, low]) == high as int * 256 + low
    ensures forall n :: 0 <= n < 0x8000_0000_0000_0000 ==> Signed(n) == n
    ensures Signed(0xFFFF_FFFF_FFFF_FFFF) == -1 && Signed(0x8000_0000_0000_0000) == -0x8000_0000_0000_0000
  {
    assert [high, low][..1] == [high] && [high][..0] == [];
    assert FromBe([]) == 0 && FromBe([high]) == high as int;
  }

  // ---- Historical links keep their meaning -----------------------------------------

  /** v1 writes an absent field and an empty one alike. */
  function NonEmpty(o: Option<Bytes>): Option<Bytes> {
    if o == Some([]) then None else o
  }

  function NonEmptyText(o: Option<Utf8>): Option<Utf8> {
    if o == Some([]) then None else o
  }

  /** What an invite of generation `g` carried of a payload. */
  function NormalV1(p: Payload, g: nat, c: Codecs): Payload
    requires FitsV1(p, c)
  {
    var f := GrantFields(p.grant);
    Payload(c.uuidText(c.uuidParse(p.circleId).value), p.psk, p.expires, NonEmptyText(p.name), NonEmptyText(p.peer),
            if g >= 1 then NonEmpty(p.admin) else None,
            if g >= 2 then NonEmptyText(p.relay) else None, false,
            if g >= 3 then NonEmptyText(p.rendezvous) else None, false,
            if g >= 4 then WholeGrant(f[0], f[1], f[2]) else None, [])
  }

  function Pow256(k: nat): (n: nat)
    ensures n > 0
  {
    if k == 0 then 1 else 256 * Pow256(k - 1)
  }

  lemma {:induction false} BeReads(n: nat, k: nat)
    requires n < Pow256(k)
    ensures FromBe(BeBytes(n, k)) == n
  {
    if k > 0 {
      BeReads(n / 256, k - 1);
      assert BeBytes(n, k)[..k - 1] == BeBytes(n / 256, k - 1);
    }
  }

  lemma TimestampReads(t: int)
    requires -(TWO_64 / 2 as int) <= t < TWO_64 / 2
    ensures Signed(FromBe(BeBytes(t % TWO_64, 8))) == t
  {
    assert Pow256(8) == TWO_64 by {
      assert Pow256(2) == 0x1_0000 && Pow256(4) == 0x1_0000_0000 && Pow256(6) == 0x1_0000_0000_0000;
    }
    BeReads(t % TWO_64, 8);
    assert t % TWO_64 == if t < 0 then t + TWO_64 else t;
  }

  lemma NameReads(o: Option<Utf8>, rest: Bytes)
    requires |Or(o)| < 256 && rest != []
    ensures TakeName(Run8(Or(o)) + rest) == Ok((NonEmptyText(o), rest))
  {
    hide IsUtf8;
    var s := Run8(Or(o)) + rest;
    assert s[1..1 + |Or(o)|] == Or(o) && s[1 + |Or(o)|..] == rest;
  }

  lemma PeerReads(o: Option<Utf8>, rest: Bytes)
    requires |Or(o)| < 256
    ensures TakePeer(Run8(Or(o)) + rest) == Ok((NonEmptyText(o), rest))
  {
    hide IsUtf8;
    var s := Run8(Or(o)) + rest;
    assert s[1..1 + |Or(o)|] == Or(o) && s[1 + |Or(o)|..] == rest;
  }

  lemma Run16Reads(b: Bytes, rest: Bytes)
    requires |b| < 0x1_0000
    ensures var s := Run16(b) + rest;
            |s| >= 2 + |b| && Len16(s) == |b| && s[2..2 + |b|] == b && s[2 + |b|..] == rest
  {
    var s := Run16(b) + rest;
    assert s[2..2 + |b|] == b && s[2 + |b|..] == rest;
  }

  lemma ExtReads(o: Option<Bytes>, rest: Bytes)
    requires |Or(o)| < 0x1_0000
    ensures TakeExt(Run16(Or(o)) + rest) == (NonEmpty(o), rest)
  {
    hide Run16, Len16;
    Run16Reads(Or(o), rest);
  }

  lemma ExtTextReads(o: Option<Utf8>, rest: Bytes)
    requires |Or(o)| < 0x1_0000
    ensures TakeExtText(Run16(Or(o)) + rest) == Ok((NonEmptyText(o), rest))
  {
    hide Run16, TakeExt, IsUtf8;
    ExtReads(o, rest);
    if o.Some? && o.value != [] {
      assert NonEmpty(o) == Some(o.value);
      assert AsText(o.value) == Ok(o.value);
    } else {
      assert NonEmpty(o) == None;
    }
  }

  lemma FieldReads(t: Utf8, n: nat, rest: Bytes)
    requires |t| < 0x1_0000
    ensures TakeFields(n + 1, Run16(t) + rest) == After([t], TakeFields(n, rest))
  {
    hide Run16, IsUtf8, Len16;
    Run16Reads(t, rest);
    assert AsText(t) == Ok(t);
  }

  lemma GrantReads(g: Option<Grant>)
    requires forall t <- GrantFields(g) :: |t| < 0x1_0000
    ensures TakeFields(3, GrantBytes(g)) == Ok(GrantFields(g))
  {
    hide Run16, TakeFields;
    var f := GrantFields(g);
    var s2 := Run16(f[2]) + [];
    FieldReads(f[2], 0, []);
    FieldReads(f[1], 1, s2);
    FieldReads(f[0], 2, Run16(f[1]) + s2);
    NoFields([]);
    assert GrantBytes(g) == Run16(f[0]) + (Run16(f[1]) + s2);
    assert [f[0]] + ([f[1]] + ([f[2]] + [])) == f;
  }

  lemma NoFields(s: Bytes)
    ensures |s| < 2 ==> forall n :: TakeFields(n, s) == Ok([])
    ensures TakeFields(0, s) == Ok([])
  {
  }

  lemma NoExtension()
    ensures TakeExt([]) == (None, []) && TakeExtText([]) == Ok((None, []))
  {
  }

  /** What follows the peer reads back as the extensions the invite's generation wrote. */
  lemma ExtensionsRead(p: Payload, g: nat, c: Codecs)
    requires FitsV1(p, c)
    ensures var f := GrantFields(p.grant);
            var (admin, s1) := TakeExt(Extensions(p, g, c));
            && admin == (if g >= 1 then NonEmpty(p.admin) else None)
            && var relay := TakeExtText(s1);
            && relay.Ok? && relay.value.0 == (if g >= 2 then NonEmptyText(p.relay) else None)
            && var rendezvous := TakeExtText(relay.value.1);
            && rendezvous.Ok? && rendezvous.value.0 == (if g >= 3 then NonEmptyText(p.rendezvous) else None)
            && var fields := TakeFields(3, rendezvous.value.1);
            && fields.Ok? && GrantOf(fields.value) == (if g >= 4 then WholeGrant(f[0], f[1], f[2]) else None)
  {
    hide Run16, TakeExt, TakeExtText, TakeFields, NonEmpty, NonEmptyText, GrantBytes;
    var e4 := if g <= 3 then [] else GrantBytes(p.grant);
    var e3 := if g <= 2 then [] else Run16(Or(p.rendezvous)) + e4;
    var e2 := if g <= 1 then [] else Run16(Or(p.relay)) + e3;
    NoExtension();
    NoFields([]);
    if g >= 1 { ExtReads(p.admin, e2); }
    if g >= 2 { ExtTextReads(p.relay, e3); }
    if g >= 3 { ExtTextReads(p.rendezvous, e4); }
    if g >= 4 { GrantReads(p.grant); }
  }

  /** A v1 link of any generation decodes to exactly what its generation carried. */
  lemma EveryGenerationReads(p: Payload, g: nat, c: Codecs)
    requires FitsV1(p, c)
    ensures DecodedV1(EncodedV1(p, g, c), c) == Ok(NormalV1(p, g, c))
  {
    hide Run8, Extensions, TakeName, TakePeer, TakeExt, TakeExtText, TakeFields, BeBytes, FromBe, Signed;
    hide GrantFields, GrantOf, WholeGrant, NonEmpty, NonEmptyText;
    var id := c.uuidParse(p.circleId).value;
    var ts := BeBytes(p.expires % TWO_64, 8);
    var extensions := Extensions(p, g, c);
    var s1 := Run8(Or(p.peer)) + extensions;
    var s0 := Run8(Or(p.name)) + s1;
    var raw := EncodedV1(p, g, c);
    RunsAreLong(Or(p.name), Or(p.peer));
    assert raw == id + (p.psk + (ts + s0));
    assert raw[..16] == id && raw[16..48] == p.psk && raw[48..56] == ts && raw[56..] == s0;
    TimestampReads(p.expires);
    NameReads(p.name, s1);
    PeerReads(p.peer, extensions);
    ExtensionsRead(p, g, c);
  }

  lemma RunsAreLong(a: Bytes, b: Bytes)
    requires |a| < 256 && |b| < 256
    ensures |Run8(a)| >= 1 && |Run8(b)| >= 1
  {
  }
}
