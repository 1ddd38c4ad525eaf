/** The v2 and v3 invite payloads (`src/invite.rs`): flags saying which fields follow, then
    the fields. Decoding inverts encoding up to a stated normalisation. */
module Invite {
  import opened Octets
  import opened Wrappers
  import opened Wire

  const MIN_LEN_V2: nat := 53

  const FLAG_NAME: byte := 0x01
  const FLAG_PEER: byte := 0x02
  const FLAG_ADMIN: byte := 0x04
  const FLAG_RELAY_ADDR: byte := 0x08
  const FLAG_RELAY_DEFAULT: byte := 0x10
  const FLAG_RENDEZVOUS_ADDR: byte := 0x20
  const FLAG_RENDEZVOUS_DEFAULT: byte := 0x40
  const FLAG_GRANT: byte := 0x80
  const ADDR_BINARY: byte := 0
  const ADDR_TEXT: byte := 1
  const NONCE_UUID: byte := 0
  const NONCE_TEXT: byte := 1

  const FLAG2_IROH: byte := 0x01
  const FLAG2_IROH_RELAYS: byte := 0x02

  datatype Grant = Grant(inviterHex: Utf8, nonce: Utf8, sigHex: Utf8)

  type Psk = b: Bytes | |b| == 32 witness seq(32, i => 0)

  datatype Payload = Payload(
    circleId: Utf8, psk: Psk, expires: int, name: Option<Utf8>, peer: Option<Utf8>, admin: Option<Bytes>,
    relay: Option<Utf8>, relayDefault: bool, rendezvous: Option<Utf8>, rendezvousDefault: bool,
    grant: Option<Grant>, relays: seq<Utf8>)

  type Uuid = b: Bytes | |b| == 16 witness seq(16, i => 0)

  /** UUID and multiaddr conversions, white-space trimming, and which Unix timestamps a
      calendar date can carry (every `u32` is one). */
  datatype Codecs = Codecs(
    uuidParse: Utf8 -> Option<Uuid>, uuidText: Uuid -> Utf8,
    addrParse: Utf8 -> Option<Bytes>, addrText: Bytes -> Option<Utf8>, trim: Utf8 -> Utf8,
    calendar: int -> bool)

  /** A multiaddr's bytes read back as some text. */
  ghost predicate AddrsRead(c: Codecs) {
    forall a {:trigger c.addrParse(a)} :: c.addrParse(a).Some? ==> c.addrText(c.addrParse(a).value).Some?
  }

  /** The text each codec prints is text it parses to the same bytes, with nothing to trim. */
  ghost predicate Lawful(c: Codecs) {
    && AddrsRead(c)
    && (forall id :: c.uuidParse(c.uuidText(id)) == Some(id))
    && (forall a {:trigger c.addrParse(a)} ::
          c.addrParse(a).Some? ==> c.addrParse(c.addrText(c.addrParse(a).value).value) == c.addrParse(a))
    && (forall b: Bytes :: c.trim(HexText(b)) == HexText(b))
  }

  datatype EncodeError = BadCircleId | ExpiryOutOfRange | InviterNotHex | SignatureNotHex | TooManyRelays

  // ---- Flags -----------------------------------------------------------------------

  function Bit(on: bool, flag: byte): byte {
    if on then flag else 0
  }

  predicate HasFlag(flags: byte, flag: byte)
    requires flag > 0
  {
    flags / flag % 2 == 1
  }

  /** The flags a payload's encoding carries: an explicit address wins over the default. */
  function Flags(p: Payload): byte {
    Bit(p.name.Some?, FLAG_NAME) + Bit(p.peer.Some?, FLAG_PEER) + Bit(p.admin.Some?, FLAG_ADMIN) +
    Bit(p.relay.Some?, FLAG_RELAY_ADDR) + Bit(p.relay.None? && p.relayDefault, FLAG_RELAY_DEFAULT) +
    Bit(p.rendezvous.Some?, FLAG_RENDEZVOUS_ADDR) +
    Bit(p.rendezvous.None? && p.rendezvousDefault, FLAG_RENDEZVOUS_DEFAULT) + Bit(p.grant.Some?, FLAG_GRANT)
  }

  function Flags2(p: Payload): byte {
    FLAG2_IROH + Bit(p.relays != [], FLAG2_IROH_RELAYS)
  }

  function One(on: bool): (n: nat)
    ensures n <= 1
  {
    if on then 1 else 0
  }

  function FourBits(a: bool, b: bool, c: bool, d: bool): (n: nat)
    ensures n < 16
  {
    One(a) + 2 * One(b) + 4 * One(c) + 8 * One(d)
  }

  lemma FlagsSplit(p: Payload)
    ensures Flags(p) == FourBits(p.name.Some?, p.peer.Some?, p.admin.Some?, p.relay.Some?) +
              16 * FourBits(p.relay.None? && p.relayDefault, p.rendezvous.Some?,
                            p.rendezvous.None? && p.rendezvousDefault, p.grant.Some?)
  {
  }

  lemma NonzeroMultiple(d: nat, k: int)
    requires k != 0
    ensures d * k >= d || d * k + d <= 0
  {
    if k > 0 {
      assert d * (k - 1) >= 0;
    } else {
      assert d * (-k - 1) >= 0;
    }
  }

  /** The quotient is the only one with a remainder below the divisor. */
  lemma Quotient(x: nat, d: nat, q: nat, low: nat)
    requires x == d * q + low && low < d
    ensures x / d == q
  {
    var rest := x / d - q;
    assert x == d * (x / d) + x % d;
    assert d * rest == low - x % d;
    if rest != 0 {
      NonzeroMultiple(d, rest);
    }
  }

  lemma ReadBit(flags: byte, low: nat, on: bool, high: nat, flag: byte)
    requires low < flag && flags == flag * (One(on) + 2 * high) + low
    ensures HasFlag(flags, flag) == on
  {
    Quotient(flags, flag, One(on) + 2 * high, low);
  }

  lemma LowBitsRead(f: byte, a: bool, b: bool, c: bool, d: bool, rest: nat)
    requires f == FourBits(a, b, c, d) + 16 * rest
    ensures HasFlag(f, 1) == a && HasFlag(f, 2) == b && HasFlag(f, 4) == c && HasFlag(f, 8) == d
  {
    hide HasFlag, One;
    ReadBit(f, 0, a, One(b) + 2 * One(c) + 4 * One(d) + 8 * rest, 1);
    ReadBit(f, One(a), b, One(c) + 2 * One(d) + 4 * rest, 2);
    ReadBit(f, One(a) + 2 * One(b), c, One(d) + 2 * rest, 4);
    ReadBit(f, One(a) + 2 * One(b) + 4 * One(c), d, rest, 8);
  }

  lemma HighBitsRead(f: byte, low: nat, a: bool, b: bool, c: bool, d: bool)
    requires low < 16 && f == low + 16 * FourBits(a, b, c, d)
    ensures HasFlag(f, 16) == a && HasFlag(f, 32) == b && HasFlag(f, 64) == c && HasFlag(f, 128) == d
  {
    hide HasFlag, One;
    ReadBit(f, low, a, One(b) + 2 * One(c) + 4 * One(d), 16);
    ReadBit(f, low + 16 * One(a), b, One(c) + 2 * One(d), 32);
    ReadBit(f, low + 16 * One(a) + 32 * One(b), c, One(d), 64);
    ReadBit(f, low + 16 * One(a) + 32 * One(b) + 64 * One(c), d, 0, 128);
  }

  /** Every flag reads back as the condition it was set on. */
  lemma FlagsRead(p: Payload)
    ensures HasFlag(Flags(p), FLAG_NAME) == p.name.Some?
    ensures HasFlag(Flags(p), FLAG_PEER) == p.peer.Some?
    ensures HasFlag(Flags(p), FLAG_ADMIN) == p.admin.Some?
    ensures HasFlag(Flags(p), FLAG_RELAY_ADDR) == p.relay.Some?
    ensures HasFlag(Flags(p), FLAG_RELAY_DEFAULT) == (p.relay.None? && p.relayDefault)
    ensures HasFlag(Flags(p), FLAG_RENDEZVOUS_ADDR) == p.rendezvous.Some?
    ensures HasFlag(Flags(p), FLAG_RENDEZVOUS_DEFAULT) == (p.rendezvous.None? && p.rendezvousDefault)
    ensures HasFlag(Flags(p), FLAG_GRANT) == p.grant.Some?
  {
    hide HasFlag, Flags, One, FourBits;
    FlagsSplit(p);
    var low := FourBits(p.name.Some?, p.peer.Some?, p.admin.Some?, p.relay.Some?);
    var high := FourBits(p.relay.None? && p.relayDefault, p.rendezvous.Some?,
                         p.rendezvous.None? && p.rendezvousDefault, p.grant.Some?);
    LowBitsRead(Flags(p), p.name.Some?, p.peer.Some?, p.admin.Some?, p.relay.Some?, high);
    HighBitsRead(Flags(p), low, p.relay.None? && p.relayDefault, p.rendezvous.Some?,
                 p.rendezvous.None? && p.rendezvousDefault, p.grant.Some?);
  }

  lemma Flags2Read(p: Payload)
    ensures HasFlag(Flags2(p), FLAG2_IROH) && HasFlag(Flags2(p), FLAG2_IROH_RELAYS) == (p.relays != [])
  {
  }

  // ---- What is written -------------------------------------------------------------

  function Addr(a: Utf8, c: Codecs): Bytes {
    match c.addrParse(a)
    case Some(m) => [ADDR_BINARY] + Run(m)
    case None => [ADDR_TEXT] + Run(a)
  }

  function Nonce(n: Utf8, c: Codecs): Bytes {
    match c.uuidParse(n)
    case Some(id) => [NONCE_UUID] + id
    case None => [NONCE_TEXT] + Run(n)
  }

  function OptRun(o: Option<Bytes>): Bytes {
    if o.Some? then Run(o.value) else []
  }

  function OptAddr(o: Option<Utf8>, c: Codecs): Bytes {
    if o.Some? then Addr(o.value, c) else []
  }

  function Unhex(t: Utf8, c: Codecs): Option<Bytes> {
    FromHex(c.trim(t))
  }

  function GrantRefuses(g: Option<Grant>, c: Codecs): Option<EncodeError> {
    if g.Some? && Unhex(g.value.inviterHex, c).None? then Some(InviterNotHex)
    else if g.Some? && Unhex(g.value.sigHex, c).None? then Some(SignatureNotHex)
    else None
  }

  function OptGrant(g: Option<Grant>, c: Codecs): Bytes
    requires GrantRefuses(g, c).None?
  {
    if g.None? then []
    else Run(Unhex(g.value.inviterHex, c).value) + Nonce(g.value.nonce, c) + Run(Unhex(g.value.sigHex, c).value)
  }

  function Texts(ts: seq<Utf8>): Bytes {
    if ts == [] then [] else Texts(ts[..|ts| - 1]) + Run(ts[|ts| - 1])
  }

  function Relays(relays: seq<Utf8>): Bytes
    requires |relays| <= 255
  {
    if relays == [] then [] else [|relays|] + Texts(relays)
  }

  /** The first reason, in the order the encoder meets them, a payload cannot be carried. */
  function EncodeRefuses(p: Payload, v3: bool, c: Codecs): Option<EncodeError> {
    if c.uuidParse(p.circleId).None? then Some(BadCircleId)
    else if !(0 <= p.expires < 0x1_0000_0000) then Some(ExpiryOutOfRange)
    else if GrantRefuses(p.grant, c).Some? then GrantRefuses(p.grant, c)
    else if v3 && |p.relays| > 255 then Some(TooManyRelays)
    else None
  }

  function Head(p: Payload, v3: bool, id: Uuid, expires: nat): Bytes
    requires expires < 0x1_0000_0000
  {
    [Flags(p)] + (if v3 then [Flags2(p)] else []) + id + p.psk + Be32(expires)
  }

  function Names(p: Payload, c: Codecs): Bytes {
    OptRun(p.name) + OptAddr(p.peer, c) + OptRun(p.admin)
  }

  function Servers(p: Payload, c: Codecs): Bytes {
    OptAddr(p.relay, c) + OptAddr(p.rendezvous, c)
  }

  function Encoded(p: Payload, v3: bool, c: Codecs): Bytes
    requires EncodeRefuses(p, v3, c).None?
  {
    Head(p, v3, c.uuidParse(p.circleId).value, p.expires) + Names(p, c) + Servers(p, c) + OptGrant(p.grant, c) +
    (if v3 then Relays(p.relays) else [])
  }

  // ---- The encoder -----------------------------------------------------------------

  lemma Assoc(a: Bytes, b: Bytes, c: Bytes)
    ensures (a + b) + c == a + (b + c)
  {
  }

  method PutAddr(out: Bytes, a: Utf8, c: Codecs) returns (r: Bytes)
    ensures r == out + Addr(a, c)
  {
    var parsed := c.addrParse(a);
    if parsed.Some? {
      r := PutBytes(out + [ADDR_BINARY], parsed.value);
    } else {
      r := PutBytes(out + [ADDR_TEXT], a);
    }
  }

  method PutNonce(out: Bytes, n: Utf8, c: Codecs) returns (r: Bytes)
    ensures r == out + Nonce(n, c)
  {
    var id := c.uuidParse(n);
    if id.Some? {
      r := out + [NONCE_UUID] + id.value;
    } else {
      r := PutBytes(out + [NONCE_TEXT], n);
    }
  }

  method PutFlags(p: Payload) returns (flags: byte)
    ensures flags == Flags(p)
  {
    flags := 0;
    if p.name.Some? { flags := flags + FLAG_NAME; }
    if p.peer.Some? { flags := flags + FLAG_PEER; }
    if p.admin.Some? { flags := flags + FLAG_ADMIN; }
    if p.relay.Some? {
      flags := flags + FLAG_RELAY_ADDR;
    } else if p.relayDefault {
      flags := flags + FLAG_RELAY_DEFAULT;
    }
    if p.rendezvous.Some? {
      flags := flags + FLAG_RENDEZVOUS_ADDR;
    } else if p.rendezvousDefault {
      flags := flags + FLAG_RENDEZVOUS_DEFAULT;
    }
    if p.grant.Some? { flags := flags + FLAG_GRANT; }
  }

  method PutHead(p: Payload, v3: bool, id: Uuid, expires: nat) returns (raw: Bytes)
    requires expires < 0x1_0000_0000
    ensures raw == Head(p, v3, id, expires)
  {
    hide Flags, Be32;
    var flags := PutFlags(p);
    raw := [flags];
    if v3 {
      var flags2 := FLAG2_IROH;
      if p.relays != [] { flags2 := flags2 + FLAG2_IROH_RELAYS; }
      raw := raw + [flags2];
    }
    raw := raw + id;
    raw := raw + p.psk;
    raw := raw + Be32(expires);
  }

  method PutNames(out: Bytes, p: Payload, c: Codecs) returns (raw: Bytes)
    ensures raw == out + Names(p, c)
  {
    hide Run, Addr;
    raw := out;
    if p.name.Some? { raw := PutBytes(raw, p.name.value); }
    assert raw == out + OptRun(p.name);
    if p.peer.Some? { raw := PutAddr(raw, p.peer.value, c); }
    assert raw == out + (OptRun(p.name) + OptAddr(p.peer, c));
    if p.admin.Some? { raw := PutBytes(raw, p.admin.value); }
  }

  method PutServers(out: Bytes, p: Payload, c: Codecs) returns (raw: Bytes)
    ensures raw == out + Servers(p, c)
  {
    hide Addr;
    raw := out;
    if p.relay.Some? { raw := PutAddr(raw, p.relay.value, c); }
    assert raw == out + OptAddr(p.relay, c);
    if p.rendezvous.Some? { raw := PutAddr(raw, p.rendezvous.value, c); }
  }

  method PutGrant(out: Bytes, g: Grant, c: Codecs) returns (r: Result<Bytes, EncodeError>)
    ensures GrantRefuses(Some(g), c).Some? ==> r == Err(GrantRefuses(Some(g), c).value)
    ensures GrantRefuses(Some(g), c).None? ==> r == Ok(out + OptGrant(Some(g), c))
  {
    hide Run, Nonce;
    var inviter := FromHex(c.trim(g.inviterHex));
    if inviter.None? {
      return Err(InviterNotHex);
    }
    var raw := PutBytes(out, inviter.value);
    raw := PutNonce(raw, g.nonce, c);
    var sig := FromHex(c.trim(g.sigHex));
    if sig.None? {
      return Err(SignatureNotHex);
    }
    assert raw == out + (Run(inviter.value) + Nonce(g.nonce, c));
    raw := PutBytes(raw, sig.value);
    Assoc(out, Run(inviter.value) + Nonce(g.nonce, c), Run(sig.value));
    return Ok(raw);
  }

  method PutRelays(out: Bytes, relays: seq<Utf8>) returns (raw: Bytes)
    requires 0 < |relays| <= 255
    ensures raw == out + Relays(relays)
  {
    hide Run;
    raw := out + [|relays|];
    for i := 0 to |relays|
      invariant raw == out + [|relays|] + Texts(relays[..i])
    {
      assert relays[..i + 1][..i] == relays[..i];
      Assoc(out + [|relays|], Texts(relays[..i]), Run(relays[i]));
      raw := PutBytes(raw, relays[i]);
    }
    assert relays[..|relays|] == relays;
    Assoc(out, [|relays|], Texts(relays));
  }

  /** Encode a payload; `v3` is what every invite is minted as. */
  method EncodeWith(p: Payload, v3: bool, c: Codecs) returns (r: Result<Bytes, EncodeError>)
    ensures EncodeRefuses(p, v3, c).Some? ==> r == Err(EncodeRefuses(p, v3, c).value)
    ensures EncodeRefuses(p, v3, c).None? ==> r == Ok(Encoded(p, v3, c))
  {
    hide Head, Names, Servers, Texts;
    var id := c.uuidParse(p.circleId);
    if id.None? {
      return Err(BadCircleId);
    }
    if p.expires < 0 || p.expires >= 0x1_0000_0000 {
      return Err(ExpiryOutOfRange);
    }
    var raw := PutHead(p, v3, id.value, p.expires);
    raw := PutNames(raw, p, c);
    raw := PutServers(raw, p, c);
    if p.grant.Some? {
      raw :- PutGrant(raw, p.grant.value, c);
    }
    assert raw + [] == raw;
    if !v3 {
      return Ok(raw);
    }
    if p.relays != [] {
      if |p.relays| > 255 {
        return Err(TooManyRelays);
      }
      raw := PutRelays(raw, p.relays);
    }
    return Ok(raw);
  }

  // ---- What is read ----------------------------------------------------------------

  function TakeAddr(s: Bytes, c: Codecs): Read<Utf8> {
    var (tag, rest) :- TakeByte(s);
    if tag == ADDR_BINARY then
      var (m, after) :- TakeRun(rest);
      match c.addrText(m)
      case Some(t) => Ok((t, after))
      case None => Err(BadAddress)
    else if tag == ADDR_TEXT then TakeText(rest)
    else Err(BadTag)
  }

  function TakeNonce(s: Bytes, c: Codecs): Read<Utf8> {
    var (tag, rest) :- TakeByte(s);
    if tag == NONCE_UUID then
      var (id, after) :- Take(rest, 16);
      Ok((c.uuidText(id), after))
    else if tag == NONCE_TEXT then TakeText(rest)
    else Err(BadTag)
  }

  function OptTakeRun(present: bool, s: Bytes): Read<Option<Bytes>> {
    if !present then Ok((None, s))
    else
      var (b, rest) :- TakeRun(s);
      Ok((Some(b), rest))
  }

  function OptTakeText(present: bool, s: Bytes): Read<Option<Utf8>> {
    if !present then Ok((None, s))
    else
      var (t, rest) :- TakeText(s);
      Ok((Some(t), rest))
  }

  function OptTakeAddr(present: bool, s: Bytes, c: Codecs): Read<Option<Utf8>> {
    if !present then Ok((None, s))
    else
      var (t, rest) :- TakeAddr(s, c);
      Ok((Some(t), rest))
  }

  /** A grant with an empty field is no grant at all. */
  function WholeGrant(inviterHex: Utf8, nonce: Utf8, sigHex: Utf8): Option<Grant> {
    if inviterHex == [] || nonce == [] || sigHex == [] then None else Some(Grant(inviterHex, nonce, sigHex))
  }

  function OptTakeGrant(present: bool, s: Bytes, c: Codecs): Read<Option<Grant>> {
    if !present then Ok((None, s))
    else
      var (inviter, s1) :- TakeRun(s);
      var (nonce, s2) :- TakeNonce(s1, c);
      var (sig, rest) :- TakeRun(s2);
      Ok((WholeGrant(HexText(inviter), nonce, HexText(sig)), rest))
  }

  function TakeTexts(n: nat, s: Bytes): Read<seq<Utf8>> {
    if n == 0 then Ok(([], s))
    else
      var (t, rest) :- TakeText(s);
      Prefixed([t], TakeTexts(n - 1, rest))
  }

  function Prefixed(ts: seq<Utf8>, r: Read<seq<Utf8>>): Read<seq<Utf8>> {
    match r
    case Ok((more, rest)) => Ok((ts + more, rest))
    case Err(e) => Err(e)
  }

  function OptTakeRelays(present: bool, s: Bytes): Read<seq<Utf8>> {
    if !present then Ok(([], s))
    else
      var (n, rest) :- TakeByte(s);
      TakeTexts(n, rest)
  }

  datatype Header = Header(flags: byte, flags2: byte, id: Uuid, psk: Psk, expires: nat)

  function MinLen(v3: bool): nat {
    if v3 then MIN_LEN_V2 + 1 else MIN_LEN_V2
  }

  function TakeHead(s: Bytes, v3: bool): Read<Header> {
    if |s| < MinLen(v3) then Err(TooShort)
    else
      var (flags, s1) :- TakeByte(s);
      var (flags2, s2) :- if v3 then TakeByte(s1) else Ok((0, s1));
      var (id, s3) :- Take(s2, 16);
      var (psk, s4) :- Take(s3, 32);
      var (ts, rest) :- Take(s4, 4);
      Ok((Header(flags, flags2, id, psk, FromBe32(ts)), rest))
  }

  datatype NameFields = NameFields(name: Option<Utf8>, peer: Option<Utf8>, admin: Option<Bytes>)

  datatype ServerFields = ServerFields(relay: Option<Utf8>, rendezvous: Option<Utf8>)

  function TakeNames(s: Bytes, flags: byte, c: Codecs): Read<NameFields> {
    var (name, s1) :- OptTakeText(HasFlag(flags, FLAG_NAME), s);
    var (peer, s2) :- OptTakeAddr(HasFlag(flags, FLAG_PEER), s1, c);
    var (admin, rest) :- OptTakeRun(HasFlag(flags, FLAG_ADMIN), s2);
    Ok((NameFields(name, peer, admin), rest))
  }

  function TakeServers(s: Bytes, flags: byte, c: Codecs): Read<ServerFields> {
    var (relay, s1) :- OptTakeAddr(HasFlag(flags, FLAG_RELAY_ADDR), s, c);
    var (rendezvous, rest) :- OptTakeAddr(HasFlag(flags, FLAG_RENDEZVOUS_ADDR), s1, c);
    Ok((ServerFields(relay, rendezvous), rest))
  }

  /** A default flag only means anything when no address was carried. */
  function Assembled(h: Header, n: NameFields, z: ServerFields, grant: Option<Grant>, relays: seq<Utf8>, c: Codecs)
    : Payload
  {
    Payload(c.uuidText(h.id), h.psk, h.expires, n.name, n.peer, n.admin,
            z.relay, HasFlag(h.flags, FLAG_RELAY_DEFAULT) && !HasFlag(h.flags, FLAG_RELAY_ADDR),
            z.rendezvous, HasFlag(h.flags, FLAG_RENDEZVOUS_DEFAULT) && !HasFlag(h.flags, FLAG_RENDEZVOUS_ADDR),
            grant, relays)
  }

  function Decoded(s: Bytes, v3: bool, c: Codecs): Read<Payload> {
    var (h, s1) :- TakeHead(s, v3);
    var (n, s2) :- TakeNames(s1, h.flags, c);
    var (z, s3) :- TakeServers(s2, h.flags, c);
    var (grant, s4) :- OptTakeGrant(HasFlag(h.flags, FLAG_GRANT), s3, c);
    var (relays, rest) :- OptTakeRelays(HasFlag(h.flags2, FLAG2_IROH_RELAYS), s4);
    Ok((Assembled(h, n, z, grant, relays, c), rest))
  }

  // ---- The decoder -----------------------------------------------------------------

  method ReadAddr(r: Reader, c: Codecs) returns (t: Result<Utf8, ReadError>)
    requires r.Valid()
    modifies r
    ensures r.Valid() && Reads(TakeAddr(r.raw[old(r.at)..], c), t, r.raw[r.at..])
  {
    hide TakeRun, TakeText, TakeByte;
    var tag := r.Byte();
    if tag.Err? {
      return Err(tag.error);
    }
    if tag.value == ADDR_BINARY {
      var m := r.ReadRun();
      if m.Err? {
        return Err(m.error);
      }
      var text := c.addrText(m.value);
      return if text.Some? then Ok(text.value) else Err(BadAddress);
    }
    if tag.value == ADDR_TEXT {
      t := r.ReadText();
      return;
    }
    return Err(BadTag);
  }

  method ReadNonce(r: Reader, c: Codecs) returns (t: Result<Utf8, ReadError>)
    requires r.Valid()
    modifies r
    ensures r.Valid() && Reads(TakeNonce(r.raw[old(r.at)..], c), t, r.raw[r.at..])
  {
    hide TakeText, TakeByte;
    var tag := r.Byte();
    if tag.Err? {
      return Err(tag.error);
    }
    if tag.value == NONCE_UUID {
      var id := r.TakeN(16);
      return if id.Ok? then Ok(c.uuidText(id.value)) else Err(id.error);
    }
    if tag.value == NONCE_TEXT {
      t := r.ReadText();
      return;
    }
    return Err(BadTag);
  }

  method ReadHead(r: Reader, v3: bool) returns (h: Result<Header, ReadError>)
    requires r.Valid() && r.at == 0
    modifies r
    ensures r.Valid() && Reads(TakeHead(r.raw, v3), h, r.raw[r.at..])
  {
    hide FromBe32, MinLen;
    assert r.raw[0..] == r.raw;
    if |r.raw| < MinLen(v3) {
      return Err(TooShort);
    }
    var flags :- r.Byte();
    var flags2: byte := 0;
    if v3 {
      flags2 :- r.Byte();
    }
    var id :- r.TakeN(16);
    var psk :- r.TakeN(32);
    var ts :- r.TakeN(4);
    return Ok(Header(flags, flags2, id, psk, FromBe32(ts)));
  }

  method ReadNames(r: Reader, flags: byte, c: Codecs) returns (n: Result<NameFields, ReadError>)
    requires r.Valid()
    modifies r
    ensures r.Valid() && Reads(TakeNames(r.raw[old(r.at)..], flags, c), n, r.raw[r.at..])
  {
    hide HasFlag, TakeText, TakeAddr, TakeRun;
    var name, peer, admin := None, None, None;
    if HasFlag(flags, FLAG_NAME) {
      var t :- r.ReadText();
      name := Some(t);
    }
    if HasFlag(flags, FLAG_PEER) {
      var t :- ReadAddr(r, c);
      peer := Some(t);
    }
    if HasFlag(flags, FLAG_ADMIN) {
      var b :- r.ReadRun();
      admin := Some(b);
    }
    return Ok(NameFields(name, peer, admin));
  }

  method ReadServers(r: Reader, flags: byte, c: Codecs) returns (z: Result<ServerFields, ReadError>)
    requires r.Valid()
    modifies r
    ensures r.Valid() && Reads(TakeServers(r.raw[old(r.at)..], flags, c), z, r.raw[r.at..])
  {
    hide HasFlag, TakeAddr;
    var relay, rendezvous := None, None;
    if HasFlag(flags, FLAG_RELAY_ADDR) {
      var t :- ReadAddr(r, c);
      relay := Some(t);
    }
    if HasFlag(flags, FLAG_RENDEZVOUS_ADDR) {
      var t :- ReadAddr(r, c);
      rendezvous := Some(t);
    }
    return Ok(ServerFields(relay, rendezvous));
  }

  method ReadGrant(r: Reader, c: Codecs) returns (g: Result<Option<Grant>, ReadError>)
    requires r.Valid()
    modifies r
    ensures r.Valid() && Reads(OptTakeGrant(true, r.raw[old(r.at)..], c), g, r.raw[r.at..])
  {
    hide TakeRun, TakeNonce, HexText;
    var inviter :- r.ReadRun();
    var nonce :- ReadNonce(r, c);
    var sig :- r.ReadRun();
    var inviterHex := HexText(inviter);
    var sigHex := HexText(sig);
    if inviterHex == [] || nonce == [] || sigHex == [] {
      return Ok(None);
    }
    return Ok(Some(Grant(inviterHex, nonce, sigHex)));
  }

  lemma TakeTextsStep(n: nat, s: Bytes, before: seq<Utf8>)
    ensures n == 0 ==> Prefixed(before, TakeTexts(n, s)) == Ok((before, s))
    ensures n > 0 && TakeText(s).Err? ==> Prefixed(before, TakeTexts(n, s)) == Err(TakeText(s).error)
    ensures n > 0 && TakeText(s).Ok? ==>
      var (t, rest) := TakeText(s).value;
      Prefixed(before, TakeTexts(n, s)) == Prefixed(before + [t], TakeTexts(n - 1, rest))
  {
    hide TakeText;
    if n == 0 {
      assert before + [] == before;
    } else if TakeText(s).Ok? {
      var (t, rest) := TakeText(s).value;
      var tail := TakeTexts(n - 1, rest);
      if tail.Ok? {
        assert before + ([t] + tail.value.0) == (before + [t]) + tail.value.0;
      }
    }
  }

  method ReadRelays(r: Reader) returns (relays: Result<seq<Utf8>, ReadError>)
    requires r.Valid()
    modifies r
    ensures r.Valid() && Reads(OptTakeRelays(true, r.raw[old(r.at)..]), relays, r.raw[r.at..])
  {
    hide TakeText, TakeTexts, Prefixed, TakeByte;
    var n :- r.Byte();
    ghost var start := r.raw[r.at..];
    var urls: seq<Utf8> := [];
    TakeTextsStart(TakeTexts(n, start));
    for i := 0 to n
      invariant r.Valid()
      invariant TakeTexts(n, start) == Prefixed(urls, TakeTexts(n - i, r.raw[r.at..]))
    {
      TakeTextsStep(n - i, r.raw[r.at..], urls);
      var url :- r.ReadText();
      urls := urls + [url];
    }
    TakeTextsStep(0, r.raw[r.at..], urls);
    return Ok(urls);
  }

  lemma TakeTextsStart(r: Read<seq<Utf8>>)
    ensures Prefixed([], r) == r
  {
    if r.Ok? {
      assert [] + r.value.0 == r.value.0;
    }
  }

  /** The payload the bytes spell, or the first reason they spell none. What follows a whole
      payload is not looked at. */
  method Decode(raw: Bytes, v3: bool, c: Codecs) returns (p: Result<Payload, ReadError>)
    ensures p == match Decoded(raw, v3, c) case Ok((q, _)) => Ok(q) case Err(e) => Err(e)
  {
    hide HasFlag, TakeHead, TakeNames, TakeServers, TakeTexts, TakeNonce, TakeRun, TakeByte;
    var r := new Reader(raw);
    var h :- ReadHead(r, v3);
    var n :- ReadNames(r, h.flags, c);
    var z :- ReadServers(r, h.flags, c);
    var grant := None;
    if HasFlag(h.flags, FLAG_GRANT) {
      grant :- ReadGrant(r, c);
    }
    var relays := [];
    if HasFlag(h.flags2, FLAG2_IROH_RELAYS) {
      relays :- ReadRelays(r);
    }
    return Ok(Assembled(h, n, z, grant, relays, c));
  }

  // ---- Decoding inverts encoding ---------------------------------------------------

  function AddrNormal(a: Utf8, c: Codecs): Utf8
    requires AddrsRead(c)
  {
    match c.addrParse(a)
    case Some(m) => c.addrText(m).value
    case None => a
  }

  function OptAddrNormal(o: Option<Utf8>, c: Codecs): Option<Utf8>
    requires AddrsRead(c)
  {
    if o.Some? then Some(AddrNormal(o.value, c)) else None
  }

  function NonceNormal(n: Utf8, c: Codecs): Utf8 {
    match c.uuidParse(n)
    case Some(id) => c.uuidText(id)
    case None => n
  }

  function GrantNormal(g: Option<Grant>, c: Codecs): Option<Grant>
    requires GrantRefuses(g, c).None?
  {
    if g.None? then None
    else
      WholeGrant(HexText(Unhex(g.value.inviterHex, c).value), NonceNormal(g.value.nonce, c),
                 HexText(Unhex(g.value.sigHex, c).value))
  }

  /** What survives a trip over the wire: canonical identifiers, addresses and hex; no default
      flag beside an address; no grant with an empty field; relays only in v3. */
  function Normal(p: Payload, v3: bool, c: Codecs): Payload
    requires AddrsRead(c) && EncodeRefuses(p, v3, c).None?
  {
    p.(circleId := c.uuidText(c.uuidParse(p.circleId).value),
       peer := OptAddrNormal(p.peer, c),
       relay := OptAddrNormal(p.relay, c), relayDefault := p.relay.None? && p.relayDefault,
       rendezvous := OptAddrNormal(p.rendezvous, c), rendezvousDefault := p.rendezvous.None? && p.rendezvousDefault,
       grant := GrantNormal(p.grant, c),
       relays := if v3 then p.relays else [])
  }

  predicate AddrFits(a: Utf8, c: Codecs) {
    match c.addrParse(a)
    case Some(m) => |m| < MAX_LEN
    case None => |a| < MAX_LEN
  }

  /** Five length groups reach every field. */
  predicate Fits(p: Payload, v3: bool, c: Codecs)
    requires EncodeRefuses(p, v3, c).None?
  {
    && (p.name.Some? ==> |p.name.value| < MAX_LEN)
    && (p.peer.Some? ==> AddrFits(p.peer.value, c))
    && (p.admin.Some? ==> |p.admin.value| < MAX_LEN)
    && (p.relay.Some? ==> AddrFits(p.relay.value, c))
    && (p.rendezvous.Some? ==> AddrFits(p.rendezvous.value, c))
    && (p.grant.Some? ==> GrantFits(p.grant.value, c))
    && (v3 ==> forall t <- p.relays :: |t| < MAX_LEN)
  }

  predicate GrantFits(g: Grant, c: Codecs)
    requires GrantRefuses(Some(g), c).None?
  {
    |Unhex(g.inviterHex, c).value| < MAX_LEN && |g.nonce| < MAX_LEN && |Unhex(g.sigHex, c).value| < MAX_LEN
  }

  lemma TextReads(t: Utf8, rest: Bytes)
    requires |t| < MAX_LEN
    ensures TakeText(Run(t) + rest) == Ok((t, rest))
  {
    hide Run, TakeRun;
    RunReads(t, rest);
  }

  lemma OptTextReads(o: Option<Utf8>, rest: Bytes)
    requires o.Some? ==> |o.value| < MAX_LEN
    ensures OptTakeText(o.Some?, OptRun(o) + rest) == Ok((o, rest))
  {
    hide Run, TakeText;
    if o.Some? {
      TextReads(o.value, rest);
    } else {
      assert OptRun(o) + rest == rest;
    }
  }

  lemma OptRunReads(o: Option<Bytes>, rest: Bytes)
    requires o.Some? ==> |o.value| < MAX_LEN
    ensures OptTakeRun(o.Some?, OptRun(o) + rest) == Ok((o, rest))
  {
    hide Run, TakeRun;
    if o.Some? {
      RunReads(o.value, rest);
    } else {
      assert OptRun(o) + rest == rest;
    }
  }

  lemma Tagged(tag: byte, b: Bytes, rest: Bytes)
    ensures TakeByte(([tag] + b) + rest) == Ok((tag, b + rest))
  {
    assert (([tag] + b) + rest)[1..] == b + rest;
  }

  lemma OptAddrReads(o: Option<Utf8>, c: Codecs, rest: Bytes)
    requires AddrsRead(c) && (o.Some? ==> AddrFits(o.value, c))
    ensures OptTakeAddr(o.Some?, OptAddr(o, c) + rest, c) == Ok((OptAddrNormal(o, c), rest))
  {
    hide Run, TakeRun, TakeText, TakeByte;
    if o.Some? {
      match c.addrParse(o.value)
      case Some(m) =>
        Tagged(ADDR_BINARY, Run(m), rest);
        RunReads(m, rest);
      case None =>
        Tagged(ADDR_TEXT, Run(o.value), rest);
        TextReads(o.value, rest);
    } else {
      assert OptAddr(o, c) + rest == rest;
    }
  }

  lemma NonceReads(n: Utf8, c: Codecs, rest: Bytes)
    requires |n| < MAX_LEN
    ensures TakeNonce(Nonce(n, c) + rest, c) == Ok((NonceNormal(n, c), rest))
  {
    hide Run, TakeText, TakeByte;
    match c.uuidParse(n)
    case Some(id) =>
      Tagged(NONCE_UUID, id, rest);
      assert (id + rest)[..16] == id && (id + rest)[16..] == rest;
    case None =>
      Tagged(NONCE_TEXT, Run(n), rest);
      TextReads(n, rest);
  }

  lemma OptGrantReads(g: Option<Grant>, c: Codecs, rest: Bytes)
    requires GrantRefuses(g, c).None? && (g.Some? ==> GrantFits(g.value, c))
    ensures OptTakeGrant(g.Some?, OptGrant(g, c) + rest, c) == Ok((GrantNormal(g, c), rest))
  {
    hide Run, TakeRun, Nonce, TakeNonce, NonceNormal, HexText, FromHex;
    if g.Some? {
      var inviter, sig := Unhex(g.value.inviterHex, c).value, Unhex(g.value.sigHex, c).value;
      var nonce := Nonce(g.value.nonce, c);
      RunReads(sig, rest);
      NonceReads(g.value.nonce, c, Run(sig) + rest);
      RunReads(inviter, nonce + (Run(sig) + rest));
      assert OptGrant(g, c) + rest == Run(inviter) + (nonce + (Run(sig) + rest));
    } else {
      assert OptGrant(g, c) + rest == rest;
    }
  }

  lemma {:induction false} TextsFromTheFront(ts: seq<Utf8>)
    requires ts != []
    ensures Texts(ts) == Run(ts[0]) + Texts(ts[1..])
  {
    hide Run;
    var front, last := ts[..|ts| - 1], ts[|ts| - 1];
    if front == [] {
      assert Texts(ts) == [] + Run(last) && ts[1..] == [];
    } else {
      TextsFromTheFront(front);
      assert front[0] == ts[0] && ts[1..][..|ts| - 2] == front[1..];
    }
  }

  lemma {:induction false} TextsRead(ts: seq<Utf8>, rest: Bytes)
    requires forall t <- ts :: |t| < MAX_LEN
    ensures TakeTexts(|ts|, Texts(ts) + rest) == Ok((ts, rest))
  {
    hide Run, TakeText;
    if ts == [] {
      assert Texts(ts) + rest == rest;
    } else {
      TextsFromTheFront(ts);
      Assoc(Run(ts[0]), Texts(ts[1..]), rest);
      TextReads(ts[0], Texts(ts[1..]) + rest);
      TextsRead(ts[1..], rest);
      assert [ts[0]] + ts[1..] == ts;
    }
  }

  lemma OptRelaysRead(ts: seq<Utf8>, rest: Bytes)
    requires |ts| <= 255 && forall t <- ts :: |t| < MAX_LEN
    ensures OptTakeRelays(ts != [], Relays(ts) + rest) == Ok((ts, rest))
  {
    hide TakeTexts, Texts, TakeByte;
    if ts != [] {
      Tagged(|ts|, Texts(ts), rest);
      TextsRead(ts, rest);
    } else {
      assert Relays(ts) + rest == rest;
    }
  }

  lemma HeadReads(p: Payload, v3: bool, id: Uuid, expires: nat, rest: Bytes)
    requires expires < 0x1_0000_0000
    ensures TakeHead(Head(p, v3, id, expires) + rest, v3) ==
            Ok((Header(Flags(p), if v3 then Flags2(p) else 0, id, p.psk, expires), rest))
  {
    hide Flags, Flags2, Be32, FromBe32, TakeByte, Take;
    Be32Reads(expires);
    var ts := Be32(expires);
    var s4 := ts + rest;
    var s3 := p.psk + s4;
    var s2 := id + s3;
    var s1 := if v3 then [Flags2(p)] + s2 else s2;
    assert Head(p, v3, id, expires) + rest == [Flags(p)] + s1;
    ByteReads(Flags(p), s1);
    ByteReads(Flags2(p), s2);
    TakeReads(id, s3);
    TakeReads(p.psk, s4);
    TakeReads(ts, rest);
  }

  lemma ByteReads(b: byte, rest: Bytes)
    ensures TakeByte([b] + rest) == Ok((b, rest))
  {
    assert ([b] + rest)[1..] == rest;
  }

  lemma TakeReads(b: Bytes, rest: Bytes)
    ensures Take(b + rest, |b|) == Ok((b, rest))
  {
    assert (b + rest)[..|b|] == b && (b + rest)[|b|..] == rest;
  }

  lemma NamesRead(p: Payload, flags: byte, c: Codecs, rest: Bytes)
    requires AddrsRead(c)
    requires p.name.Some? ==> |p.name.value| < MAX_LEN
    requires p.peer.Some? ==> AddrFits(p.peer.value, c)
    requires p.admin.Some? ==> |p.admin.value| < MAX_LEN
    requires HasFlag(flags, FLAG_NAME) == p.name.Some? && HasFlag(flags, FLAG_PEER) == p.peer.Some?
    requires HasFlag(flags, FLAG_ADMIN) == p.admin.Some?
    ensures TakeNames(Names(p, c) + rest, flags, c) ==
            Ok((NameFields(p.name, OptAddrNormal(p.peer, c), p.admin), rest))
  {
    hide HasFlag, OptRun, OptAddr, OptTakeText, OptTakeAddr, OptTakeRun, OptAddrNormal, AddrFits;
    var s2 := OptRun(p.admin) + rest;
    var s1 := OptAddr(p.peer, c) + s2;
    assert Names(p, c) + rest == OptRun(p.name) + s1;
    OptTextReads(p.name, s1);
    OptAddrReads(p.peer, c, s2);
    OptRunReads(p.admin, rest);
  }

  lemma ServersRead(p: Payload, flags: byte, c: Codecs, rest: Bytes)
    requires AddrsRead(c)
    requires p.relay.Some? ==> AddrFits(p.relay.value, c)
    requires p.rendezvous.Some? ==> AddrFits(p.rendezvous.value, c)
    requires HasFlag(flags, FLAG_RELAY_ADDR) == p.relay.Some?
    requires HasFlag(flags, FLAG_RENDEZVOUS_ADDR) == p.rendezvous.Some?
    ensures TakeServers(Servers(p, c) + rest, flags, c) ==
            Ok((ServerFields(OptAddrNormal(p.relay, c), OptAddrNormal(p.rendezvous, c)), rest))
  {
    hide HasFlag, OptAddr, OptTakeAddr, OptAddrNormal, AddrFits;
    var s1 := OptAddr(p.rendezvous, c) + rest;
    assert Servers(p, c) + rest == OptAddr(p.relay, c) + s1;
    OptAddrReads(p.relay, c, s1);
    OptAddrReads(p.rendezvous, c, rest);
  }

  lemma EncodedFromTheFront(p: Payload, v3: bool, c: Codecs, rest: Bytes)
    requires EncodeRefuses(p, v3, c).None?
    ensures Encoded(p, v3, c) + rest ==
            Head(p, v3, c.uuidParse(p.circleId).value, p.expires) + (Names(p, c) + (Servers(p, c) +
            (OptGrant(p.grant, c) + ((if v3 then Relays(p.relays) else []) + rest))))
  {
    hide Head, Names, Servers, OptGrant, Relays, GrantRefuses;
  }

  lemma AssembledIsNormal(p: Payload, v3: bool, flags2: byte, c: Codecs)
    requires AddrsRead(c) && EncodeRefuses(p, v3, c).None?
    ensures Assembled(Header(Flags(p), flags2, c.uuidParse(p.circleId).value, p.psk, p.expires),
                      NameFields(p.name, OptAddrNormal(p.peer, c), p.admin),
                      ServerFields(OptAddrNormal(p.relay, c), OptAddrNormal(p.rendezvous, c)),
                      GrantNormal(p.grant, c), if v3 then p.relays else [], c) == Normal(p, v3, c)
  {
    hide HasFlag, Flags, OptAddrNormal, GrantNormal, GrantRefuses;
    FlagsRead(p);
  }

  /** Decoding an encoding, whatever bytes follow it, gives the payload's normal form and
      leaves exactly those bytes. */
  lemma DecodeInvertsEncode(p: Payload, v3: bool, c: Codecs, rest: Bytes)
    requires AddrsRead(c) && EncodeRefuses(p, v3, c).None? && Fits(p, v3, c)
    ensures Decoded(Encoded(p, v3, c) + rest, v3, c) == Ok((Normal(p, v3, c), rest))
  {
    hide HasFlag, Flags, Flags2, Head, Names, Servers, OptGrant, Relays, AddrFits, OptAddrNormal, GrantNormal;
    hide TakeHead, TakeNames, TakeServers, OptTakeGrant, OptTakeRelays, GrantFits, GrantRefuses;
    hide Assembled, Normal, Encoded;
    var id := c.uuidParse(p.circleId).value;
    var flags := Flags(p);
    var flags2: byte := if v3 then Flags2(p) else 0;
    var relays := if v3 then Relays(p.relays) else [];
    var s4 := relays + rest;
    var s3 := OptGrant(p.grant, c) + s4;
    var s2 := Servers(p, c) + s3;
    var s1 := Names(p, c) + s2;
    EncodedFromTheFront(p, v3, c, rest);
    FlagsRead(p);
    AssembledIsNormal(p, v3, flags2, c);
    HeadReads(p, v3, id, p.expires, s1);
    NamesRead(p, flags, c, s2);
    ServersRead(p, flags, c, s3);
    OptGrantReads(p.grant, c, s4);
    if v3 {
      Flags2Read(p);
      OptRelaysRead(p.relays, rest);
    } else {
      NoRelays(rest);
      assert [] + rest == rest;
    }
  }

  lemma NoRelays(rest: Bytes)
    ensures OptTakeRelays(HasFlag(0, FLAG2_IROH_RELAYS), rest) == Ok(([], rest))
  {
  }

  /** Nothing that is not a whole encoding reads back whole: every strict prefix is refused. */
  lemma StrictPrefixesAreRefused(p: Payload, v3: bool, c: Codecs, n: nat)
    requires AddrsRead(c) && EncodeRefuses(p, v3, c).None? && Fits(p, v3, c)
    requires n < |Encoded(p, v3, c)|
    ensures Decoded(Encoded(p, v3, c)[..n], v3, c).Err?
  {
    hide Encoded, Decoded, Normal, Fits, EncodeRefuses;
    var whole := Encoded(p, v3, c);
    var cut, missing := whole[..n], whole[n..];
    assert whole == cut + missing && whole == whole + [];
    DecodeInvertsEncode(p, v3, c, []);
    assert forall b: Bytes :: |b + missing| > 0;
    if Decoded(cut, v3, c).Ok? {
      DecodedStable(cut, v3, c, missing);
    }
  }

  /** Two payloads with one encoding carry the same thing. */
  lemma EncodingsDetermineThePayload(p: Payload, q: Payload, v3: bool, c: Codecs)
    requires AddrsRead(c) && EncodeRefuses(p, v3, c).None? && EncodeRefuses(q, v3, c).None?
    requires Fits(p, v3, c) && Fits(q, v3, c)
    requires Encoded(p, v3, c) == Encoded(q, v3, c)
    ensures Normal(p, v3, c) == Normal(q, v3, c)
  {
    hide Encoded, Decoded, Normal, Fits, EncodeRefuses;
    DecodeInvertsEncode(p, v3, c, []);
    DecodeInvertsEncode(q, v3, c, []);
  }

  lemma OptAddrNormalTwice(o: Option<Utf8>, c: Codecs)
    requires Lawful(c)
    ensures OptAddrNormal(OptAddrNormal(o, c), c) == OptAddrNormal(o, c)
  {
    if o.Some? && c.addrParse(o.value).Some? {
      assert c.addrParse(AddrNormal(o.value, c)) == c.addrParse(o.value);
    }
  }

  lemma GrantNormalTwice(g: Option<Grant>, c: Codecs)
    requires Lawful(c) && GrantRefuses(g, c).None?
    ensures GrantRefuses(GrantNormal(g, c), c).None?
    ensures GrantNormal(GrantNormal(g, c), c) == GrantNormal(g, c)
  {
    hide HexText, FromHex;
    if g.Some? {
      var inviter, sig := Unhex(g.value.inviterHex, c).value, Unhex(g.value.sigHex, c).value;
      assert Unhex(HexText(inviter), c) == Some(inviter) && Unhex(HexText(sig), c) == Some(sig);
      assert NonceNormal(NonceNormal(g.value.nonce, c), c) == NonceNormal(g.value.nonce, c);
    }
  }

  /** A decoded payload can be encoded again, and is already normal. */
  lemma NormalIsIdempotent(p: Payload, v3: bool, c: Codecs)
    requires Lawful(c) && EncodeRefuses(p, v3, c).None?
    ensures EncodeRefuses(Normal(p, v3, c), v3, c).None?
    ensures Normal(Normal(p, v3, c), v3, c) == Normal(p, v3, c)
  {
    hide OptAddrNormal, GrantNormal, GrantRefuses;
    assert c.uuidParse(c.uuidText(c.uuidParse(p.circleId).value)) == c.uuidParse(p.circleId);
    OptAddrNormalTwice(p.peer, c);
    OptAddrNormalTwice(p.relay, c);
    OptAddrNormalTwice(p.rendezvous, c);
    OptAddrNormalKeeps(p.relay, c);
    OptAddrNormalKeeps(p.rendezvous, c);
    GrantNormalTwice(p.grant, c);
  }

  lemma OptAddrNormalKeeps(o: Option<Utf8>, c: Codecs)
    requires AddrsRead(c)
    ensures OptAddrNormal(o, c).Some? == o.Some?
  {
  }

  // ---- More input never changes what was read --------------------------------------

  /** `r` on a longer input: the same value, with the extra bytes left over as well. */
  function Longer<T>(r: Read<T>, more: Bytes): Read<T>
    requires r.Ok?
  {
    Ok((r.value.0, r.value.1 + more))
  }

  lemma TextStable(s: Bytes, more: Bytes)
    requires TakeText(s).Ok?
    ensures TakeText(s + more) == Longer(TakeText(s), more)
  {
    hide TakeRun, IsUtf8;
    RunStable(s, more);
  }

  lemma AddrStable(s: Bytes, c: Codecs, more: Bytes)
    requires TakeAddr(s, c).Ok?
    ensures TakeAddr(s + more, c) == Longer(TakeAddr(s, c), more)
  {
    hide TakeRun, TakeText, TakeByte;
    ByteStable(s, more);
    var (tag, rest) := TakeByte(s).value;
    if tag == ADDR_BINARY {
      RunStable(rest, more);
    } else {
      TextStable(rest, more);
    }
  }

  lemma NonceStable(s: Bytes, c: Codecs, more: Bytes)
    requires TakeNonce(s, c).Ok?
    ensures TakeNonce(s + more, c) == Longer(TakeNonce(s, c), more)
  {
    hide TakeText, TakeByte;
    ByteStable(s, more);
    var (tag, rest) := TakeByte(s).value;
    if tag == NONCE_UUID {
      TakeStable(rest, 16, more);
    } else {
      TextStable(rest, more);
    }
  }

  lemma HeadStable(s: Bytes, v3: bool, more: Bytes)
    requires TakeHead(s, v3).Ok?
    ensures TakeHead(s + more, v3) == Longer(TakeHead(s, v3), more)
  {
    hide TakeByte, Take, FromBe32;
    ByteStable(s, more);
    var s1 := TakeByte(s).value.1;
    if v3 {
      ByteStable(s1, more);
    }
    var s2 := if v3 then TakeByte(s1).value.1 else s1;
    TakeStable(s2, 16, more);
    var s3 := Take(s2, 16).value.1;
    TakeStable(s3, 32, more);
    TakeStable(Take(s3, 32).value.1, 4, more);
  }

  lemma OptAddrStable(present: bool, s: Bytes, c: Codecs, more: Bytes)
    requires OptTakeAddr(present, s, c).Ok?
    ensures OptTakeAddr(present, s + more, c) == Longer(OptTakeAddr(present, s, c), more)
  {
    hide TakeAddr;
    if present {
      AddrStable(s, c, more);
    }
  }

  lemma NamesStable(s: Bytes, flags: byte, c: Codecs, more: Bytes)
    requires TakeNames(s, flags, c).Ok?
    ensures TakeNames(s + more, flags, c) == Longer(TakeNames(s, flags, c), more)
  {
    hide HasFlag, OptTakeAddr, TakeText, TakeRun;
    if HasFlag(flags, FLAG_NAME) {
      TextStable(s, more);
    }
    var s1 := OptTakeText(HasFlag(flags, FLAG_NAME), s).value.1;
    OptAddrStable(HasFlag(flags, FLAG_PEER), s1, c, more);
    if HasFlag(flags, FLAG_ADMIN) {
      RunStable(OptTakeAddr(HasFlag(flags, FLAG_PEER), s1, c).value.1, more);
    }
  }

  lemma ServersStable(s: Bytes, flags: byte, c: Codecs, more: Bytes)
    requires TakeServers(s, flags, c).Ok?
    ensures TakeServers(s + more, flags, c) == Longer(TakeServers(s, flags, c), more)
  {
    hide HasFlag, OptTakeAddr;
    OptAddrStable(HasFlag(flags, FLAG_RELAY_ADDR), s, c, more);
    var s1 := OptTakeAddr(HasFlag(flags, FLAG_RELAY_ADDR), s, c).value.1;
    OptAddrStable(HasFlag(flags, FLAG_RENDEZVOUS_ADDR), s1, c, more);
  }

  lemma GrantStable(present: bool, s: Bytes, c: Codecs, more: Bytes)
    requires OptTakeGrant(present, s, c).Ok?
    ensures OptTakeGrant(present, s + more, c) == Longer(OptTakeGrant(present, s, c), more)
  {
    hide TakeRun, TakeNonce, HexText, WholeGrant;
    if present {
      RunStable(s, more);
      var s1 := TakeRun(s).value.1;
      NonceStable(s1, c, more);
      RunStable(TakeNonce(s1, c).value.1, more);
    }
  }

  lemma {:induction false} TextsStable(n: nat, s: Bytes, more: Bytes)
    requires TakeTexts(n, s).Ok?
    ensures TakeTexts(n, s + more) == Longer(TakeTexts(n, s), more)
  {
    hide TakeText;
    if n > 0 {
      TextStable(s, more);
      TextsStable(n - 1, TakeText(s).value.1, more);
    }
  }

  lemma RelaysStable(present: bool, s: Bytes, more: Bytes)
    requires OptTakeRelays(present, s).Ok?
    ensures OptTakeRelays(present, s + more) == Longer(OptTakeRelays(present, s), more)
  {
    hide TakeTexts, TakeByte;
    if present {
      ByteStable(s, more);
      TextsStable(TakeByte(s).value.0, TakeByte(s).value.1, more);
    }
  }

  /** The decoder never looks past the payload it returns. */
  lemma DecodedStable(s: Bytes, v3: bool, c: Codecs, more: Bytes)
    requires Decoded(s, v3, c).Ok?
    ensures Decoded(s + more, v3, c) == Longer(Decoded(s, v3, c), more)
  {
    hide HasFlag, TakeHead, TakeNames, TakeServers, OptTakeGrant, OptTakeRelays, Assembled;
    HeadStable(s, v3, more);
    var (h, s1) := TakeHead(s, v3).value;
    NamesStable(s1, h.flags, c, more);
    var s2 := TakeNames(s1, h.flags, c).value.1;
    ServersStable(s2, h.flags, c, more);
    var s3 := TakeServers(s2, h.flags, c).value.1;
    GrantStable(HasFlag(h.flags, FLAG_GRANT), s3, c, more);
    var s4 := OptTakeGrant(HasFlag(h.flags, FLAG_GRANT), s3, c).value.1;
    RelaysStable(HasFlag(h.flags2, FLAG2_IROH_RELAYS), s4, more);
  }
}
