/** The v2 and v3 invite format of `src/invite.rs`, byte by byte: what the encoder lays out,
    and what the decoder makes of any bytes at all, minted or not. */
module InviteLayouts {
  import opened Octets
  import opened Wrappers
  import opened Wire
  import opened Invite

  // ---- What can be carried ---------------------------------------------------------

  /** A payload is refused exactly for a circle id that is no UUID, an expiry beyond 32 bits,
      a grant whose fields are not hex, or, in v3, more than 255 relays. */
  lemma CarriedExactlyWhen(p: Payload, v3: bool, c: Codecs)
    ensures EncodeRefuses(p, v3, c).None? <==>
            && c.uuidParse(p.circleId).Some? && 0 <= p.expires <= 4294967295
            && (p.grant.Some? ==> FromHex(c.trim(p.grant.value.inviterHex)).Some?
                                  && FromHex(c.trim(p.grant.value.sigHex)).Some?)
            && (v3 ==> |p.relays| <= 255)
    ensures EncodeRefuses(p, v3, c) == Some(BadCircleId) <==> c.uuidParse(p.circleId).None?
    ensures EncodeRefuses(p, v3, c) == Some(ExpiryOutOfRange) <==>
            c.uuidParse(p.circleId).Some? && !(0 <= p.expires <= 4294967295)
    ensures EncodeRefuses(p, v3, c) == Some(TooManyRelays) ==> v3 && |p.relays| > 255
    ensures EncodeRefuses(p, v3, c) == Some(InviterNotHex) ==>
              p.grant.Some? && FromHex(c.trim(p.grant.value.inviterHex)).None?
    ensures EncodeRefuses(p, v3, c) == Some(SignatureNotHex) ==>
              p.grant.Some? && FromHex(c.trim(p.grant.value.sigHex)).None?
  {
  }

  // ---- What is laid out ------------------------------------------------------------

  /** An address: 0 and its binary form if it is a multiaddr, 1 and its text if not. */
  function AddrBytes(a: Utf8, c: Codecs): Bytes {
    if c.addrParse(a).Some? then [0] + Len(|c.addrParse(a).value|) + c.addrParse(a).value else [1] + Len(|a|) + a
  }

  /** A grant: the inviter's key, 0 and a UUID or 1 and a text as nonce, the signature. */
  function GrantBytes(g: Grant, c: Codecs): Bytes
    requires FromHex(c.trim(g.inviterHex)).Some? && FromHex(c.trim(g.sigHex)).Some?
  {
    var inviter, sig := FromHex(c.trim(g.inviterHex)).value, FromHex(c.trim(g.sigHex)).value;
    var nonce :=
      if c.uuidParse(g.nonce).Some? then [0] + c.uuidParse(g.nonce).value else [1] + Len(|g.nonce|) + g.nonce;
    (Len(|inviter|) + inviter) + nonce + (Len(|sig|) + sig)
  }

  /** The first byte: name 1, peer 2, admin key 4, relay 8, default relay 16, rendezvous 32,
      default rendezvous 64, grant 128; a default only where no address is given. */
  function FlagByte(p: Payload): nat {
    (if p.name.Some? then 1 else 0) + (if p.peer.Some? then 2 else 0) + (if p.admin.Some? then 4 else 0)
    + (if p.relay.Some? then 8 else if p.relayDefault then 16 else 0)
    + (if p.rendezvous.Some? then 32 else if p.rendezvousDefault then 64 else 0)
    + (if p.grant.Some? then 128 else 0)
  }

  /** The fields after the header, in order: name, peer, admin key, relay, rendezvous. */
  function FieldBytes(p: Payload, c: Codecs): Bytes {
    (if p.name.Some? then Len(|p.name.value|) + p.name.value else [])
    + (if p.peer.Some? then AddrBytes(p.peer.value, c) else [])
    + (if p.admin.Some? then Len(|p.admin.value|) + p.admin.value else [])
    + ((if p.relay.Some? then AddrBytes(p.relay.value, c) else [])
       + (if p.rendezvous.Some? then AddrBytes(p.rendezvous.value, c) else []))
  }

  /** Flags, in v3 a second byte saying 1 and 2 for relays, 16 bytes of circle id, 32 of key,
      4 of expiry, most significant first; then the fields, the grant, and in v3 the relays
      behind their number. */
  lemma EncodedIsLaidOut(p: Payload, v3: bool, c: Codecs)
    requires EncodeRefuses(p, v3, c).None?
    ensures 0 <= p.expires && FlagByte(p) < 256 && (v3 ==> |p.relays| <= 255)
    ensures p.grant.Some? ==>
              FromHex(c.trim(p.grant.value.inviterHex)).Some? && FromHex(c.trim(p.grant.value.sigHex)).Some?
    ensures Encoded(p, v3, c) ==
            ([FlagByte(p)] + (if v3 then [if p.relays == [] then 1 else 3] else []) +
             c.uuidParse(p.circleId).value + p.psk + Be32(p.expires))
            + FieldBytes(p, c)
            + (if p.grant.Some? then GrantBytes(p.grant.value, c) else [])
            + (if v3 && p.relays != [] then [|p.relays|] + Texts(p.relays) else [])
  {
    FlagBytesAgree(p);
    FieldBytesAgree(p, c);
    if p.grant.Some? {
      GrantBytesAgree(p.grant.value, c);
    }
    hide Flags, FlagByte, Be32, Names, Servers, FieldBytes, OptGrant, GrantBytes, Texts, FromHex;
    var n, z := Names(p, c), Servers(p, c);
    var head := Head(p, v3, c.uuidParse(p.circleId).value, p.expires);
    assert (head + n) + z == head + (n + z);
  }

  lemma FlagBytesAgree(p: Payload)
    ensures Flags(p) == FlagByte(p)
  {
  }

  lemma AddrBytesAgree(a: Utf8, c: Codecs)
    ensures Addr(a, c) == AddrBytes(a, c)
  {
    hide Len;
    if c.addrParse(a).Some? {
      var m := c.addrParse(a).value;
      assert [0] + (Len(|m|) + m) == [0] + Len(|m|) + m;
    } else {
      assert [1] + (Len(|a|) + a) == [1] + Len(|a|) + a;
    }
  }

  lemma FieldBytesAgree(p: Payload, c: Codecs)
    ensures Names(p, c) + Servers(p, c) == FieldBytes(p, c)
  {
    if p.peer.Some? { AddrBytesAgree(p.peer.value, c); }
    if p.relay.Some? { AddrBytesAgree(p.relay.value, c); }
    if p.rendezvous.Some? { AddrBytesAgree(p.rendezvous.value, c); }
    hide Len, Addr, AddrBytes;
  }

  lemma GrantBytesAgree(g: Grant, c: Codecs)
    requires GrantRefuses(Some(g), c).None?
    ensures OptGrant(Some(g), c) == GrantBytes(g, c)
  {
    hide Len, FromHex;
    if c.uuidParse(g.nonce).None? {
      assert [1] + (Len(|g.nonce|) + g.nonce) == [1] + Len(|g.nonce|) + g.nonce;
    }
  }

  // ---- What is read from any bytes -------------------------------------------------

  /** The bit of weight `w` is set. */
  predicate Bit(flags: byte, w: nat)
    requires w > 0
  {
    flags / w % 2 == 1
  }

  /** Too short for its fixed header, a payload is refused as such, and only then. */
  lemma TooShortExactlyWhen(s: Bytes, v3: bool, c: Codecs)
    ensures Decoded(s, v3, c) == Err(TooShort) <==> |s| < if v3 then 54 else 53
  {
    hide HasFlag, Assembled;
    if |s| >= if v3 then 54 else 53 {
      HeaderIs(s, v3);
      var (h, s1) := TakeHead(s, v3).value;
      NamesNotShort(s1, h.flags, c);
      if TakeNames(s1, h.flags, c).Ok? {
        var s2 := TakeNames(s1, h.flags, c).value.1;
        ServersNotShort(s2, h.flags, c);
        if TakeServers(s2, h.flags, c).Ok? {
          var s3 := TakeServers(s2, h.flags, c).value.1;
          GrantNotShort(HasFlag(h.flags, FLAG_GRANT), s3, c);
          if OptTakeGrant(HasFlag(h.flags, FLAG_GRANT), s3, c).Ok? {
            RelaysNotShort(HasFlag(h.flags2, FLAG2_IROH_RELAYS),
                           OptTakeGrant(HasFlag(h.flags, FLAG_GRANT), s3, c).value.1);
          }
        }
      }
    }
  }

  lemma {:induction false} LenNotShort(s: Bytes, groups: nat)
    requires groups <= 5
    ensures TakeLen(s, groups) != Err(TooShort)
    decreases 5 - groups
  {
    if groups < 5 && s != [] {
      LenNotShort(s[1..], groups + 1);
    }
  }

  lemma RunNotShort(s: Bytes)
    ensures TakeRun(s) != Err(TooShort) && TakeText(s) != Err(TooShort)
  {
    hide TakeLen, IsUtf8;
    LenNotShort(s, 0);
  }

  lemma AddrNotShort(s: Bytes, c: Codecs)
    ensures TakeAddr(s, c) != Err(TooShort) && TakeNonce(s, c) != Err(TooShort)
  {
    hide TakeRun, TakeText;
    if s != [] {
      RunNotShort(s[1..]);
    }
  }

  lemma NamesNotShort(s: Bytes, flags: byte, c: Codecs)
    ensures TakeNames(s, flags, c) != Err(TooShort)
  {
    hide HasFlag, TakeText, TakeAddr, TakeRun;
    RunNotShort(s);
    var name := OptTakeText(HasFlag(flags, FLAG_NAME), s);
    if name.Ok? {
      AddrNotShort(name.value.1, c);
      var peer := OptTakeAddr(HasFlag(flags, FLAG_PEER), name.value.1, c);
      if peer.Ok? {
        RunNotShort(peer.value.1);
      }
    }
  }

  lemma ServersNotShort(s: Bytes, flags: byte, c: Codecs)
    ensures TakeServers(s, flags, c) != Err(TooShort)
  {
    hide HasFlag, TakeAddr;
    AddrNotShort(s, c);
    var relay := OptTakeAddr(HasFlag(flags, FLAG_RELAY_ADDR), s, c);
    if relay.Ok? {
      AddrNotShort(relay.value.1, c);
    }
  }

  lemma GrantNotShort(present: bool, s: Bytes, c: Codecs)
    ensures OptTakeGrant(present, s, c) != Err(TooShort)
  {
    hide TakeRun, TakeNonce, HexText;
    RunNotShort(s);
    if TakeRun(s).Ok? {
      var s1 := TakeRun(s).value.1;
      AddrNotShort(s1, c);
      if TakeNonce(s1, c).Ok? {
        RunNotShort(TakeNonce(s1, c).value.1);
      }
    }
  }

  lemma {:induction false} TextsNotShort(n: nat, s: Bytes)
    ensures TakeTexts(n, s) != Err(TooShort)
  {
    hide TakeText;
    if n > 0 {
      RunNotShort(s);
      if TakeText(s).Ok? {
        TextsNotShort(n - 1, TakeText(s).value.1);
      }
    }
  }

  lemma RelaysNotShort(present: bool, s: Bytes)
    ensures OptTakeRelays(present, s) != Err(TooShort)
  {
    hide TakeTexts;
    if s != [] {
      TextsNotShort(s[0], s[1..]);
    }
  }

  lemma HeaderIs(s: Bytes, v3: bool)
    requires |s| >= if v3 then 54 else 53
    ensures var k := if v3 then 2 else 1;
            TakeHead(s, v3) ==
            Ok((Header(s[0], if v3 then s[1] else 0, s[k..k + 16], s[k + 16..k + 48], FromBe32(s[k + 48..k + 52])),
                s[k + 52..]))
  {
    hide FromBe32;
    var k := if v3 then 2 else 1;
    assert v3 ==> s[1..][1..] == s[2..] && s[1..][0] == s[1];
    assert s[k..][..16] == s[k..k + 16] && s[k..][16..] == s[k + 16..];
    assert s[k + 16..][..32] == s[k + 16..k + 48] && s[k + 16..][32..] == s[k + 48..];
    assert s[k + 48..][..4] == s[k + 48..k + 52] && s[k + 48..][4..] == s[k + 52..];
  }

  /** Whatever bytes are accepted, the header stands where it should, each field is there
      exactly when its bit is, a default is taken only without an address beside it, no
      grant has an empty field, and only a v3 second byte brings relays. */
  lemma AcceptedIsAsFlagged(s: Bytes, v3: bool, c: Codecs)
    requires Decoded(s, v3, c).Ok?
    ensures |s| >= if v3 then 54 else 53
    ensures var p, k := Decoded(s, v3, c).value.0, if v3 then 2 else 1;
            && p.circleId == c.uuidText(s[k..k + 16]) && p.psk == s[k + 16..k + 48]
            && p.expires == FromBe32(s[k + 48..k + 52])
            && p.name.Some? == Bit(s[0], 1) && p.peer.Some? == Bit(s[0], 2) && p.admin.Some? == Bit(s[0], 4)
            && p.relay.Some? == Bit(s[0], 8) && p.relayDefault == (Bit(s[0], 16) && !Bit(s[0], 8))
            && p.rendezvous.Some? == Bit(s[0], 32) && p.rendezvousDefault == (Bit(s[0], 64) && !Bit(s[0], 32))
            && (p.grant.Some? ==>
                  && Bit(s[0], 128)
                  && p.grant.value.inviterHex != [] && p.grant.value.nonce != [] && p.grant.value.sigHex != [])
            && (p.relays != [] ==> v3 && Bit(s[1], 2) && |p.relays| <= 255)
  {
    HeaderTooShort(s, v3, c);
    HeaderIs(s, v3);
    var (h, s1) := TakeHead(s, v3).value;
    var (n, s2) := TakeNames(s1, h.flags, c).value;
    var (z, s3) := TakeServers(s2, h.flags, c).value;
    var s4 := OptTakeGrant(HasFlag(h.flags, FLAG_GRANT), s3, c).value.1;
    NamesPresent(s1, h.flags, c);
    ServersPresent(s2, h.flags, c);
    GrantPresent(HasFlag(h.flags, FLAG_GRANT), s3, c);
    RelaysPresent(HasFlag(h.flags2, FLAG2_IROH_RELAYS), s4);
    NoSecondByte();
    SameBits(s[0]);
    SameBits(h.flags2);
    hide TakeHead, TakeNames, TakeServers, OptTakeGrant, OptTakeRelays, HasFlag, FromBe32, Bit;
  }

  lemma SameBits(flags: byte)
    ensures HasFlag(flags, FLAG_NAME) == Bit(flags, 1) && HasFlag(flags, FLAG_PEER) == Bit(flags, 2)
    ensures HasFlag(flags, FLAG_ADMIN) == Bit(flags, 4) && HasFlag(flags, FLAG_RELAY_ADDR) == Bit(flags, 8)
    ensures HasFlag(flags, FLAG_RELAY_DEFAULT) == Bit(flags, 16)
    ensures HasFlag(flags, FLAG_RENDEZVOUS_ADDR) == Bit(flags, 32)
    ensures HasFlag(flags, FLAG_RENDEZVOUS_DEFAULT) == Bit(flags, 64) && HasFlag(flags, FLAG_GRANT) == Bit(flags, 128)
    ensures HasFlag(flags, FLAG2_IROH_RELAYS) == Bit(flags, 2)
  {
  }

  lemma NoSecondByte()
    ensures !HasFlag(0, FLAG2_IROH_RELAYS)
  {
  }

  lemma HeaderTooShort(s: Bytes, v3: bool, c: Codecs)
    requires Decoded(s, v3, c).Ok?
    ensures |s| >= if v3 then 54 else 53
  {
    hide HasFlag, TakeNames, TakeServers, OptTakeGrant, OptTakeRelays;
  }

  lemma NamesPresent(s: Bytes, flags: byte, c: Codecs)
    requires TakeNames(s, flags, c).Ok?
    ensures var n := TakeNames(s, flags, c).value.0;
            && n.name.Some? == HasFlag(flags, FLAG_NAME) && n.peer.Some? == HasFlag(flags, FLAG_PEER)
            && n.admin.Some? == HasFlag(flags, FLAG_ADMIN)
  {
    hide HasFlag, TakeText, TakeAddr, TakeRun;
  }

  lemma ServersPresent(s: Bytes, flags: byte, c: Codecs)
    requires TakeServers(s, flags, c).Ok?
    ensures var z := TakeServers(s, flags, c).value.0;
            && z.relay.Some? == HasFlag(flags, FLAG_RELAY_ADDR)
            && z.rendezvous.Some? == HasFlag(flags, FLAG_RENDEZVOUS_ADDR)
  {
    hide HasFlag, TakeAddr;
  }

  lemma GrantPresent(present: bool, s: Bytes, c: Codecs)
    requires OptTakeGrant(present, s, c).Ok?
    ensures var g := OptTakeGrant(present, s, c).value.0;
            g.Some? ==> present && g.value.inviterHex != [] && g.value.nonce != [] && g.value.sigHex != []
  {
    hide TakeRun, TakeNonce, HexText;
  }

  lemma {:induction false} TextsCount(n: nat, s: Bytes)
    ensures TakeTexts(n, s).Ok? ==> |TakeTexts(n, s).value.0| == n
  {
    hide TakeText;
    if n > 0 && TakeText(s).Ok? {
      TextsCount(n - 1, TakeText(s).value.1);
    }
  }

  lemma RelaysPresent(present: bool, s: Bytes)
    requires OptTakeRelays(present, s).Ok?
    ensures var ts := OptTakeRelays(present, s).value.0; |ts| <= 255 && (ts != [] ==> present)
  {
    hide TakeTexts;
    if present {
      TextsCount(s[0], s[1..]);
    }
  }

  /** An address or a nonce under any tag but 0 and 1 is refused; under 1 it is the text that
      follows, under 0 the binary form printed. */
  lemma TagsDecide(s: Bytes, c: Codecs)
    requires s != []
    ensures s[0] > 1 ==> TakeAddr(s, c) == Err(BadTag) && TakeNonce(s, c) == Err(BadTag)
    ensures s[0] == 1 ==> TakeAddr(s, c) == TakeText(s[1..]) && TakeNonce(s, c) == TakeText(s[1..])
    ensures s[0] == 0 && TakeRun(s[1..]).Ok? ==>
              var (m, rest) := TakeRun(s[1..]).value;
              && (c.addrText(m).Some? ==> TakeAddr(s, c) == Ok((c.addrText(m).value, rest)))
              && (c.addrText(m).None? ==> TakeAddr(s, c) == Err(BadAddress))
    ensures s[0] == 0 ==>
              TakeNonce(s, c) == if |s| >= 17 then Ok((c.uuidText(s[1..17]), s[17..])) else Err(Truncated)
  {
    hide TakeRun, TakeText;
    if |s| >= 17 {
      assert s[1..][..16] == s[1..17] && s[1..][16..] == s[17..];
    }
  }
}
