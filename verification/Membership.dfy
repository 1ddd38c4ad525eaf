/** Admin-signed, versioned membership standing (`src/membership.rs`). */
module Membership {
  import opened Wrappers
  import opened Text

  datatype Standing = In | Out

  function StandingText(s: Standing): string {
    if s == In then "in" else "out"
  }

  datatype Record = Record(peer: string, standing: Standing, gen: nat, at: int, signature: string)

  /** Generations are 64 bits wide; the release build's addition wraps. */
  const U64: nat := 0x1_0000_0000_0000_0000

  function Message(circle: string, peer: string, standing: Standing, gen: nat): string {
    "membership:" + circle + ":" + peer + ":" + StandingText(standing) + ":" + Decimal(gen)
  }

  function Key(peer: string, gen: nat, standing: Standing): string {
    peer + "#" + Decimal(gen) + "#" + StandingText(standing)
  }

  function KeyOf(r: Record): string {
    Key(r.peer, r.gen, r.standing)
  }

  /** No two (peer, generation, standing) triples share a key, whatever characters the
      peer id holds. */
  lemma KeyInjective(p: string, g: nat, s: Standing, q: string, h: nat, t: Standing)
    requires Key(p, g, s) == Key(q, h, t)
    ensures p == q && g == h && s == t
  {
    SplitLast(p + "#" + Decimal(g), StandingText(s), q + "#" + Decimal(h), StandingText(t), '#');
    assert s == t by { assert |StandingText(In)| != |StandingText(Out)|; }
    SplitLast(p, Decimal(g), q, Decimal(h), '#');
    DecimalInjective(g, h);
  }

  /** A signature made for one circle, peer, standing and generation covers no other,
      as long as circle ids hold no colon (they are UUIDs). */
  lemma MessageInjective(c: string, p: string, s: Standing, g: nat, d: string, q: string, t: Standing, h: nat)
    requires ':' !in c && ':' !in d
    requires Message(c, p, s, g) == Message(d, q, t, h)
    ensures c == d && p == q && s == t && g == h
  {
    var a, b := "membership:" + c + ":" + p + ":", "membership:" + d + ":" + q + ":";
    SplitLast(a + StandingText(s), Decimal(g), b + StandingText(t), Decimal(h), ':');
    DecimalInjective(g, h);
    var a', b' := "membership:" + c + ":" + p, "membership:" + d + ":" + q;
    assert a + StandingText(s) == a' + [':'] + StandingText(s);
    assert b + StandingText(t) == b' + [':'] + StandingText(t);
    SplitLast(a', StandingText(s), b', StandingText(t), ':');
    assert s == t by { assert |StandingText(In)| != |StandingText(Out)|; }
    var m := "membership:";
    assert (c + [':'] + p) == a'[|m|..] && (d + [':'] + q) == b'[|m|..];
    SplitFirst(c, p, d, q, ':');
  }

  // ---- Stores ----------------------------------------------------------------------

  /** A value of the replicated membership map: JSON that reads as a record, or not. */
  datatype Entry = Filed(r: Record) | Garbage

  type Store = map<string, Entry>

  /** One circle as seen with one admin key: `verify` checks a hex signature. */
  datatype Circle = Circle(id: string, verify: (string, string) -> bool)

  predicate Authentic(r: Record, c: Circle) {
    c.verify(Message(c.id, r.peer, r.standing, r.gen), r.signature)
  }

  /** A record the store holds under its own key and the admin signed. */
  predicate Holds(store: Store, c: Circle, key: string) {
    key in store && store[key].Filed? && KeyOf(store[key].r) == key && Authentic(store[key].r, c)
  }

  function AuthenticRecords(store: Store, c: Circle, peer: string): set<Record> {
    set key | key in store && peer + "#" <= key && Holds(store, c, key) && store[key].r.peer == peer :: store[key].r
  }

  /** What records are compared by. */
  datatype Rank = Rank(gen: nat, out: bool)

  function RankOf(r: Record): Rank {
    Rank(r.gen, r.standing == Out)
  }

  predicate RankLe(a: Rank, b: Rank) {
    a.gen < b.gen || (a.gen == b.gen && (a.out ==> b.out))
  }

  /** The (generation, standing) pairs the admin signed for `peer`. */
  function Ranks(store: Store, c: Circle, peer: string): set<Rank> {
    set r | r in AuthenticRecords(store, c, peer) :: RankOf(r)
  }

  /** `max_by_key` over the ranks. */
  ghost function Best(ranks: set<Rank>): (b: Option<Rank>)
    ensures b.None? <==> ranks == {}
    ensures b.Some? ==> b.value in ranks && forall r :: r in ranks ==> RankLe(r, b.value)
  {
    if ranks == {} then None
    else
      var r :| r in ranks;
      var rest := Best(ranks - {r});
      assert forall x :: x in ranks ==> x == r || x in ranks - {r};
      if rest.Some? && RankLe(r, rest.value) then rest else Some(r)
  }

  ghost function Deciding(store: Store, c: Circle, peer: string): Option<Rank> {
    Best(Ranks(store, c, peer))
  }

  ghost function StandingOf(store: Store, c: Circle, peer: string): Option<Standing> {
    match Deciding(store, c, peer)
    case None => None
    case Some(rank) => Some(if rank.out then Out else In)
  }

  ghost predicate IsRemoved(store: Store, legacy: set<string>, c: Circle, peer: string) {
    match StandingOf(store, c, peer)
    case Some(standing) => standing == Out
    case None => peer in legacy
  }

  ghost function MaxGen(store: Store, c: Circle, peer: string): nat {
    match Deciding(store, c, peer)
    case Some(rank) => rank.gen
    case None => 0
  }

  ghost function NextGen(store: Store, c: Circle, peer: string): nat {
    (MaxGen(store, c, peer) + 1) % U64
  }

  ghost function ReadmissionGen(store: Store, c: Circle, peer: string): Option<nat> {
    match Deciding(store, c, peer)
    case Some(rank) => if rank.out then None else Some(rank.gen)
    case None => None
  }

  /** Of relayed pairs, the ones worth storing, whoever relayed them. */
  function AcceptRelayed(c: Circle, entries: seq<(string, Entry)>): seq<(string, Entry)> {
    if entries == [] then []
    else
      var rest := AcceptRelayed(c, entries[1..]);
      var (key, entry) := entries[0];
      if entry.Filed? && KeyOf(entry.r) == key && Authentic(entry.r, c) then [entries[0]] + rest else rest
  }

  /** Storing accepted records never replaces what is already held. */
  function Merge(store: Store, accepted: seq<(string, Entry)>): Store
    decreases |accepted|
  {
    if accepted == [] then store
    else
      var (key, entry) := accepted[0];
      Merge(if key in store then store else store[key := entry], accepted[1..])
  }

  datatype WriteError = SigningFailed | NotTheAdminKey

  class ControlDoc {
    var membership: Store
    /** Legacy tombstones, from before signed records existed. */
    var removed: set<string>

    constructor (removed: set<string>)
      ensures membership == map[] && this.removed == removed
    {
      membership, this.removed := map[], removed;
    }

    /** Walk the map and keep every authentic record about `peer`. */
    method Records(c: Circle, peer: string) returns (records: set<Record>)
      ensures records == AuthenticRecords(membership, c, peer)
    {
      records := {};
      var left := membership.Keys;
      while left != {}
        invariant left <= membership.Keys
        invariant records == set key | key in membership && key !in left && peer + "#" <= key &&
          Holds(membership, c, key) && membership[key].r.peer == peer :: membership[key].r
        decreases |left|
      {
        var key :| key in left;
        left := left - {key};
        if peer + "#" <= key && membership[key].Filed? {
          var r := membership[key].r;
          if KeyOf(r) == key && r.peer == peer && Authentic(r, c) {
            records := records + {r};
          }
        }
      }
    }

    /** The deciding record, by one pass over the records. */
    method Decide(c: Circle, peer: string) returns (best: Option<Rank>)
      ensures best == Deciding(membership, c, peer)
    {
      var records := Records(c, peer);
      best := None;
      var left := records;
      while left != {}
        invariant left <= records
        invariant best.None? <==> left == records
        invariant best.Some? ==> best.value in Ranks(membership, c, peer)
        invariant best.Some? ==> forall r :: r in records - left ==> RankLe(RankOf(r), best.value)
        decreases |left|
      {
        var r :| r in left;
        left := left - {r};
        if best.None? || RankLe(best.value, RankOf(r)) {
          best := Some(RankOf(r));
        }
      }
      if records != {} {
        var r :| r in records;
        assert RankOf(r) in Ranks(membership, c, peer);
        BestIsUnique(Ranks(membership, c, peer), best.value);
      }
    }

    method Removed(c: Circle, peer: string) returns (r: bool)
      ensures r == IsRemoved(membership, removed, c, peer)
    {
      var best := Decide(c, peer);
      r := if best.Some? then best.value.out else peer in removed;
    }

    /** Sign and store the next record about `peer`. `sign` is the caller's admin key. */
    method Write(c: Circle, peer: string, standing: Standing, at: int, sign: string -> Option<string>)
      returns (r: Result<Record, WriteError>)
      modifies this`membership
      ensures r.Ok? ==>
        && r.value.peer == peer && r.value.standing == standing && r.value.at == at
        && r.value.gen == NextGen(old(membership), c, peer)
        && var text, key := SignedText(c.id, peer, r.value.gen, standing), FiledUnder(peer, r.value.gen, standing);
        && sign(text) == Some(r.value.signature) && c.verify(text, r.value.signature)
        && membership == old(membership)[key := Filed(r.value)]
      ensures r.Err? ==>
        var text := SignedText(c.id, peer, NextGen(old(membership), c, peer), standing);
        if r.error.SigningFailed? then sign(text).None? else sign(text).Some? && !c.verify(text, sign(text).value)
      ensures r.Err? ==> membership == old(membership)
    {
      var best := Decide(c, peer);
      var gen := ((if best.Some? then best.value.gen else 0) + 1) % U64;
      TextsAgree(c.id, peer, gen, standing);
      var signature := sign(Message(c.id, peer, standing, gen));
      if signature.None? {
        return Err(SigningFailed);
      }
      var record := Record(peer, standing, gen, at, signature.value);
      if !Authentic(record, c) {
        return Err(NotTheAdminKey);
      }
      membership := membership[KeyOf(record) := Filed(record)];
      return Ok(record);
    }

    /** Take relayed entries from anyone. */
    method Relay(c: Circle, entries: seq<(string, Entry)>)
      modifies this`membership
      ensures membership == Merge(old(membership), AcceptRelayed(c, entries))
    {
      var accepted := AcceptRelayed(c, entries);
      for i := 0 to |accepted|
        invariant Merge(membership, accepted[i..]) == Merge(old(membership), accepted)
      {
        var (key, entry) := accepted[i];
        assert accepted[i..][1..] == accepted[i + 1..];
        if key !in membership {
          membership := membership[key := entry];
        }
      }
      assert accepted[|accepted|..] == [];
    }
  }

  lemma BestIsUnique(ranks: set<Rank>, b: Rank)
    requires b in ranks && forall r :: r in ranks ==> RankLe(r, b)
    ensures Best(ranks) == Some(b)
  {
    assert RankLe(b, Best(ranks).value) && RankLe(Best(ranks).value, b);
  }

  // ---- Standing is a join ----------------------------------------------------------

  lemma BestGrows(small: set<Rank>, big: set<Rank>)
    requires small <= big && Best(small).Some?
    ensures Best(big).Some? && RankLe(Best(small).value, Best(big).value)
  {
  }

  function RankMax(a: Option<Rank>, b: Option<Rank>): Option<Rank> {
    if a.None? then b else if b.None? then a else if RankLe(a.value, b.value) then b else a
  }

  lemma BestOfUnion(a: set<Rank>, b: set<Rank>)
    ensures Best(a + b) == RankMax(Best(a), Best(b))
  {
    if a == {} {
      assert a + b == b;
    } else if b == {} {
      assert a + b == a;
    } else {
      BestIsUnique(a + b, RankMax(Best(a), Best(b)).value);
    }
  }

  /** The key already says which peer a record is about. */
  lemma HeldRank(store: Store, c: Circle, key: string)
    requires Holds(store, c, key)
    ensures store[key].r in AuthenticRecords(store, c, store[key].r.peer)
    ensures RankOf(store[key].r) in Ranks(store, c, store[key].r.peer)
  {
    var r := store[key].r;
    assert key == (r.peer + "#") + (Decimal(r.gen) + "#" + StandingText(r.standing));
  }

  /** Standing, readmission and the next generation depend only on which keys hold authentic
      records filed under them: not on garbage, misfiled or forged entries, nor on when a
      record was written or how it was signed. */
  lemma StandingIsByHeldKeys(a: Store, b: Store, legacy: set<string>, c: Circle, peer: string)
    requires forall key :: Holds(a, c, key) <==> Holds(b, c, key)
    ensures IsRemoved(a, legacy, c, peer) == IsRemoved(b, legacy, c, peer)
    ensures ReadmissionGen(a, c, peer) == ReadmissionGen(b, c, peer) && NextGen(a, c, peer) == NextGen(b, c, peer)
  {
    hide Ranks, Holds, Deciding;
    SameHeldRanks(a, b, c, peer);
    SameHeldRanks(b, a, c, peer);
    DecidingIsByRanks(a, b, c, peer);
  }

  lemma DecidingIsByRanks(a: Store, b: Store, c: Circle, peer: string)
    requires Ranks(a, c, peer) == Ranks(b, c, peer)
    ensures Deciding(a, c, peer) == Deciding(b, c, peer)
  {
    hide Ranks;
  }

  lemma SameHeldRanks(a: Store, b: Store, c: Circle, peer: string)
    requires forall key :: Holds(a, c, key) <==> Holds(b, c, key)
    ensures Ranks(a, c, peer) <= Ranks(b, c, peer)
  {
    hide KeyOf, Authentic;
    forall x | x in AuthenticRecords(a, c, peer) ensures RankOf(x) in Ranks(b, c, peer) {
      var key := KeyOf(x);
      assert Holds(a, c, key) && Holds(b, c, key);
      HeldRank(b, c, key);
      SameKeySameRank(x, b[key].r);
    }
  }

  lemma SameKeySameRank(r: Record, q: Record)
    requires KeyOf(r) == KeyOf(q)
    ensures r.peer == q.peer && RankOf(r) == RankOf(q)
  {
    KeyInjective(r.peer, r.gen, r.standing, q.peer, q.gen, q.standing);
  }

  /** One more authentic, correctly filed record adds its rank and removes none, even
      over an older copy of itself or over garbage. */
  lemma FilingAddsRank(store: Store, r: Record, c: Circle, peer: string)
    requires Authentic(r, c)
    ensures Ranks(store[KeyOf(r) := Filed(r)], c, peer) ==
            Ranks(store, c, peer) + if r.peer == peer then {RankOf(r)} else {}
  {
    var after := store[KeyOf(r) := Filed(r)];
    HeldRank(after, c, KeyOf(r));
    forall x | x in AuthenticRecords(store, c, peer) ensures RankOf(x) in Ranks(after, c, peer) {
      if KeyOf(x) == KeyOf(r) {
        KeyInjective(x.peer, x.gen, x.standing, r.peer, r.gen, r.standing);
      } else {
        assert Holds(after, c, KeyOf(x));
        HeldRank(after, c, KeyOf(x));
      }
    }
  }

  lemma NextRankDecides(ranks: set<Rank>, next: Rank, max: nat)
    requires max == (if Best(ranks).Some? then Best(ranks).value.gen else 0)
    requires next.gen == (max + 1) % U64 && max < U64
    ensures Best(ranks + {next}) == Some(next) <==> max < U64 - 1
  {
    BestOfUnion(ranks, {next});
    BestIsUnique({next}, next);
    hide Best;
    assert next.gen == if max < U64 - 1 then max + 1 else 0;
  }

  /** A write decides at its writer exactly when the generation has room to grow. */
  lemma FreshWriteDecidesExactlyWhen(store: Store, r: Record, c: Circle)
    requires Authentic(r, c) && r.gen == NextGen(store, c, r.peer) && MaxGen(store, c, r.peer) < U64
    ensures Deciding(store[KeyOf(r) := Filed(r)], c, r.peer) == Some(RankOf(r)) <==>
            MaxGen(store, c, r.peer) < U64 - 1
  {
    var ranks := Ranks(store, c, r.peer);
    FilingAddsRank(store, r, c, r.peer);
    hide Ranks, KeyOf, Authentic;
    NextRankDecides(ranks, RankOf(r), MaxGen(store, c, r.peer));
  }

  /** Such a write exists: over a readmission at the last 64-bit generation, a removal wraps
      to generation 0 and the readmission goes on deciding. */
  lemma WriteAtTheTopIsLost(circle: string, peer: string)
    ensures exists store: Store, r: Record, c: Circle ::
              && AllHeld(store, c) && Authentic(r, c) && r.standing == Out && r.gen == NextGen(store, c, r.peer)
              && Deciding(store, c, r.peer) == Some(Rank(U64 - 1, false))
              && Deciding(store[KeyOf(r) := Filed(r)], c, r.peer) != Some(RankOf(r))
  {
    var c := Circle(circle, (m, s) => true);
    var top := Record(peer, In, U64 - 1, 0, "signature");
    var store: Store := map[KeyOf(top) := Filed(top)];
    var none: Store := map[];
    var r := Record(peer, Out, 0, 0, "signature");
    assert Ranks(none, c, peer) == {};
    FilingAddsRank(none, top, c, peer);
    assert none[KeyOf(top) := Filed(top)] == store;
    hide KeyOf, Ranks;
    assert Ranks(store, c, peer) == {RankOf(top)};
    BestIsUnique({RankOf(top)}, RankOf(top));
    FreshWriteDecidesExactlyWhen(store, r, c);
  }

  /** At equal generation `out` wins. */
  lemma TiesResolveOut(store: Store, legacy: set<string>, c: Circle, peer: string, gen: nat)
    requires Rank(gen, false) in Ranks(store, c, peer) && Rank(gen, true) in Ranks(store, c, peer)
    requires forall r :: r in Ranks(store, c, peer) ==> r.gen <= gen
    ensures IsRemoved(store, legacy, c, peer)
  {
    BestIsUnique(Ranks(store, c, peer), Rank(gen, true));
  }

  /** A legacy tombstone matters only for a peer with no signed record. */
  lemma LegacyMattersOnlyUnsigned(store: Store, a: set<string>, b: set<string>, c: Circle, peer: string)
    ensures Ranks(store, c, peer) != {} ==> IsRemoved(store, a, c, peer) == IsRemoved(store, b, c, peer)
    ensures Ranks(store, c, peer) == {} ==> (IsRemoved(store, a, c, peer) <==> peer in a)
  {
  }

  // ---- What is signed --------------------------------------------------------------

  /** The text the admin signs, and the key the record is filed under, part by part. */
  function SignedText(circle: string, peer: string, gen: nat, standing: Standing): string {
    "membership:" + circle + ":" + peer + (if standing == In then ":in:" else ":out:") + Decimal(gen)
  }

  function FiledUnder(peer: string, gen: nat, standing: Standing): string {
    peer + "#" + Decimal(gen) + (if standing == In then "#in" else "#out")
  }

  lemma TextsAgree(circle: string, peer: string, gen: nat, standing: Standing)
    ensures Message(circle, peer, standing, gen) == SignedText(circle, peer, gen, standing)
    ensures Key(peer, gen, standing) == FiledUnder(peer, gen, standing)
  {
  }

  /** `entry` is a record the admin signed for this circle, under its own key. */
  predicate SignedEntry(key: string, entry: Entry, c: Circle) {
    entry.Filed? && var r := entry.r;
    key == FiledUnder(r.peer, r.gen, r.standing) && c.verify(SignedText(c.id, r.peer, r.gen, r.standing), r.signature)
  }

  /** The store holds the admin's signed word that `peer` has this standing at `gen`. */
  predicate SignedFor(store: Store, c: Circle, peer: string, gen: nat, standing: Standing) {
    var key := FiledUnder(peer, gen, standing);
    && key in store && SignedEntry(key, store[key], c)
    && store[key].r.peer == peer && store[key].r.gen == gen && store[key].r.standing == standing
  }

  /** What counts for a peer is what is signed for it, and only that. */
  lemma RanksAreSigned(store: Store, c: Circle, peer: string, gen: nat, out: bool)
    ensures Rank(gen, out) in Ranks(store, c, peer) <==> SignedFor(store, c, peer, gen, if out then Out else In)
  {
    hide Decimal;
    var standing := if out then Out else In;
    var key := FiledUnder(peer, gen, standing);
    TextsAgree(c.id, peer, gen, standing);
    if SignedFor(store, c, peer, gen, standing) {
      HeldRank(store, c, key);
    }
    if Rank(gen, out) in Ranks(store, c, peer) {
      var r :| r in AuthenticRecords(store, c, peer) && RankOf(r) == Rank(gen, out);
      assert Holds(store, c, KeyOf(r)) && KeyOf(r) == key && store[key].r == r;
    }
  }

  /** A peer is out exactly when the greatest generation signed for it was signed as a
      removal, or nothing is signed for it and an old tombstone names it. */
  lemma RemovedExactlyWhen(store: Store, legacy: set<string>, c: Circle, peer: string)
    ensures IsRemoved(store, legacy, c, peer) <==>
            || (exists gen: nat :: SignedFor(store, c, peer, gen, Out) && NoneSignedAbove(store, c, peer, gen))
            || (peer in legacy && forall gen: nat, s :: !SignedFor(store, c, peer, gen, s))
  {
    DecidingIsSigned(store, c, peer);
    hide Deciding, SignedFor;
    if exists gen: nat :: SignedFor(store, c, peer, gen, Out) && NoneSignedAbove(store, c, peer, gen) {
      var gen: nat :| SignedFor(store, c, peer, gen, Out) && NoneSignedAbove(store, c, peer, gen);
      var best := Deciding(store, c, peer).value;
      assert SignedFor(store, c, peer, best.gen, if best.out then Out else In);
      assert best == Rank(gen, true);
    }
  }

  ghost predicate NoneSignedAbove(store: Store, c: Circle, peer: string, gen: nat) {
    forall h: nat, s :: SignedFor(store, c, peer, h, s) ==> h <= gen
  }

  /** The deciding pair is the greatest one signed: by generation, a removal before a
      readmission. */
  lemma DecidingIsSigned(store: Store, c: Circle, peer: string)
    ensures Deciding(store, c, peer).None? <==> forall gen: nat, s :: !SignedFor(store, c, peer, gen, s)
    ensures Deciding(store, c, peer).Some? ==>
              var best := Deciding(store, c, peer).value;
              && SignedFor(store, c, peer, best.gen, if best.out then Out else In)
              && NoneSignedAbove(store, c, peer, best.gen)
              && (SignedFor(store, c, peer, best.gen, Out) ==> best.out)
  {
    forall gen: nat, s | SignedFor(store, c, peer, gen, s) ensures Rank(gen, s == Out) in Ranks(store, c, peer) {
      RanksAreSigned(store, c, peer, gen, s == Out);
    }
    var best := Deciding(store, c, peer);
    if best.Some? {
      RanksAreSigned(store, c, peer, best.value.gen, best.value.out);
    }
  }

  /** A readmission stands exactly when it is signed and nothing signed for the peer is
      newer, nor a removal of the same generation. */
  lemma ReadmittedExactlyWhen(store: Store, c: Circle, peer: string, gen: nat)
    ensures ReadmissionGen(store, c, peer) == Some(gen) <==>
            && SignedFor(store, c, peer, gen, In) && !SignedFor(store, c, peer, gen, Out)
            && NoneSignedAbove(store, c, peer, gen)
  {
    DecidingIsSigned(store, c, peer);
    hide Deciding, SignedFor;
  }

  /** The next generation is one above the greatest signed for the peer, 1 when none is,
      in 64 bits. */
  lemma NextGenExactlyWhen(store: Store, c: Circle, peer: string, max: nat)
    requires NoneSignedAbove(store, c, peer, max)
    requires SignedFor(store, c, peer, max, In) || SignedFor(store, c, peer, max, Out) || max == 0
    ensures NextGen(store, c, peer) == (max + 1) % 0x1_0000_0000_0000_0000
  {
    DecidingIsSigned(store, c, peer);
    hide Deciding, SignedFor;
  }

  /** A relay keeps what is held, and of the rest files exactly the keys some relayed entry
      is signed under, each with such an entry. */
  lemma RelayFilesExactly(store: Store, entries: seq<(string, Entry)>, c: Circle, key: string)
    ensures var after := Merge(store, AcceptRelayed(c, entries));
            && (key in store ==> key in after && after[key] == store[key])
            && (key in after <==> key in store || exists e :: e in entries && e.0 == key && SignedEntry(key, e.1, c))
            && (key in after && key !in store ==> (key, after[key]) in entries && SignedEntry(key, after[key], c))
  {
    var accepted := AcceptRelayed(c, entries);
    AcceptedAreHeld(c, entries);
    MergeFiles(store, accepted, key);
    forall e | e in entries
      ensures SignedEntry(e.0, e.1, c) <==> e.1.Filed? && KeyOf(e.1.r) == e.0 && Authentic(e.1.r, c)
    {
      if e.1.Filed? {
        TextsAgree(c.id, e.1.r.peer, e.1.r.gen, e.1.r.standing);
      }
    }
  }

  lemma {:induction false} MergeFiles(store: Store, accepted: seq<(string, Entry)>, key: string)
    ensures var after := Merge(store, accepted);
            && (key in store ==> key in after && after[key] == store[key])
            && (key in after <==> key in store || exists e :: e in accepted && e.0 == key)
            && (key in after && key !in store ==> (key, after[key]) in accepted)
    decreases |accepted|
  {
    if accepted != [] {
      var (k, entry) := accepted[0];
      assert accepted == [accepted[0]] + accepted[1..];
      MergeFiles(if k in store then store else store[k := entry], accepted[1..], key);
    }
  }

  // ---- Relaying --------------------------------------------------------------------

  /** Everything held is an authentic record under its own key: what stores built by
      writing and relaying look like. */
  ghost predicate AllHeld(store: Store, c: Circle) {
    forall key :: key in store ==> Holds(store, c, key)
  }

  lemma {:induction false} AcceptedAreHeld(c: Circle, entries: seq<(string, Entry)>)
    ensures forall e :: e in AcceptRelayed(c, entries) <==>
      e in entries && e.1.Filed? && KeyOf(e.1.r) == e.0 && Authentic(e.1.r, c)
  {
    if entries != [] {
      AcceptedAreHeld(c, entries[1..]);
      assert entries == [entries[0]] + entries[1..];
    }
  }

  /** The ranks a batch of accepted entries carries for `peer`. */
  function RanksIn(accepted: seq<(string, Entry)>, peer: string): set<Rank> {
    set e | e in accepted && e.1.Filed? && e.1.r.peer == peer :: RankOf(e.1.r)
  }

  lemma {:induction false} MergeIsUnion(store: Store, accepted: seq<(string, Entry)>, c: Circle, peer: string)
    requires AllHeld(store, c)
    requires forall e :: e in accepted ==> e.1.Filed? && KeyOf(e.1.r) == e.0 && Authentic(e.1.r, c)
    ensures AllHeld(Merge(store, accepted), c)
    ensures Ranks(Merge(store, accepted), c, peer) == Ranks(store, c, peer) + RanksIn(accepted, peer)
    decreases |accepted|
  {
    hide Ranks, AllHeld, KeyOf, Authentic;
    if accepted != [] {
      var (key, entry) := accepted[0];
      HeadRanks(accepted, peer);
      MergeStep(store, entry.r, c, peer);
      MergeIsUnion(if key in store then store else store[key := entry], accepted[1..], c, peer);
    }
  }

  lemma HeadRanks(accepted: seq<(string, Entry)>, peer: string)
    requires accepted != [] && accepted[0].1.Filed?
    ensures accepted[0] in accepted && forall e :: e in accepted[1..] ==> e in accepted
    ensures RanksIn(accepted, peer) ==
            RanksIn(accepted[1..], peer) + if accepted[0].1.r.peer == peer then {RankOf(accepted[0].1.r)} else {}
  {
    assert accepted == [accepted[0]] + accepted[1..];
  }

  lemma MergeStep(store: Store, r: Record, c: Circle, peer: string)
    requires AllHeld(store, c) && Authentic(r, c)
    ensures var next := if KeyOf(r) in store then store else store[KeyOf(r) := Filed(r)];
            && AllHeld(next, c)
            && Ranks(next, c, peer) == Ranks(store, c, peer) + if r.peer == peer then {RankOf(r)} else {}
  {
    var key := KeyOf(r);
    if key in store {
      HeldRank(store, c, key);
      KeyInjective(store[key].r.peer, store[key].r.gen, store[key].r.standing, r.peer, r.gen, r.standing);
    } else {
      FilingAddsRank(store, r, c, peer);
    }
  }

  /** Relaying is a join: the receiver's deciding record becomes the greater of its own
      and the best authentic one relayed, whatever else the relayer mixed in. */
  lemma RelayIsJoin(store: Store, entries: seq<(string, Entry)>, c: Circle, peer: string)
    requires AllHeld(store, c)
    ensures var accepted := AcceptRelayed(c, entries);
            && AllHeld(Merge(store, accepted), c)
            && Deciding(Merge(store, accepted), c, peer) ==
               RankMax(Deciding(store, c, peer), Best(RanksIn(accepted, peer)))
  {
    var accepted := AcceptRelayed(c, entries);
    AcceptedAreHeld(c, entries);
    MergeIsUnion(store, accepted, c, peer);
    BestOfUnion(Ranks(store, c, peer), RanksIn(accepted, peer));
  }

  /** Every stored pair, for relaying. */
  ghost predicate IsSnapshot(entries: seq<(string, Entry)>, store: Store) {
    (forall e :: e in entries ==> e.0 in store && store[e.0] == e.1) &&
    (forall key :: key in store ==> (key, store[key]) in entries)
  }

  lemma SnapshotRanks(entries: seq<(string, Entry)>, store: Store, c: Circle, peer: string)
    requires AllHeld(store, c) && IsSnapshot(entries, store)
    ensures RanksIn(AcceptRelayed(c, entries), peer) == Ranks(store, c, peer)
  {
    AcceptedAreHeld(c, entries);
    forall r | r in AuthenticRecords(store, c, peer) ensures RankOf(r) in RanksIn(AcceptRelayed(c, entries), peer) {
      assert (KeyOf(r), store[KeyOf(r)]) in entries;
    }
    forall e | e in AcceptRelayed(c, entries) && e.1.r.peer == peer ensures RankOf(e.1.r) in Ranks(store, c, peer) {
      HeldRank(store, c, e.0);
    }
  }

  /** Two replicas that have swapped snapshots agree on everyone's standing. */
  lemma SwappedReplicasAgree(a: Store, b: Store, fromA: seq<(string, Entry)>, fromB: seq<(string, Entry)>, c: Circle,
                             peer: string)
    requires AllHeld(a, c) && AllHeld(b, c) && IsSnapshot(fromA, a) && IsSnapshot(fromB, b)
    ensures Deciding(Merge(a, AcceptRelayed(c, fromB)), c, peer) == Deciding(Merge(b, AcceptRelayed(c, fromA)), c, peer)
  {
    AcceptedAreHeld(c, fromA);
    AcceptedAreHeld(c, fromB);
    MergeIsUnion(a, AcceptRelayed(c, fromB), c, peer);
    MergeIsUnion(b, AcceptRelayed(c, fromA), c, peer);
    SnapshotRanks(fromA, a, c, peer);
    SnapshotRanks(fromB, b, c, peer);
    assert Ranks(a, c, peer) + Ranks(b, c, peer) == Ranks(b, c, peer) + Ranks(a, c, peer);
  }

  // ---- Runs ------------------------------------------------------------------------

  datatype Step =
    /** The admin signs a record at one replica. */
    | AdminWrite(at: string, r: Record)
    /** Anyone hands a replica any entries at all. */
    | Relayed(to: string, entries: seq<(string, Entry)>)

  ghost predicate Enabled(net: map<string, Store>, s: Step, c: Circle) {
    match s
    case AdminWrite(at, r) => at in net && Authentic(r, c) && r.gen == NextGen(net[at], c, r.peer)
    case Relayed(to, _) => to in net
  }

  function Do(net: map<string, Store>, s: Step, c: Circle): map<string, Store>
    requires match s case AdminWrite(at, _) => at in net case Relayed(to, _) => to in net
  {
    match s
    case AdminWrite(at, r) => net[at := net[at][KeyOf(r) := Filed(r)]]
    case Relayed(to, entries) => net[to := Merge(net[to], AcceptRelayed(c, entries))]
  }

  ghost predicate Run(nets: seq<map<string, Store>>, steps: seq<Step>, c: Circle) {
    && |nets| == |steps| + 1
    && (forall at :: at in nets[0] ==> nets[0][at] == map[])
    && forall i :: 0 <= i < |steps| ==> Enabled(nets[i], steps[i], c) && nets[i + 1] == Do(nets[i], steps[i], c)
  }

  ghost predicate NetHeld(net: map<string, Store>, c: Circle) {
    forall at :: at in net ==> AllHeld(net[at], c)
  }

  lemma StepKeeps(net: map<string, Store>, s: Step, c: Circle, at: string, peer: string)
    requires NetHeld(net, c) && Enabled(net, s, c) && at in net
    ensures NetHeld(Do(net, s, c), c) && at in Do(net, s, c)
    ensures Ranks(net[at], c, peer) <= Ranks(Do(net, s, c)[at], c, peer)
  {
    match s
    case AdminWrite(writer, r) =>
      FilingAddsRank(net[writer], r, c, peer);
    case Relayed(to, entries) =>
      AcceptedAreHeld(c, entries);
      MergeIsUnion(net[to], AcceptRelayed(c, entries), c, peer);
  }

  /** Over every run of admin writes and relays, at every replica, the deciding record
      of every peer only ever moves up. */
  lemma {:induction false} DecidingNeverDecreases(nets: seq<map<string, Store>>, steps: seq<Step>, c: Circle,
                                                  i: nat, j: nat, at: string, peer: string)
    requires Run(nets, steps, c) && i <= j < |nets| && at in nets[i]
    ensures at in nets[j] && NetHeld(nets[j], c) && Ranks(nets[i][at], c, peer) <= Ranks(nets[j][at], c, peer)
    ensures Deciding(nets[i][at], c, peer).Some? ==>
      Deciding(nets[j][at], c, peer).Some? &&
      RankLe(Deciding(nets[i][at], c, peer).value, Deciding(nets[j][at], c, peer).value)
    decreases j
  {
    hide Holds, Ranks, Do;
    if i < j {
      DecidingNeverDecreases(nets, steps, c, i, j - 1, at, peer);
      assert Enabled(nets[j - 1], steps[j - 1], c);
      StepKeeps(nets[j - 1], steps[j - 1], c, at, peer);
    } else if j > 0 {
      RunHeld(nets, steps, c, j);
    }
    if Deciding(nets[i][at], c, peer).Some? {
      BestGrows(Ranks(nets[i][at], c, peer), Ranks(nets[j][at], c, peer));
    }
  }

  lemma {:induction false} RunHeld(nets: seq<map<string, Store>>, steps: seq<Step>, c: Circle, j: nat)
    requires Run(nets, steps, c) && j < |nets|
    ensures NetHeld(nets[j], c)
  {
    if j > 0 {
      RunHeld(nets, steps, c, j - 1);
      var s := steps[j - 1];
      assert Enabled(nets[j - 1], s, c);
      StepKeeps(nets[j - 1], s, c, if s.AdminWrite? then s.at else s.to, "");
    }
  }
}
