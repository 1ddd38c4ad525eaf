/** The pairing mailbox (`src/pair_mailbox.rs`): a dead drop of write-once slots with a
    lifetime, a cap and a per-source budget. */
module PairMailbox {
  import opened Octets
  import opened Wrappers
  import RateLimit

  const TTL: nat := 120
  const MAX_SLOT: nat := 64 * 1024
  const MAX_MAILBOXES: nat := 1024
  const ID_LEN: nat := 32
  const LIMITS := RateLimit.Config(60, 10, 8192)

  datatype Slot = Hello | Offer | Reply

  datatype Mailbox = Mailbox(hello: Option<Bytes>, offer: Option<Bytes>, reply: Option<Bytes>) {
    function Get(which: Slot): Option<Bytes> {
      match which
      case Hello => hello
      case Offer => offer
      case Reply => reply
    }

    function Set(which: Slot, body: Bytes): Mailbox {
      match which
      case Hello => this.(hello := Some(body))
      case Offer => this.(offer := Some(body))
      case Reply => this.(reply := Some(body))
    }
  }

  datatype Entry = Entry(box: Mailbox, created: int)

  type Boxes = map<string, Entry>

  datatype Status =
    | Created | Ok | BadRequest | NotFound | PayloadTooLarge | TooManyRequests | Unavailable | Conflict

  predicate ValidId(id: string) {
    |id| == ID_LEN * 2 && forall c :: c in id ==> '0' <= c <= '9' || 'a' <= c <= 'f' || 'A' <= c <= 'F'
  }

  function SlotIndex(slot: string): Option<Slot> {
    if slot == "hello" then Some(Hello)
    else if slot == "offer" then Some(Offer)
    else if slot == "reply" then Some(Reply)
    else None
  }

  function Live(boxes: Boxes, now: int): Boxes {
    map id | id in boxes && now - boxes[id].created < TTL :: boxes[id]
  }

  /** Everything the mutex guards. */
  datatype Inner = Inner(boxes: Boxes, seen: RateLimit.Table)

  /** `expire` followed by the charge every well-formed request makes. */
  function Admit(s: Inner, from: RateLimit.RateKey, now: int): (Inner, bool) {
    var (seen, allowed) := RateLimit.Allowed(LIMITS, RateLimit.Expired(s.seen, LIMITS.window, now), from, now);
    (Inner(Live(s.boxes, now), seen), allowed)
  }

  function Put(s: Inner, from: RateLimit.RateKey, id: string, slot: string, body: Bytes, now: int): (Inner, Status) {
    if !ValidId(id) then (s, BadRequest)
    else if SlotIndex(slot).None? then (s, NotFound)
    else if body == [] || |body| > MAX_SLOT then (s, PayloadTooLarge)
    else
      var which := SlotIndex(slot).value;
      var (t, allowed) := Admit(s, from, now);
      if !allowed then (t, TooManyRequests)
      else if id !in t.boxes && |t.boxes| >= MAX_MAILBOXES then (t, Unavailable)
      else
        var entry := if id in t.boxes then t.boxes[id] else Entry(Mailbox(None, None, None), now);
        if entry.box.Get(which).Some? then (t, Conflict)
        else (t.(boxes := t.boxes[id := entry.(box := entry.box.Set(which, body))]), Created)
  }

  function Get(s: Inner, from: RateLimit.RateKey, id: string, slot: string, now: int): (Inner, Status, Bytes) {
    if !ValidId(id) then (s, BadRequest, [])
    else if SlotIndex(slot).None? then (s, NotFound, [])
    else
      var (t, allowed) := Admit(s, from, now);
      if !allowed then (t, TooManyRequests, [])
      else if id !in t.boxes then (t, NotFound, [])
      else
        match t.boxes[id].box.Get(SlotIndex(slot).value)
        case Some(bytes) => (t, Status.Ok, bytes)
        case None => (t, NotFound, [])
  }

  class MailboxState {
    var boxes: Boxes
    const limiter: RateLimit.Limiter

    ghost function Abstract(): Inner
      reads this, limiter
    {
      Inner(boxes, limiter.seen)
    }

    ghost predicate Valid()
      reads this, limiter
    {
      limiter.config == LIMITS
    }

    constructor ()
      ensures Valid() && fresh(limiter) && Abstract() == Inner(map[], map[])
    {
      boxes := map[];
      limiter := new RateLimit.Limiter(LIMITS);
    }

    method Expire(now: int)
      requires Valid()
      modifies this, limiter
      ensures Valid()
      ensures boxes == Live(old(boxes), now)
      ensures limiter.seen == RateLimit.Expired(old(limiter.seen), LIMITS.window, now)
    {
      boxes := map id | id in boxes && now - boxes[id].created < TTL :: boxes[id];
      limiter.Expire(now);
    }

    method PutSlot(from: RateLimit.RateKey, id: string, slot: string, body: Bytes, now: int) returns (status: Status)
      requires Valid()
      modifies this, limiter
      ensures Valid()
      ensures (Abstract(), status) == Put(old(Abstract()), from, id, slot, body, now)
    {
      if !ValidId(id) {
        return BadRequest;
      }
      var which := SlotIndex(slot);
      if which.None? {
        return NotFound;
      }
      if body == [] || |body| > MAX_SLOT {
        return PayloadTooLarge;
      }
      Expire(now);
      var allowed := limiter.Allow(from, now);
      if !allowed {
        return TooManyRequests;
      }
      var exists_ := id in boxes;
      if !exists_ && |boxes| >= MAX_MAILBOXES {
        return Unavailable;
      }
      var entry := if exists_ then boxes[id] else Entry(Mailbox(None, None, None), now);
      ghost var live := boxes;
      boxes := boxes[id := entry];
      if entry.box.Get(which.value).Some? {
        assert boxes == live;
        return Conflict;
      }
      boxes := boxes[id := entry.(box := entry.box.Set(which.value, body))];
      assert boxes == live[id := entry.(box := entry.box.Set(which.value, body))];
      return Created;
    }

    method GetSlot(from: RateLimit.RateKey, id: string, slot: string, now: int) returns (status: Status, bytes: Bytes)
      requires Valid()
      modifies this, limiter
      ensures Valid()
      ensures (Abstract(), status, bytes) == Get(old(Abstract()), from, id, slot, now)
    {
      if !ValidId(id) {
        return BadRequest, [];
      }
      var which := SlotIndex(slot);
      if which.None? {
        return NotFound, [];
      }
      Expire(now);
      var allowed := limiter.Allow(from, now);
      if !allowed {
        return TooManyRequests, [];
      }
      if id !in boxes {
        return NotFound, [];
      }
      match boxes[id].box.Get(which.value) {
        case Some(found) => return Status.Ok, found;
        case None => return NotFound, [];
      }
    }
  }

  // ---- Runs, and the history they are judged by ------------------------------------

  datatype Op =
    | PutOp(from: RateLimit.RateKey, id: string, slot: string, body: Bytes, now: int)
    | GetOp(from: RateLimit.RateKey, id: string, slot: string, now: int)

  function Do(s: Inner, op: Op): Inner {
    match op
    case PutOp(from, id, slot, body, now) => Put(s, from, id, slot, body, now).0
    case GetOp(from, id, slot, now) => Get(s, from, id, slot, now).0
  }

  function After(ops: seq<Op>): Inner {
    if ops == [] then Inner(map[], map[]) else Do(After(ops[..|ops| - 1]), ops[|ops| - 1])
  }

  ghost predicate Monotone(ops: seq<Op>) {
    forall i, j :: 0 <= i < j < |ops| ==> ops[i].now <= ops[j].now
  }

  /** The last request of `ops` was a write, and it was accepted. */
  predicate AcceptsLast(ops: seq<Op>)
    requires ops != []
  {
    var op := ops[|ops| - 1];
    op.PutOp? && Put(After(ops[..|ops| - 1]), op.from, op.id, op.slot, op.body, op.now).1 == Created
  }

  predicate Accepted(ops: seq<Op>, i: int) {
    0 <= i < |ops| && AcceptsLast(ops[..i + 1])
  }

  predicate WritesTo(op: Op, id: string, which: Slot) {
    op.PutOp? && op.id == id && SlotIndex(op.slot) == Some(which)
  }

  /** Which accepted write opened mailbox `id`'s current lifetime: the first one, or the
      first after an earlier lifetime ran out. Judged from the history alone. */
  function Birth(ops: seq<Op>, id: string): Option<nat> {
    if ops == [] then None
    else
      var front, op := ops[..|ops| - 1], ops[|ops| - 1];
      var before := Birth(front, id);
      if AcceptsLast(ops) && op.id == id &&
         (before.None? || before.value >= |front| || op.now - front[before.value].now >= 120)
      then Some(|front|) else before
  }

  /** The latest accepted write to a slot. */
  function LastWrite(ops: seq<Op>, id: string, which: Slot): Option<nat> {
    if ops == [] then None
    else if AcceptsLast(ops) && WritesTo(ops[|ops| - 1], id, which) then Some(|ops| - 1)
    else LastWrite(ops[..|ops| - 1], id, which)
  }

  /** What a reader of the history alone would find in a slot. */
  function HistoryRead(ops: seq<Op>, id: string, which: Slot): Option<Bytes> {
    match (Birth(ops, id), LastWrite(ops, id, which))
    case (Some(b), Some(w)) => if b <= w < |ops| && ops[w].PutOp? then Some(ops[w].body) else None
    case _ => None
  }

  /** The table agrees with the history about mailbox `id`. */
  ghost predicate Faithful(ops: seq<Op>, id: string, now: int) {
    var boxes := After(ops).boxes;
    var birth := Birth(ops, id);
    && (birth.Some? ==> birth.value < |ops|)
    && (id !in boxes ==> birth.None? || now - ops[birth.value].now >= 120)
    && (id in boxes ==> birth.Some? && boxes[id].created == ops[birth.value].now)
    && (id in boxes ==> forall which :: boxes[id].box.Get(which) == HistoryRead(ops, id, which))
  }

  lemma AdmitBoxes(s: Inner, from: RateLimit.RateKey, now: int)
    ensures Admit(s, from, now).0.boxes == Live(s.boxes, now)
  {
    hide RateLimit.Allowed, RateLimit.Expired;
  }

  /** What a write can do to the mailboxes. */
  lemma PutStep(s: Inner, from: RateLimit.RateKey, id: string, slot: string, body: Bytes, now: int)
    ensures var (after, status) := Put(s, from, id, slot, body, now);
            var live := Live(s.boxes, now);
            if status != Created then after.boxes == s.boxes || after.boxes == live
            else
              && SlotIndex(slot).Some? && body != [] && |body| <= 65536 && (id in live || |live| < 1024)
              && var which := SlotIndex(slot).value;
              && var entry := if id in live then live[id] else Entry(Mailbox(None, None, None), now);
              && entry.box.Get(which).None?
              && after.boxes == live[id := Entry(entry.box.Set(which, body), entry.created)]
    ensures Put(s, from, id, slot, body, now).1 == Unavailable ==> id !in Live(s.boxes, now)
  {
    AdmitBoxes(s, from, now);
    hide Admit, Live, ValidId, SlotIndex;
  }

  lemma GetStep(s: Inner, from: RateLimit.RateKey, id: string, slot: string, now: int)
    ensures Get(s, from, id, slot, now).0.boxes in {s.boxes, Live(s.boxes, now)}
  {
    AdmitBoxes(s, from, now);
    hide Admit, Live, ValidId, SlotIndex;
  }

  /** What a request can do to the mailboxes. */
  lemma BoxesStep(ops: seq<Op>)
    requires ops != []
    ensures var op, was, boxes := ops[|ops| - 1], After(ops[..|ops| - 1]).boxes, After(ops).boxes;
            var live := Live(was, op.now);
            if AcceptsLast(ops) then
              && op.PutOp? && SlotIndex(op.slot).Some?
              && var which := SlotIndex(op.slot).value;
              && var box := if op.id in live then live[op.id].box else Mailbox(None, None, None);
              && box.Get(which).None?
              && var created := if op.id in live then live[op.id].created else op.now;
              && boxes == live[op.id := Entry(box.Set(which, op.body), created)]
            else boxes == was || boxes == live
  {
    hide Put, Get, Live, SlotIndex;
    var s := After(ops[..|ops| - 1]);
    match ops[|ops| - 1]
    case PutOp(from, id, slot, body, now) => PutStep(s, from, id, slot, body, now);
    case GetOp(from, id, slot, now) => GetStep(s, from, id, slot, now);
  }

  /** Birth and latest write are indices into the history, of accepted writes. */
  lemma {:induction false} HistoryIndices(ops: seq<Op>, id: string, which: Slot)
    ensures Birth(ops, id).Some? ==> Birth(ops, id).value < |ops| && Accepted(ops, Birth(ops, id).value)
    ensures LastWrite(ops, id, which).Some? ==> LastWrite(ops, id, which).value < |ops|
    ensures LastWrite(ops, id, which).Some? ==> Accepted(ops, LastWrite(ops, id, which).value)
    ensures LastWrite(ops, id, which).Some? ==> WritesTo(ops[LastWrite(ops, id, which).value], id, which)
  {
    hide AcceptsLast;
    if ops != [] {
      var front := ops[..|ops| - 1];
      HistoryIndices(front, id, which);
      assert ops[..|front| + 1] == ops;
      forall i | 0 <= i < |front| && Accepted(front, i) ensures Accepted(ops, i) {
        assert front[..i + 1] == ops[..i + 1];
      }
    }
  }

  lemma {:induction false} TableIsFaithful(ops: seq<Op>, id: string)
    requires Monotone(ops) && ops != []
    ensures Faithful(ops, id, ops[|ops| - 1].now)
  {
    hide AcceptsLast, After, Faithful;
    var front, op := ops[..|ops| - 1], ops[|ops| - 1];
    BoxesStep(ops);
    if front == [] {
      StartsFaithful(id, op.now);
      FaithfulStep(ops, id, op.now);
    } else {
      TableIsFaithful(front, id);
      FaithfulStep(ops, id, front[|front| - 1].now);
    }
  }

  lemma StartsFaithful(id: string, now: int)
    ensures Faithful([], id, now)
  {
  }

  /** One request keeps the table faithful to the history. */
  lemma FaithfulStep(ops: seq<Op>, id: string, then_: int)
    requires ops != [] && Faithful(ops[..|ops| - 1], id, then_) && then_ <= ops[|ops| - 1].now
    ensures Faithful(ops, id, ops[|ops| - 1].now)
  {
    hide AcceptsLast, After;
    var front, op := ops[..|ops| - 1], ops[|ops| - 1];
    BoxesStep(ops);
    forall which ensures LastWrite(front, id, which).Some? ==>
      LastWrite(front, id, which).value < |front| && front[LastWrite(front, id, which).value].PutOp?
    {
      HistoryIndices(front, id, which);
    }
    if AcceptsLast(ops) && op.id == id {
      AcceptedFaithful(ops, id, then_);
    } else {
      forall which ensures HistoryRead(ops, id, which) == HistoryRead(front, id, which) {
      }
    }
  }

  lemma AcceptedFaithful(ops: seq<Op>, id: string, then_: int)
    requires ops != [] && Faithful(ops[..|ops| - 1], id, then_) && then_ <= ops[|ops| - 1].now
    requires AcceptsLast(ops) && ops[|ops| - 1].id == id
    requires forall which {:trigger LastWrite(ops[..|ops| - 1], id, which)} ::
      LastWrite(ops[..|ops| - 1], id, which).Some? ==>
        LastWrite(ops[..|ops| - 1], id, which).value < |ops| - 1 &&
        ops[LastWrite(ops[..|ops| - 1], id, which).value].PutOp?
    ensures Faithful(ops, id, ops[|ops| - 1].now)
  {
    BoxesStep(ops);
    hide AcceptsLast, After;
    var front, op := ops[..|ops| - 1], ops[|ops| - 1];
    var which := SlotIndex(op.slot).value;
    var live := Live(After(front).boxes, op.now);
    forall other ensures After(ops).boxes[id].box.Get(other) == HistoryRead(ops, id, other) {
      var birth := Birth(front, id);
      if id !in live {
        assert birth.Some? ==> op.now - front[birth.value].now >= 120;
        assert Birth(ops, id) == Some(|front|);
      } else {
        assert Birth(ops, id) == birth;
      }
      if other == which {
        assert HistoryRead(ops, id, other) == Some(op.body);
      } else {
        assert LastWrite(ops, id, other) == LastWrite(front, id, other);
        if id in live {
          assert HistoryRead(ops, id, other) == HistoryRead(front, id, other);
        } else {
          assert HistoryRead(ops, id, other) == None;
        }
      }
    }
  }

  /** `now` falls within the current lifetime of mailbox `id`. */
  predicate InLifetime(ops: seq<Op>, id: string, now: int) {
    var birth := Birth(ops, id);
    birth.Some? && birth.value < |ops| && now - ops[birth.value].now < 120
  }

  /** Every admitted read is answered from the history: the bytes of the accepted write
      to that slot in the mailbox's current lifetime, and nothing past its end. */
  lemma ReadsRefineHistory(ops: seq<Op>, from: RateLimit.RateKey, id: string, slot: string, now: int)
    requires Monotone(ops) && (ops != [] ==> ops[|ops| - 1].now <= now)
    requires ValidId(id) && SlotIndex(slot).Some? && Admit(After(ops), from, now).1
    ensures var (_, status, bytes) := Get(After(ops), from, id, slot, now);
            var which := SlotIndex(slot).value;
            (status, bytes) ==
              if InLifetime(ops, id, now) && HistoryRead(ops, id, which).Some?
              then (Status.Ok, HistoryRead(ops, id, which).value) else (NotFound, [])
    ensures InLifetime(ops, id, now) && HistoryRead(ops, id, SlotIndex(slot).value).Some? ==>
            exists w: nat :: w < |ops| && Accepted(ops, w) && WritesTo(ops[w], id, SlotIndex(slot).value) &&
              Birth(ops, id).value <= w && HistoryRead(ops, id, SlotIndex(slot).value) == Some(ops[w].body)
  {
    HistoryIndices(ops, id, SlotIndex(slot).value);
    hide AcceptsLast, After, ValidId, SlotIndex, RateLimit.Allowed, RateLimit.Expired;
    if ops == [] {
      StartsFaithful(id, now);
    } else {
      TableIsFaithful(ops, id);
    }
  }

  lemma {:induction false} LastWriteIsLatest(ops: seq<Op>, id: string, which: Slot, i: nat)
    requires Accepted(ops, i) && WritesTo(ops[i], id, which)
    ensures LastWrite(ops, id, which).Some? && i <= LastWrite(ops, id, which).value
  {
    hide AcceptsLast;
    if i == |ops| - 1 {
      assert ops[..i + 1] == ops;
    } else {
      assert ops[..|ops| - 1][..i + 1] == ops[..i + 1];
      LastWriteIsLatest(ops[..|ops| - 1], id, which, i);
    }
  }

  /** A slot is written once per lifetime: by the time a second write to it is accepted,
      a later lifetime has begun. */
  lemma OneWritePerLifetime(ops: seq<Op>, id: string, which: Slot, i: nat, j: nat)
    requires Monotone(ops) && i < j && Accepted(ops, i) && Accepted(ops, j)
    requires WritesTo(ops[i], id, which) && WritesTo(ops[j], id, which)
    ensures Birth(ops[..j + 1], id).Some? && i < Birth(ops[..j + 1], id).value
  {
    hide AcceptsLast, After, Birth, LastWrite, HistoryRead, Faithful;
    var upto := ops[..j + 1];
    var front := upto[..j];
    assert front == ops[..j] && upto[j] == ops[j];
    assert front[..i + 1] == ops[..i + 1];
    LastWriteIsLatest(front, id, which, i);
    assert Monotone(front) by { assert forall k :: 0 <= k < j ==> front[k] == ops[k]; }
    TableIsFaithful(front, id);
    WriteFindsNothing(upto, id, which, front[j - 1].now);
    HistoryIndices(front, id, which);
    if Birth(upto, id) == Birth(front, id) && HistoryRead(front, id, which).None? {
      NothingReadSinceBirth(front, id, which);
    }
  }

  /** A write is accepted only where the history had nothing to read. */
  lemma WriteFindsNothing(ops: seq<Op>, id: string, which: Slot, then_: int)
    requires ops != [] && Faithful(ops[..|ops| - 1], id, then_) && then_ <= ops[|ops| - 1].now
    requires AcceptsLast(ops) && WritesTo(ops[|ops| - 1], id, which)
    ensures Birth(ops, id) == Some(|ops| - 1) ||
            (Birth(ops, id) == Birth(ops[..|ops| - 1], id) && Birth(ops, id).Some? &&
             HistoryRead(ops[..|ops| - 1], id, which).None?)
  {
    BoxesStep(ops);
    hide AcceptsLast, After, HistoryRead, LastWrite;
  }

  lemma NothingReadSinceBirth(ops: seq<Op>, id: string, which: Slot)
    requires Birth(ops, id).Some? && HistoryRead(ops, id, which).None? && LastWrite(ops, id, which).Some?
    requires LastWrite(ops, id, which).value < |ops| && ops[LastWrite(ops, id, which).value].PutOp?
    ensures LastWrite(ops, id, which).value < Birth(ops, id).value
  {
    hide Birth, LastWrite;
  }

  /** The cap never refuses a write to a mailbox whose lifetime is running. */
  lemma CapSparesLiveMailboxes(ops: seq<Op>, from: RateLimit.RateKey, id: string, slot: string, body: Bytes, now: int)
    requires Monotone(ops) && (ops != [] ==> ops[|ops| - 1].now <= now)
    requires InLifetime(ops, id, now)
    ensures Put(After(ops), from, id, slot, body, now).1 != Unavailable
  {
    hide Put, AcceptsLast, After, HistoryRead;
    TableIsFaithful(ops, id);
    PutStep(After(ops), from, id, slot, body, now);
  }

  // ---- Every answer, from the history alone ----------------------------------------

  predicate HexId(id: string) {
    |id| == 64 && forall c :: c in id ==> c in "0123456789abcdefABCDEF"
  }

  /** The request names a mailbox and a slot, and a write brings something that fits. */
  predicate WellFormed(op: Op) {
    && HexId(op.id) && (op.slot == "hello" || op.slot == "offer" || op.slot == "reply")
    && (op.PutOp? ==> 0 < |op.body| <= 65536)
  }

  /** What the limiter sees of a run: an expiry and a charge per well-formed request. */
  function Charges(ops: seq<Op>): seq<RateLimit.Op> {
    if ops == [] then []
    else
      var op := ops[|ops| - 1];
      var charge := if WellFormed(op) then [RateLimit.Expire(op.now), RateLimit.Allow(op.from, op.now)] else [];
      Charges(ops[..|ops| - 1]) + charge
  }

  /** The source is within its 60 requests per ten seconds, or there is room for it among
      8192: the limiter's own answer after the charges so far. */
  predicate MayAsk(ops: seq<Op>, from: RateLimit.RateKey, now: int) {
    var limits := RateLimit.Config(60, 10, 8192);
    RateLimit.Allowed(limits, RateLimit.After(limits, Charges(ops) + [RateLimit.Expire(now)]), from, now).1
  }

  lemma HexIdExactlyWhen(id: string)
    ensures ValidId(id) <==> HexId(id)
  {
    forall c: char ensures
      ('0' <= c <= '9' || 'a' <= c <= 'f' || 'A' <= c <= 'F') <==> c in "0123456789abcdefABCDEF"
    {
      HexCharacter(c);
    }
  }

  lemma HexCharacter(c: char)
    ensures ('0' <= c <= '9' || 'a' <= c <= 'f' || 'A' <= c <= 'F') <==> c in "0123456789abcdefABCDEF"
  {
    var all := "0123456789abcdefABCDEF";
    if '0' <= c <= '9' {
      assert all[c as int - '0' as int] == c;
    } else if 'a' <= c <= 'f' {
      assert all[10 + (c as int - 'a' as int)] == c;
    } else if 'A' <= c <= 'F' {
      assert all[16 + (c as int - 'A' as int)] == c;
    }
  }

  /** The limiter's table is that of those charges, whatever became of the requests. */
  lemma {:induction false} LimiterSeesCharges(ops: seq<Op>)
    ensures After(ops).seen == RateLimit.After(RateLimit.Config(60, 10, 8192), Charges(ops))
  {
    hide ValidId, HexId, Live, RateLimit.After, RateLimit.Allowed, RateLimit.Expired;
    if ops == [] {
      LimiterStarts();
    } else {
      var front, op := ops[..|ops| - 1], ops[|ops| - 1];
      LimiterSeesCharges(front);
      HexIdExactlyWhen(op.id);
      TwoCharges(Charges(front), op.from, op.now);
      if !WellFormed(op) {
        assert Charges(ops) == Charges(front);
      }
    }
  }

  lemma LimiterStarts()
    ensures RateLimit.After(RateLimit.Config(60, 10, 8192), []) == map[]
  {
  }

  lemma TwoCharges(charges: seq<RateLimit.Op>, from: RateLimit.RateKey, now: int)
    ensures var limits := RateLimit.Config(60, 10, 8192);
            var seen := RateLimit.Expired(RateLimit.After(limits, charges), 10, now);
            && RateLimit.After(limits, charges + [RateLimit.Expire(now)]) == seen
            && RateLimit.After(limits, charges + [RateLimit.Expire(now), RateLimit.Allow(from, now)])
               == RateLimit.Allowed(limits, seen, from, now).0
  {
    hide RateLimit.Allowed, RateLimit.Expired;
    var one := charges + [RateLimit.Expire(now)];
    var two := charges + [RateLimit.Expire(now), RateLimit.Allow(from, now)];
    assert one[..|charges|] == charges && two[..|charges| + 1] == one;
  }

  lemma AdmitsExactlyWhen(ops: seq<Op>, from: RateLimit.RateKey, now: int)
    ensures Admit(After(ops), from, now).1 <==> MayAsk(ops, from, now)
  {
    LimiterSeesCharges(ops);
    TwoCharges(Charges(ops), from, now);
    hide RateLimit.After, RateLimit.Allowed, RateLimit.Expired, After, Charges;
  }

  lemma {:induction false} BirthIsOwn(ops: seq<Op>, id: string)
    ensures Birth(ops, id).Some? ==> Birth(ops, id).value < |ops| && ops[Birth(ops, id).value].id == id
  {
    hide AcceptsLast;
    if ops != [] {
      BirthIsOwn(ops[..|ops| - 1], id);
    }
  }

  /** The mailboxes whose lifetime is running. */
  ghost function OpenIds(ops: seq<Op>, now: int): set<string> {
    set op | op in ops && InLifetime(ops, op.id, now) :: op.id
  }

  /** The table's live mailboxes are those, each slot holding what the history says. */
  lemma LiveIsOpen(ops: seq<Op>, id: string, now: int)
    requires Monotone(ops) && (ops != [] ==> ops[|ops| - 1].now <= now)
    ensures id in Live(After(ops).boxes, now) <==> InLifetime(ops, id, now)
    ensures InLifetime(ops, id, now) ==>
      && id in OpenIds(ops, now) && id in After(ops).boxes
      && forall which :: After(ops).boxes[id].box.Get(which) == HistoryRead(ops, id, which)
  {
    hide AcceptsLast, After, HistoryRead;
    if ops == [] {
      StartsFaithful(id, now);
    } else {
      TableIsFaithful(ops, id);
    }
    BirthIsOwn(ops, id);
  }

  lemma LiveCount(ops: seq<Op>, now: int)
    requires Monotone(ops) && (ops != [] ==> ops[|ops| - 1].now <= now)
    ensures |Live(After(ops).boxes, now)| == |OpenIds(ops, now)|
  {
    var live := Live(After(ops).boxes, now);
    forall id ensures id in live.Keys <==> id in OpenIds(ops, now) {
      LiveIsOpen(ops, id, now);
    }
    hide After, InLifetime;
    assert live.Keys == OpenIds(ops, now);
  }

  /** Every answer to a write follows from the history: refusals in the order they are
      looked at, and otherwise the write is accepted exactly when the slot is free in the
      mailbox's lifetime, or the mailbox is new and fewer than 1024 are live. */
  lemma WritesAnswerExactlyWhen(ops: seq<Op>, from: RateLimit.RateKey, id: string, slot: string, body: Bytes, now: int)
    requires Monotone(ops) && (ops != [] ==> ops[|ops| - 1].now <= now)
    ensures var status := Put(After(ops), from, id, slot, body, now).1;
            var named := slot == "hello" || slot == "offer" || slot == "reply";
            if !HexId(id) then status == BadRequest
            else if !named then status == NotFound
            else if !(0 < |body| <= 65536) then status == PayloadTooLarge
            else if !MayAsk(ops, from, now) then status == TooManyRequests
            else if !InLifetime(ops, id, now) then
              status == if |OpenIds(ops, now)| >= 1024 then Unavailable else Created
            else
              status == if HistoryRead(ops, id, SlotIndex(slot).value).Some? then Conflict else Created
  {
    HexIdExactlyWhen(id);
    AdmitsExactlyWhen(ops, from, now);
    LiveIsOpen(ops, id, now);
    LiveCount(ops, now);
    PutAnswers(After(ops), from, id, slot, body, now);
    hide After, MayAsk, Live, InLifetime, HistoryRead, OpenIds, ValidId, HexId, Admit, Put;
  }

  lemma PutAnswers(s: Inner, from: RateLimit.RateKey, id: string, slot: string, body: Bytes, now: int)
    ensures var status, live := Put(s, from, id, slot, body, now).1, Live(s.boxes, now);
            && (id in live ==> id in s.boxes)
            && status ==
              if !ValidId(id) then BadRequest
              else if SlotIndex(slot).None? then NotFound
              else if body == [] || |body| > 65536 then PayloadTooLarge
              else if !Admit(s, from, now).1 then TooManyRequests
              else if id !in live then if |live| >= 1024 then Unavailable else Created
              else if s.boxes[id].box.Get(SlotIndex(slot).value).Some? then Conflict else Created
  {
    AdmitBoxes(s, from, now);
    LiveKeeps(s.boxes, now);
    hide Admit, Live, ValidId, SlotIndex;
  }

  lemma LiveKeeps(boxes: Boxes, now: int)
    ensures forall id :: id in Live(boxes, now) ==> id in boxes && Live(boxes, now)[id] == boxes[id]
  {
  }

  /** And so does every answer to a read: it is the bytes the history holds for the slot in
      the mailbox's current lifetime. */
  lemma ReadsAnswerExactlyWhen(ops: seq<Op>, from: RateLimit.RateKey, id: string, slot: string, now: int)
    requires Monotone(ops) && (ops != [] ==> ops[|ops| - 1].now <= now)
    ensures var (_, status, bytes) := Get(After(ops), from, id, slot, now);
            var named := slot == "hello" || slot == "offer" || slot == "reply";
            if !HexId(id) then status == BadRequest && bytes == []
            else if !named then status == NotFound && bytes == []
            else if !MayAsk(ops, from, now) then status == TooManyRequests && bytes == []
            else if InLifetime(ops, id, now) && HistoryRead(ops, id, SlotIndex(slot).value).Some? then
              status == Status.Ok && bytes == HistoryRead(ops, id, SlotIndex(slot).value).value
            else status == NotFound && bytes == []
  {
    HexIdExactlyWhen(id);
    AdmitsExactlyWhen(ops, from, now);
    hide After, MayAsk, InLifetime, HistoryRead, ValidId, HexId, Admit;
    if ValidId(id) && SlotIndex(slot).Some? && Admit(After(ops), from, now).1 {
      ReadsRefineHistory(ops, from, id, slot, now);
    }
  }

  /** The three slots are three: each name its own. */
  lemma SlotsAreApart(box: Mailbox, which: Slot, other: Slot, body: Bytes)
    ensures box.Set(which, body).Get(other) == if other == which then Some(body) else box.Get(other)
    ensures SlotIndex("hello") == Some(Hello) && SlotIndex("offer") == Some(Offer) && SlotIndex("reply") == Some(Reply)
  {
  }

  // ---- Bounds ----------------------------------------------------------------------

  predicate SlotOk(slot: Option<Bytes>) {
    slot.Some? ==> 0 < |slot.value| <= 65536
  }

  predicate BoxOk(box: Mailbox) {
    && SlotOk(box.hello) && SlotOk(box.offer) && SlotOk(box.reply)
    && (box.hello.Some? || box.offer.Some? || box.reply.Some?)
  }

  function SlotSize(slot: Option<Bytes>): nat {
    if slot.Some? then |slot.value| else 0
  }

  function BoxSize(box: Mailbox): (n: nat)
    ensures BoxOk(box) ==> 0 < n <= 196608
  {
    SlotSize(box.hello) + SlotSize(box.offer) + SlotSize(box.reply)
  }

  ghost function StoredBytes(boxes: Boxes): (n: nat)
    ensures (forall id :: id in boxes ==> BoxSize(boxes[id].box) <= 196608) ==> n <= |boxes| * 196608
    decreases |boxes|
  {
    if boxes == map[] then 0
    else
      var id :| id in boxes;
      assert (boxes - {id}).Keys == boxes.Keys - {id};
      BoxSize(boxes[id].box) + StoredBytes(boxes - {id})
  }

  lemma {:induction false} SubmapSize(small: Boxes, big: Boxes)
    requires small.Keys <= big.Keys
    ensures |small| <= |big|
    decreases |big|
  {
    if id :| id in small {
      assert (small - {id}).Keys == small.Keys - {id} && (big - {id}).Keys == big.Keys - {id};
      SubmapSize(small - {id}, big - {id});
    }
  }

  lemma LiveSize(boxes: Boxes, now: int)
    ensures |Live(boxes, now)| <= |boxes|
  {
    SubmapSize(Live(boxes, now), boxes);
  }

  ghost predicate AllOk(boxes: Boxes) {
    |boxes| <= 1024 && forall id :: id in boxes ==> BoxOk(boxes[id].box)
  }

  /** At every moment of every run at most 1024 mailboxes are held, none of them empty,
      no slot over 64 KiB, and so never more than 192 MiB in all. */
  lemma {:induction false} MailboxesAreBounded(ops: seq<Op>)
    ensures AllOk(After(ops).boxes)
    ensures StoredBytes(After(ops).boxes) <= 1024 * 3 * 65536
  {
    hide Do, BoxOk, BoxSize, StoredBytes;
    if ops != [] {
      var front, op := ops[..|ops| - 1], ops[|ops| - 1];
      MailboxesAreBounded(front);
      BoundedStep(After(front), op);
    }
    assert StoredBytes(After(ops).boxes) <= |After(ops).boxes| * 196608;
  }

  lemma LiveOk(boxes: Boxes, now: int)
    requires AllOk(boxes)
    ensures AllOk(Live(boxes, now))
  {
    LiveSize(boxes, now);
  }

  lemma SetOk(box: Mailbox, which: Slot, body: Bytes)
    requires (BoxOk(box) || box == Mailbox(None, None, None)) && body != [] && |body| <= 65536
    ensures BoxOk(box.Set(which, body))
  {
  }

  lemma BoundedStep(s: Inner, op: Op)
    requires AllOk(s.boxes)
    ensures AllOk(Do(s, op).boxes)
  {
    hide Put, Get, SlotIndex, Live, BoxOk;
    LiveOk(s.boxes, op.now);
    var live := Live(s.boxes, op.now);
    if op.PutOp? && SlotIndex(op.slot).Some? && op.body != [] && |op.body| <= 65536 {
      var box := if op.id in live then live[op.id].box else Mailbox(None, None, None);
      SetOk(box, SlotIndex(op.slot).value, op.body);
    }
    match op
    case PutOp(from, id, slot, body, now) => PutStep(s, from, id, slot, body, now);
    case GetOp(from, id, slot, now) => GetStep(s, from, id, slot, now);
  }
}
