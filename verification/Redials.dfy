/** The redial schedule (`PeerRedials` in `src/lifecycle.rs`), in seconds. */
module Redials {
  import opened Wrappers

  const RECONNECT_INTERVAL: nat := 30
  const MAX_BACKOFF_EXP: nat := 4
  const U32_MAX: nat := 0xffff_ffff

  type Peer = string

  function Pow2(n: nat): (r: nat)
    ensures r >= 1
  {
    if n == 0 then 1 else 2 * Pow2(n - 1)
  }

  function Min(a: nat, b: nat): nat {
    if a < b then a else b
  }

  /** How long after its `failures`-th granted attempt a peer may next be tried. */
  function Gap(failures: nat): nat {
    RECONNECT_INTERVAL * Pow2(Min(failures, MAX_BACKOFF_EXP))
  }

  datatype Attempt = Attempt(failures: nat, deadline: int)

  datatype Budget = Budget(attempts: map<Peer, Attempt>, connectedSince: map<Peer, int>)

  function Allowed(b: Budget, peer: Peer, now: int): (Budget, bool) {
    var a := if peer in b.attempts then b.attempts[peer] else Attempt(0, now);
    if now < a.deadline then (b.(attempts := b.attempts[peer := a]), false)
    else (b.(attempts := b.attempts[peer := Attempt(Min(a.failures + 1, U32_MAX), now + Gap(a.failures))]), true)
  }

  function Connected(b: Budget, peer: Peer, now: int): Budget {
    if peer in b.connectedSince then b else b.(connectedSince := b.connectedSince[peer := now])
  }

  function Disconnected(b: Budget, peer: Peer, now: int): Budget {
    if peer !in b.connectedSince then b
    else
      var c := b.(connectedSince := b.connectedSince - {peer});
      if now - b.connectedSince[peer] >= RECONNECT_INTERVAL * 2 then c.(attempts := b.attempts - {peer}) else c
  }

  class PeerRedials {
    var attempts: map<Peer, Attempt>
    var connectedSince: map<Peer, int>

    ghost function Abstract(): Budget
      reads this
    {
      Budget(attempts, connectedSince)
    }

    constructor ()
      ensures Abstract() == Budget(map[], map[])
    {
      attempts, connectedSince := map[], map[];
    }

    method Allow(peer: Peer, now: int) returns (granted: bool)
      modifies this
      ensures (Abstract(), granted) == Allowed(old(Abstract()), peer, now)
    {
      if peer !in attempts {
        attempts := attempts[peer := Attempt(0, now)];
      }
      var entry := attempts[peer];
      assert peer !in old(attempts) ==> entry.deadline == now;
      if now < entry.deadline {
        assert attempts == old(attempts)[peer := entry];
        return false;
      }
      attempts := attempts[peer := Attempt(if entry.failures < U32_MAX then entry.failures + 1 else U32_MAX,
                                           now + Gap(entry.failures))];
      assert attempts == old(attempts)[peer := attempts[peer]];
      return true;
    }

    method Connect(peer: Peer, now: int)
      modifies this
      ensures Abstract() == Connected(old(Abstract()), peer, now)
    {
      if peer !in connectedSince {
        connectedSince := connectedSince[peer := now];
      }
    }

    method Disconnect(peer: Peer, now: int)
      modifies this
      ensures Abstract() == Disconnected(old(Abstract()), peer, now)
    {
      if peer in connectedSince {
        var since := connectedSince[peer];
        connectedSince := connectedSince - {peer};
        if now - since >= RECONNECT_INTERVAL * 2 {
          attempts := attempts - {peer};
        }
      }
    }
  }

  // ---- Runs ------------------------------------------------------------------------

  datatype Op = Ask(peer: Peer, now: int) | Up(peer: Peer, now: int) | Down(peer: Peer, now: int)

  function Do(b: Budget, op: Op): Budget {
    match op
    case Ask(peer, now) => Allowed(b, peer, now).0
    case Up(peer, now) => Connected(b, peer, now)
    case Down(peer, now) => Disconnected(b, peer, now)
  }

  function After(ops: seq<Op>): Budget {
    if ops == [] then Budget(map[], map[]) else Do(After(ops[..|ops| - 1]), ops[|ops| - 1])
  }

  /** When `peer` was granted an attempt, in order. */
  function Grants(ops: seq<Op>, peer: Peer): seq<int> {
    if ops == [] then []
    else
      var front, op := ops[..|ops| - 1], ops[|ops| - 1];
      var granted := if op.Ask? && op.peer == peer && Allowed(After(front), peer, op.now).1 then [op.now] else [];
      Grants(front, peer) + granted
  }

  /** `op` ends a connection that lasted long enough to earn a fresh budget. */
  predicate Resets(b: Budget, op: Op, peer: Peer) {
    op.Down? && op.peer == peer && peer in b.connectedSince &&
    op.now - b.connectedSince[peer] >= RECONNECT_INTERVAL * 2
  }

  /** When the connection to `peer` that is open after `ops`, if one is, came up: further
      connections beside it make no difference until it is gone. */
  function OpenSince(ops: seq<Op>, peer: Peer): Option<int> {
    if ops == [] then None
    else
      var before, op := OpenSince(ops[..|ops| - 1], peer), ops[|ops| - 1];
      if op.peer != peer || op.Ask? then before
      else if op.Down? then None
      else if before.Some? then before else Some(op.now)
  }

  /** After `ops`, `op` ends a connection to `peer` that lasted a minute or more. */
  predicate EndsLong(ops: seq<Op>, op: Op, peer: Peer) {
    op.Down? && op.peer == peer && OpenSince(ops, peer).Some? && op.now - OpenSince(ops, peer).value >= 60
  }

  lemma {:induction false} ConnectionsAreTracked(ops: seq<Op>, peer: Peer)
    ensures OpenSince(ops, peer) ==
            if peer in After(ops).connectedSince then Some(After(ops).connectedSince[peer]) else None
  {
    if ops != [] {
      ConnectionsAreTracked(ops[..|ops| - 1], peer);
    }
  }

  lemma ResetsExactlyWhen(ops: seq<Op>, op: Op, peer: Peer)
    ensures Resets(After(ops), op, peer) <==> EndsLong(ops, op, peer)
  {
    ConnectionsAreTracked(ops, peer);
  }

  /** The attempts granted since the last connection of a minute or more ended. */
  function GrantsSince(ops: seq<Op>, peer: Peer): seq<int> {
    if ops == [] then []
    else
      var front, op := ops[..|ops| - 1], ops[|ops| - 1];
      var granted := op.Ask? && op.peer == peer && Allowed(After(front), peer, op.now).1;
      if EndsLong(front, op, peer) then []
      else if granted then GrantsSince(front, peer) + [op.now] else GrantsSince(front, peer)
  }

  ghost predicate NoReset(ops: seq<Op>, peer: Peer) {
    forall i :: 0 <= i < |ops| ==> !EndsLong(ops[..i], ops[i], peer)
  }

  lemma FrontNoReset(ops: seq<Op>, peer: Peer)
    requires NoReset(ops, peer) && ops != []
    ensures NoReset(ops[..|ops| - 1], peer) && !EndsLong(ops[..|ops| - 1], ops[|ops| - 1], peer)
  {
    hide EndsLong;
    var front := ops[..|ops| - 1];
    forall i | 0 <= i < |front| ensures !EndsLong(front[..i], front[i], peer) {
      assert front[..i] == ops[..i];
    }
  }

  lemma {:induction false} AllSinceWithoutReset(ops: seq<Op>, peer: Peer)
    requires NoReset(ops, peer)
    ensures GrantsSince(ops, peer) == Grants(ops, peer)
  {
    hide EndsLong, After, Allowed;
    if ops != [] {
      FrontNoReset(ops, peer);
      AllSinceWithoutReset(ops[..|ops| - 1], peer);
    }
  }

  /** The least time from the first granted attempt to the n-th after it. */
  function Schedule(n: nat): nat {
    if n == 0 then 0 else Schedule(n - 1) + Gap(n - 1)
  }

  /** The schedule in closed form: doubling for five attempts, then every eight minutes. */
  lemma {:induction false} ScheduleIs(n: nat)
    ensures Schedule(n) == if n <= 5 then 30 * (Pow2(n) - 1) else 930 + 480 * (n - 5)
  {
    if n > 0 {
      ScheduleIs(n - 1);
      assert Pow2(4) == 16 && Pow2(5) == 32 by {
        assert Pow2(1) == 2 && Pow2(2) == 4 && Pow2(3) == 8;
      }
    }
  }

  /** The budget's entry for `peer` is its grants: how many, and when the next is due. */
  ghost predicate Tracks(b: Budget, grants: seq<int>, peer: Peer) {
    if grants == [] then peer !in b.attempts
    else
      && peer in b.attempts
      && b.attempts[peer].failures == Min(|grants|, U32_MAX)
      && b.attempts[peer].deadline == grants[|grants| - 1] + Gap(|grants| - 1)
  }

  ghost predicate Spaced(grants: seq<int>) {
    forall k :: 0 < k < |grants| ==> grants[k] >= grants[k - 1] + Gap(k - 1)
  }

  lemma GapSaturates(n: nat)
    ensures Gap(Min(n, U32_MAX)) == Gap(n)
  {
  }

  lemma TracksStep(b: Budget, grants: seq<int>, peer: Peer, op: Op)
    requires Tracks(b, grants, peer) && !Resets(b, op, peer)
    ensures var granted := op.Ask? && op.peer == peer && Allowed(b, peer, op.now).1;
            && Tracks(Do(b, op), if granted then grants + [op.now] else grants, peer)
            && (granted && grants != [] ==> op.now >= grants[|grants| - 1] + Gap(|grants| - 1))
  {
    hide Gap;
    GapSaturates(|grants|);
  }

  lemma ResetForgets(b: Budget, peer: Peer, op: Op)
    requires Resets(b, op, peer)
    ensures Tracks(Do(b, op), [], peer)
  {
  }

  /** In every run a peer's entry is its grants since its last long connection. */
  lemma {:induction false} BudgetTracksGrants(ops: seq<Op>, peer: Peer)
    ensures Tracks(After(ops), GrantsSince(ops, peer), peer) && Spaced(GrantsSince(ops, peer))
  {
    hide Tracks, Do, Allowed, Gap, EndsLong, Resets;
    if ops != [] {
      var front, op := ops[..|ops| - 1], ops[|ops| - 1];
      BudgetTracksGrants(front, peer);
      ResetsExactlyWhen(front, op, peer);
      if EndsLong(front, op, peer) {
        ResetForgets(After(front), peer, op);
      } else {
        TracksStep(After(front), GrantsSince(front, peer), peer, op);
      }
    } else {
      NothingTracked(peer);
    }
  }

  lemma NothingTracked(peer: Peer)
    ensures Tracks(Budget(map[], map[]), [], peer)
  {
  }

  /** In every run an attempt is granted exactly when none was since the last long connection
      ended, or the last such grant is 30 seconds back, doubled for each grant before it up
      to four times. */
  lemma GrantedExactlyWhen(ops: seq<Op>, peer: Peer, now: int)
    ensures var g := GrantsSince(ops, peer);
            Allowed(After(ops), peer, now).1 <==>
            g == [] || now >= g[|g| - 1] + 30 * Pow2(if |g| <= 5 then |g| - 1 else 4)
  {
    BudgetTracksGrants(ops, peer);
    hide After, GrantsSince, Pow2;
    var g := GrantsSince(ops, peer);
    if g != [] {
      GapSaturates(|g| - 1);
    }
  }

  /** A connection of a minute or more earns a fresh budget: whenever it is asked for next,
      an attempt is granted at once and the schedule starts over. A shorter one, or the end
      of one that was not open, leaves every peer's budget alone. */
  lemma LongConnectionEarnsFreshBudget(ops: seq<Op>, peer: Peer, now: int, ask: int)
    ensures var ended := After(ops + [Down(peer, now)]);
            if OpenSince(ops, peer).Some? && now - OpenSince(ops, peer).value >= 60 then
              && Allowed(ended, peer, ask).1 && Allowed(ended, peer, ask).0.attempts[peer] == Attempt(1, ask + 30)
              && (forall p :: p != peer ==> (p in ended.attempts <==> p in After(ops).attempts))
            else
              ended.attempts == After(ops).attempts
  {
    assert (ops + [Down(peer, now)])[..|ops|] == ops;
    ResetsExactlyWhen(ops, Down(peer, now), peer);
    assert Pow2(0) == 1;
  }

  /** With no long connection in between, the n-th granted attempt to a peer comes at
      least 30(2^n - 1) seconds after the first for n up to 5, and 930 + 480(n - 5)
      beyond, however often discovery asks. */
  lemma {:induction false} RedialSchedule(ops: seq<Op>, peer: Peer, n: nat)
    requires NoReset(ops, peer) && n < |Grants(ops, peer)|
    ensures Grants(ops, peer)[n] - Grants(ops, peer)[0] >=
      if n <= 5 then 30 * (Pow2(n) - 1) else 930 + 480 * (n - 5)
  {
    GrantsFollowSchedule(ops, peer, n);
    ScheduleIs(n);
  }

  lemma {:induction false} GrantsFollowSchedule(ops: seq<Op>, peer: Peer, n: nat)
    requires NoReset(ops, peer) && n < |Grants(ops, peer)|
    ensures Grants(ops, peer)[n] - Grants(ops, peer)[0] >= Schedule(n)
  {
    if n > 0 {
      GrantsFollowSchedule(ops, peer, n - 1);
      BudgetTracksGrants(ops, peer);
      AllSinceWithoutReset(ops, peer);
    }
  }

  /** An offline peer is never given up on: asking eight minutes after the last grant,
      or with no grant yet, always succeeds. */
  lemma EightMinutesAlwaysSuffice(ops: seq<Op>, peer: Peer, now: int)
    requires NoReset(ops, peer)
    requires Grants(ops, peer) != [] ==> now >= Grants(ops, peer)[|Grants(ops, peer)| - 1] + 480
    ensures Allowed(After(ops), peer, now).1
  {
    BudgetTracksGrants(ops, peer);
    AllSinceWithoutReset(ops, peer);
    if Grants(ops, peer) != [] {
      GapBound(|Grants(ops, peer)| - 1);
    }
  }

  lemma GapBound(n: nat)
    ensures Gap(n) <= 480
  {
    assert Pow2(0) == 1 && Pow2(1) == 2 && Pow2(2) == 4 && Pow2(3) == 8 && Pow2(4) == 16;
  }

  function Own(ops: seq<Op>, peer: Peer): seq<Op> {
    if ops == [] then []
    else
      var front, op := Own(ops[..|ops| - 1], peer), ops[|ops| - 1];
      if op.peer == peer then front + [op] else front
  }

  ghost predicate AgreeOn(a: Budget, b: Budget, peer: Peer) {
    && (peer in a.attempts <==> peer in b.attempts)
    && (peer in a.attempts ==> a.attempts[peer] == b.attempts[peer])
    && (peer in a.connectedSince <==> peer in b.connectedSince)
    && (peer in a.connectedSince ==> a.connectedSince[peer] == b.connectedSince[peer])
  }

  lemma AgreeStep(a: Budget, b: Budget, peer: Peer, op: Op)
    requires AgreeOn(a, b, peer)
    ensures AgreeOn(Do(a, op), if op.peer == peer then Do(b, op) else b, peer)
    ensures op.peer == peer ==> Allowed(a, peer, op.now).1 == Allowed(b, peer, op.now).1
  {
  }

  /** Other peers have no effect: a peer's entries and grants are those of its own
      events alone. */
  lemma {:induction false} OtherPeersHaveNoEffect(ops: seq<Op>, peer: Peer)
    ensures AgreeOn(After(ops), After(Own(ops, peer)), peer) && Grants(ops, peer) == Grants(Own(ops, peer), peer)
  {
    if ops != [] {
      var front, op := ops[..|ops| - 1], ops[|ops| - 1];
      OtherPeersHaveNoEffect(front, peer);
      AgreeStep(After(front), After(Own(front, peer)), peer, op);
      hide Do, After, AgreeOn, Allowed;
      var own := Own(front, peer);
      assert (own + [op])[..|own|] == own;
    }
  }
}
