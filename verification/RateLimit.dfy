/** Per-source request budgets (`src/rate_limit.rs`): fixed-window counters in a table
    that is itself bounded. */
module RateLimit {
  import opened Wrappers

  /** What a budget is counted against: an IPv4 address, or an IPv6 /64 prefix. */
  datatype RateKey = V4(octets: seq<int>) | V6Prefix(prefix: seq<int>)

  /** One table entry: requests charged, and when the window opened. */
  datatype Window = Window(count: nat, started: int)

  type Table = map<RateKey, Window>

  /** Counters are 32 bits wide and wrap. */
  const U32: nat := 0x1_0000_0000

  type u32 = n: int | 0 <= n < U32

  datatype Config = Config(max: u32, window: nat, maxTracked: nat)

  function Expired(seen: Table, window: nat, now: int): Table {
    map k | k in seen && now - seen[k].started < window :: seen[k]
  }

  /** What `allow` leaves in the table and answers. */
  function Allowed(c: Config, seen: Table, key: RateKey, now: int): (Table, bool) {
    if key !in seen && |seen| >= c.maxTracked then (seen, false)
    else
      var entry := if key in seen then seen[key] else Window(0, now);
      var open := if now - entry.started >= c.window then Window(0, now) else entry;
      var charged := open.(count := (open.count + 1) % U32);
      (seen[key := charged], charged.count <= c.max)
  }

  class Limiter {
    const config: Config
    var seen: Table

    constructor (config: Config)
      ensures this.config == config && seen == map[]
    {
      this.config, seen := config, map[];
    }

    method Expire(now: int)
      modifies this
      ensures seen == Expired(old(seen), config.window, now)
      ensures forall k :: k in seen <==> k in old(seen) && now - old(seen)[k].started < config.window
      ensures forall k :: k in seen ==> seen[k] == old(seen)[k]
    {
      seen := map k | k in seen && now - seen[k].started < config.window :: seen[k];
    }

    method Allow(key: RateKey, now: int) returns (allowed: bool)
      modifies this
      ensures (seen, allowed) == Allowed(config, old(seen), key, now)
      ensures |old(seen)| <= config.maxTracked ==> |seen| <= config.maxTracked
      ensures key !in old(seen) && |old(seen)| >= config.maxTracked ==> !allowed && seen == old(seen)
      ensures key in old(seen) || |old(seen)| < config.maxTracked ==>
        && key in seen && (allowed <==> seen[key].count <= config.max)
        && seen == old(seen)[key := seen[key]]
        && seen[key] ==
           if key in old(seen) && now - old(seen)[key].started < config.window
           then Window((old(seen)[key].count + 1) % 0x1_0000_0000, old(seen)[key].started)
           else Window(1, now)
    {
      if key !in seen && |seen| >= config.maxTracked {
        return false;
      }
      var entry := if key in seen then seen[key] else Window(0, now);
      if now - entry.started >= config.window {
        entry := Window(0, now);
      }
      entry := entry.(count := (entry.count + 1) % U32);
      seen := seen[key := entry];
      allowed := entry.count <= config.max;
    }
  }

  // ---- Runs ------------------------------------------------------------------------

  datatype Op = Expire(now: int) | Allow(key: RateKey, now: int)

  function Do(c: Config, seen: Table, op: Op): Table {
    match op
    case Expire(now) => Expired(seen, c.window, now)
    case Allow(key, now) => Allowed(c, seen, key, now).0
  }

  function After(c: Config, ops: seq<Op>): Table {
    if ops == [] then map[] else Do(c, After(c, ops[..|ops| - 1]), ops[|ops| - 1])
  }

  /** Whether the last request of `ops` was one from `k`, at `lo` or later, and allowed. */
  predicate GrantsLast(c: Config, ops: seq<Op>, k: RateKey, lo: int)
    requires ops != []
  {
    var op := ops[|ops| - 1];
    op.Allow? && op.key == k && op.now >= lo && Allowed(c, After(c, ops[..|ops| - 1]), k, op.now).1
  }

  /** How many requests from `k` were allowed at `lo` or later. */
  function GrantedFrom(c: Config, ops: seq<Op>, k: RateKey, lo: int): nat {
    if ops == [] then 0
    else
      var last := if GrantsLast(c, ops, k, lo) then 1 else 0;
      GrantedFrom(c, ops[..|ops| - 1], k, lo) + last
  }

  /** How many requests from `k` were allowed in the half-open interval [`lo`, `hi`). */
  function Granted(c: Config, ops: seq<Op>, k: RateKey, lo: int, hi: int): nat {
    if ops == [] then 0
    else
      var last := if GrantsLast(c, ops, k, lo) && ops[|ops| - 1].now < hi then 1 else 0;
      Granted(c, ops[..|ops| - 1], k, lo, hi) + last
  }

  ghost predicate Monotone(ops: seq<Op>) {
    forall i, j :: 0 <= i < j < |ops| ==> ops[i].now <= ops[j].now
  }

  /** How many requests `k` made at `lo` or later. */
  function CallsFrom(ops: seq<Op>, k: RateKey, lo: int): nat {
    if ops == [] then 0
    else
      var op := ops[|ops| - 1];
      CallsFrom(ops[..|ops| - 1], k, lo) + (if op.Allow? && op.key == k && op.now >= lo then 1 else 0)
  }

  /** How many requests `k` made in the half-open interval [`lo`, `hi`). */
  function CallsIn(ops: seq<Op>, k: RateKey, lo: int, hi: int): nat {
    if ops == [] then 0
    else
      var op := ops[|ops| - 1];
      CallsIn(ops[..|ops| - 1], k, lo, hi) + (if op.Allow? && op.key == k && lo <= op.now < hi then 1 else 0)
  }

  // ---- Grants of one window --------------------------------------------------------

  /** How many of `n` requests charged to one window are allowed: the first `max`, and then
      `max + 1` for every time the counter wraps. */
  function WindowGrants(max: u32, n: nat): nat {
    n / U32 * (max + 1) + (if n % U32 < max then n % U32 else max)
  }

  lemma OneMoreGrant(max: u32, n: nat)
    ensures WindowGrants(max, n + 1) == WindowGrants(max, n) + if (n + 1) % U32 <= max then 1 else 0
    ensures WindowGrants(max, 0) == 0
  {
    var q := n / U32;
    if n % U32 == U32 - 1 {
      assert n + 1 == (q + 1) * U32;
      assert (n + 1) / U32 == q + 1 && (n + 1) % U32 == 0;
      assert (q + 1) * (max + 1) == q * (max + 1) + (max + 1);
    } else {
      assert (n + 1) / U32 == q && (n + 1) % U32 == n % U32 + 1;
    }
  }

  /** Two windows together grant at most twice the budget, unless they hold so many requests
      that a counter wrapped round and past the budget again. */
  lemma TwoWindows(max: u32, n: nat, m: nat)
    requires n + m < U32 + max
    ensures WindowGrants(max, n) + WindowGrants(max, m) <= 2 * max
  {
    SmallWindow(max, n);
    SmallWindow(max, m);
  }

  lemma SmallWindow(max: u32, n: nat)
    requires n < U32 + max
    ensures n < U32 ==> WindowGrants(max, n) == if n < max then n else max
    ensures n >= U32 ==> WindowGrants(max, n) == max + 1 + (n - U32)
  {
    if n < U32 {
      assert n / U32 == 0 && n % U32 == n;
    } else {
      assert n / U32 == 1 && n % U32 == n - U32;
    }
  }

  // ---- The sliding-window bound ----------------------------------------------------

  lemma {:induction false} GrantedFromAntitone(c: Config, ops: seq<Op>, k: RateKey, lo: int, hi: int)
    requires lo <= hi
    ensures GrantedFrom(c, ops, k, hi) <= GrantedFrom(c, ops, k, lo)
    ensures CallsFrom(ops, k, hi) <= CallsFrom(ops, k, lo)
  {
    hide After;
    if ops != [] {
      GrantedFromAntitone(c, ops[..|ops| - 1], k, lo, hi);
    }
  }

  ghost predicate NeverGranted(c: Config, ops: seq<Op>, k: RateKey) {
    k !in After(c, ops) && forall lo {:trigger GrantedFrom(c, ops, k, lo)} :: GrantedFrom(c, ops, k, lo) == 0
  }

  /** `k`'s latest window, opened at `s` with `n` requests charged to it, and the one before,
      opened at `s0` with `n0`. */
  datatype Windows = Windows(s: int, n: nat, s0: int, n0: nat)

  /** What is true of `k` after a run with these latest windows. */
  ghost predicate Budget(c: Config, ops: seq<Op>, k: RateKey, w: Windows, now: int) {
    && w.s0 + c.window <= w.s <= now
    && Entry(c, After(c, ops), k, w, now)
    && GrantedFrom(c, ops, k, w.s) == WindowGrants(c.max, w.n)
    && GrantedFrom(c, ops, k, w.s + c.window) == 0
    && w.n <= CallsFrom(ops, k, w.s) && w.n + w.n0 <= CallsFrom(ops, k, w.s0)
    && forall lo {:trigger GrantedFrom(c, ops, k, lo)} :: lo > w.s - c.window ==>
        GrantedFrom(c, ops, k, lo) <= WindowGrants(c.max, w.n) + Earlier(c, w, lo)
  }

  /** What the window before can still have granted from `lo` on. */
  function Earlier(c: Config, w: Windows, lo: int): nat {
    if lo < w.s0 + c.window then WindowGrants(c.max, w.n0) else 0
  }

  /** The counter is the number of requests charged, as 32 bits hold it. */
  predicate Entry(c: Config, seen: Table, k: RateKey, w: Windows, now: int) {
    if k in seen then seen[k] == Window(w.n % U32, w.s) else now >= w.s + c.window
  }

  /** Whether the next request of `k` opens a window, or is charged to the open one. */
  predicate Opens(c: Config, seen: Table, k: RateKey, now: int) {
    if k in seen then now - seen[k].started >= c.window else |seen| < c.maxTracked
  }

  predicate Charges(c: Config, seen: Table, k: RateKey, now: int) {
    k in seen && now - seen[k].started < c.window
  }

  /** A request of `k` that opens a window: one charged, allowed if the budget is not zero. */
  lemma StepOpens(c: Config, ops: seq<Op>, k: RateKey, lo: int)
    requires ops != [] && ops[|ops| - 1] == Allow(k, ops[|ops| - 1].now)
    requires Opens(c, After(c, ops[..|ops| - 1]), k, ops[|ops| - 1].now)
    ensures k in After(c, ops) && After(c, ops)[k] == Window(1, ops[|ops| - 1].now)
    ensures GrantedFrom(c, ops, k, lo) ==
            GrantedFrom(c, ops[..|ops| - 1], k, lo) + if ops[|ops| - 1].now >= lo && 1 <= c.max then 1 else 0
  {
  }

  /** A request of `k` charged to its open window, allowed by the counter it leaves. */
  lemma StepCharges(c: Config, ops: seq<Op>, k: RateKey, lo: int)
    requires ops != [] && ops[|ops| - 1] == Allow(k, ops[|ops| - 1].now)
    requires Charges(c, After(c, ops[..|ops| - 1]), k, ops[|ops| - 1].now)
    ensures var entry := After(c, ops[..|ops| - 1])[k];
            var count := (entry.count + 1) % U32;
            && k in After(c, ops) && After(c, ops)[k] == Window(count, entry.started)
            && GrantedFrom(c, ops, k, lo) ==
               GrantedFrom(c, ops[..|ops| - 1], k, lo) + if ops[|ops| - 1].now >= lo && count <= c.max then 1 else 0
  {
  }

  /** Anything else grants `k` nothing, and at most drops its entry once the window is over. */
  lemma StepStays(c: Config, ops: seq<Op>, k: RateKey, lo: int)
    requires ops != []
    requires var seen, op := After(c, ops[..|ops| - 1]), ops[|ops| - 1];
             op == Allow(k, op.now) ==> !Opens(c, seen, k, op.now) && !Charges(c, seen, k, op.now)
    ensures GrantedFrom(c, ops, k, lo) == GrantedFrom(c, ops[..|ops| - 1], k, lo)
    ensures var seen, op := After(c, ops[..|ops| - 1]), ops[|ops| - 1];
            if k in After(c, ops) then k in seen && After(c, ops)[k] == seen[k]
            else k !in seen || (op.Expire? && op.now - seen[k].started >= c.window)
  {
  }

  lemma StepCalls(ops: seq<Op>, k: RateKey, lo: int)
    requires ops != []
    ensures var op := ops[|ops| - 1];
            CallsFrom(ops, k, lo) ==
            CallsFrom(ops[..|ops| - 1], k, lo) + if op == Allow(k, op.now) && op.now >= lo then 1 else 0
  {
  }

  /** One request or expiry, as far as `k` can tell. */
  lemma StepOf(c: Config, ops: seq<Op>, k: RateKey, lo: int)
    requires ops != []
    ensures var front, op, seen := ops[..|ops| - 1], ops[|ops| - 1], After(c, ops[..|ops| - 1]);
            var own, late := op == Allow(k, op.now), op.now >= lo;
            && CallsFrom(ops, k, lo) == CallsFrom(front, k, lo) + (if own && late then 1 else 0)
            && (own && Opens(c, seen, k, op.now) ==>
                 k in After(c, ops) && After(c, ops)[k] == Window(1, op.now) &&
                 GrantedFrom(c, ops, k, lo) == GrantedFrom(c, front, k, lo) + if late && 1 <= c.max then 1 else 0)
            && (own && Charges(c, seen, k, op.now) ==>
                 var count := (seen[k].count + 1) % U32;
                 k in After(c, ops) && After(c, ops)[k] == Window(count, seen[k].started) &&
                 GrantedFrom(c, ops, k, lo) == GrantedFrom(c, front, k, lo) + if late && count <= c.max then 1 else 0)
            && (!own || !(Opens(c, seen, k, op.now) || Charges(c, seen, k, op.now)) ==>
                 GrantedFrom(c, ops, k, lo) == GrantedFrom(c, front, k, lo) &&
                 if k in After(c, ops) then k in seen && After(c, ops)[k] == seen[k]
                 else k !in seen || (op.Expire? && op.now - seen[k].started >= c.window))
  {
    hide After, GrantedFrom, CallsFrom, Opens;
    var seen, op := After(c, ops[..|ops| - 1]), ops[|ops| - 1];
    StepCalls(ops, k, lo);
    var own := op == Allow(k, op.now);
    if own && Opens(c, seen, k, op.now) {
      OpensOrCharges(c, seen, k, op.now);
      StepOpens(c, ops, k, lo);
    } else if own && Charges(c, seen, k, op.now) {
      StepCharges(c, ops, k, lo);
    } else {
      StepStays(c, ops, k, lo);
    }
  }

  lemma OpensOrCharges(c: Config, seen: Table, k: RateKey, now: int)
    requires Opens(c, seen, k, now)
    ensures !Charges(c, seen, k, now)
  {
  }

  /** Either `k` has never held an entry, or its latest windows are within budget. */
  lemma {:induction false} BudgetHolds(c: Config, ops: seq<Op>, k: RateKey) returns (w: Windows)
    requires Monotone(ops) && ops != [] && c.window > 0
    ensures Budget(c, ops, k, w, ops[|ops| - 1].now) || NeverGranted(c, ops, k)
  {
    hide GrantedFrom, CallsFrom, Budget, Entry, NeverGranted;
    var front, op := ops[..|ops| - 1], ops[|ops| - 1];
    w := Windows(op.now, 1, op.now - c.window, 0);
    if front == [] {
      NothingYet(c, k);
      FirstWindow(c, ops, k);
    } else {
      assert ops[|ops| - 2].now <= op.now;
      var v := BudgetHolds(c, front, k);
      var seen := After(c, front);
      hide After, Monotone, Opens, Charges;
      if !Budget(c, front, k, v, ops[|ops| - 2].now) {
        FirstWindow(c, ops, k);
      } else if op == Allow(k, op.now) && Opens(c, seen, k, op.now) {
        w := Windows(op.now, 1, v.s, v.n);
        WindowOpens(c, ops, k, v);
      } else if op == Allow(k, op.now) && Charges(c, seen, k, op.now) {
        w := v.(n := v.n + 1);
        WindowCharged(c, ops, k, v);
      } else {
        w := v;
        WindowStays(c, ops, k, v);
      }
    }
  }

  lemma NothingYet(c: Config, k: RateKey)
    ensures NeverGranted(c, [], k)
  {
  }

  lemma FirstWindow(c: Config, ops: seq<Op>, k: RateKey)
    requires ops != [] && c.window > 0 && NeverGranted(c, ops[..|ops| - 1], k)
    ensures var now := ops[|ops| - 1].now;
            Budget(c, ops, k, Windows(now, 1, now - c.window, 0), now) || NeverGranted(c, ops, k)
  {
    hide After, GrantedFrom, CallsFrom, WindowGrants;
    var front, now := ops[..|ops| - 1], ops[|ops| - 1].now;
    OneMoreGrant(c.max, 0);
    forall lo ensures GrantedFrom(c, front, k, lo) == 0 { }
    StepOf(c, ops, k, now);
    StepOf(c, ops, k, now + c.window);
    StepOf(c, ops, k, now - c.window);
    forall lo { StepOf(c, ops, k, lo); }
  }

  lemma WindowOpens(c: Config, ops: seq<Op>, k: RateKey, v: Windows)
    requires |ops| > 1 && c.window > 0 && ops[|ops| - 2].now <= ops[|ops| - 1].now
    requires Budget(c, ops[..|ops| - 1], k, v, ops[|ops| - 2].now)
    requires ops[|ops| - 1] == Allow(k, ops[|ops| - 1].now)
    requires Opens(c, After(c, ops[..|ops| - 1]), k, ops[|ops| - 1].now)
    ensures Budget(c, ops, k, Windows(ops[|ops| - 1].now, 1, v.s, v.n), ops[|ops| - 1].now)
  {
    hide After, GrantedFrom, CallsFrom, WindowGrants;
    var front, now := ops[..|ops| - 1], ops[|ops| - 1].now;
    assert now >= v.s + c.window;
    OneMoreGrant(c.max, 0);
    GrantedFromAntitone(c, front, k, v.s + c.window, now);
    GrantedFromAntitone(c, front, k, v.s + c.window, now + c.window);
    StepOf(c, ops, k, now);
    StepOf(c, ops, k, now + c.window);
    StepOf(c, ops, k, v.s);
    forall lo | lo > now - c.window
      ensures GrantedFrom(c, ops, k, lo) <= WindowGrants(c.max, 1) + Earlier(c, Windows(now, 1, v.s, v.n), lo)
    {
      StepOf(c, ops, k, lo);
      GrantedFromAntitone(c, front, k, v.s, lo);
      if lo >= v.s + c.window {
        GrantedFromAntitone(c, front, k, v.s + c.window, lo);
      }
    }
  }

  lemma WindowCharged(c: Config, ops: seq<Op>, k: RateKey, v: Windows)
    requires |ops| > 1 && c.window > 0 && ops[|ops| - 2].now <= ops[|ops| - 1].now
    requires Budget(c, ops[..|ops| - 1], k, v, ops[|ops| - 2].now)
    requires ops[|ops| - 1] == Allow(k, ops[|ops| - 1].now)
    requires Charges(c, After(c, ops[..|ops| - 1]), k, ops[|ops| - 1].now)
    ensures Budget(c, ops, k, v.(n := v.n + 1), ops[|ops| - 1].now)
  {
    hide After, GrantedFrom, CallsFrom, WindowGrants;
    var front, now := ops[..|ops| - 1], ops[|ops| - 1].now;
    OneMoreGrant(c.max, v.n);
    NextCount(v.n);
    StepOf(c, ops, k, v.s);
    StepOf(c, ops, k, v.s0);
    StepOf(c, ops, k, v.s + c.window);
    forall lo | lo > v.s - c.window
      ensures GrantedFrom(c, ops, k, lo) <= WindowGrants(c.max, v.n + 1) + Earlier(c, v.(n := v.n + 1), lo)
    {
      StepOf(c, ops, k, lo);
      assert GrantedFrom(c, front, k, lo) <= WindowGrants(c.max, v.n) + Earlier(c, v, lo);
    }
  }

  lemma NextCount(n: nat)
    ensures (n % U32 + 1) % U32 == (n + 1) % U32
  {
  }

  lemma WindowStays(c: Config, ops: seq<Op>, k: RateKey, v: Windows)
    requires |ops| > 1 && c.window > 0 && ops[|ops| - 2].now <= ops[|ops| - 1].now
    requires Budget(c, ops[..|ops| - 1], k, v, ops[|ops| - 2].now)
    requires var seen, op := After(c, ops[..|ops| - 1]), ops[|ops| - 1];
             op == Allow(k, op.now) ==> !Opens(c, seen, k, op.now) && !Charges(c, seen, k, op.now)
    ensures Budget(c, ops, k, v, ops[|ops| - 1].now)
  {
    hide After, GrantedFrom, CallsFrom, WindowGrants;
    var front := ops[..|ops| - 1];
    StepOf(c, ops, k, v.s);
    StepOf(c, ops, k, v.s0);
    StepOf(c, ops, k, v.s + c.window);
    forall lo | lo > v.s - c.window ensures GrantedFrom(c, ops, k, lo) <= WindowGrants(c.max, v.n) + Earlier(c, v, lo) {
      StepOf(c, ops, k, lo);
      assert GrantedFrom(c, front, k, lo) <= WindowGrants(c.max, v.n) + Earlier(c, v, lo);
    }
  }

  /** In any half-open interval one window long a source is allowed at most twice its
      budget, whatever other sources do and however expiry interleaves, as long as it makes
      fewer than 2^32 + max requests from one window before the interval to its end. */
  lemma {:induction false} SlidingWindowBound(c: Config, ops: seq<Op>, k: RateKey, lo: int)
    requires Monotone(ops)
    requires CallsIn(ops, k, lo - c.window + 1, lo + c.window) < U32 + c.max
    ensures Granted(c, ops, k, lo, lo + c.window) <= 2 * c.max
  {
    hide After, Allowed, Budget, NeverGranted, GrantedFrom, Granted, GrantsLast, CallsFrom;
    if ops == [] {
      NothingGranted(c, k, lo, lo + c.window);
    } else {
      var front, now := ops[..|ops| - 1], ops[|ops| - 1].now;
      if now >= lo + c.window || c.window == 0 {
        LastIsOutside(c, ops, k, lo, lo + c.window);
        SlidingWindowBound(c, front, k, lo);
      } else {
        hide CallsIn;
        AllBefore(c, ops, k, lo, lo + c.window);
        AllCallsBefore(ops, k, lo - c.window + 1, lo + c.window);
        var w := BudgetHolds(c, ops, k);
        BudgetBounds(c, ops, k, w, lo);
      }
    }
  }

  lemma NothingGranted(c: Config, k: RateKey, lo: int, hi: int)
    ensures Granted(c, [], k, lo, hi) == 0
  {
  }

  lemma LastIsOutside(c: Config, ops: seq<Op>, k: RateKey, lo: int, hi: int)
    requires ops != [] && (ops[|ops| - 1].now >= hi || hi <= lo)
    ensures Granted(c, ops, k, lo, hi) == Granted(c, ops[..|ops| - 1], k, lo, hi)
  {
    hide After, Allowed;
  }

  lemma BudgetBounds(c: Config, ops: seq<Op>, k: RateKey, w: Windows, lo: int)
    requires ops != [] && lo > ops[|ops| - 1].now - c.window
    requires CallsFrom(ops, k, lo - c.window + 1) < U32 + c.max
    requires Budget(c, ops, k, w, ops[|ops| - 1].now) || NeverGranted(c, ops, k)
    ensures GrantedFrom(c, ops, k, lo) <= 2 * c.max
  {
    hide After, GrantedFrom, CallsFrom, WindowGrants, Entry;
    if Budget(c, ops, k, w, ops[|ops| - 1].now) {
      if lo < w.s0 + c.window {
        GrantedFromAntitone(c, ops, k, lo - c.window + 1, w.s0);
        TwoWindows(c.max, w.n, w.n0);
      } else if lo >= w.s + c.window {
        GrantedFromAntitone(c, ops, k, w.s + c.window, lo);
      } else {
        GrantedFromAntitone(c, ops, k, lo - c.window + 1, w.s);
        TwoWindows(c.max, w.n, 0);
        assert lo > w.s - c.window;
      }
    }
  }

  lemma {:induction false} AllBefore(c: Config, ops: seq<Op>, k: RateKey, lo: int, hi: int)
    requires Monotone(ops) && (ops != [] ==> ops[|ops| - 1].now < hi)
    ensures Granted(c, ops, k, lo, hi) == GrantedFrom(c, ops, k, lo)
  {
    if ops != [] {
      AllBefore(c, ops[..|ops| - 1], k, lo, hi);
    }
  }

  lemma {:induction false} AllCallsBefore(ops: seq<Op>, k: RateKey, lo: int, hi: int)
    requires Monotone(ops) && (ops != [] ==> ops[|ops| - 1].now < hi)
    ensures CallsIn(ops, k, lo, hi) == CallsFrom(ops, k, lo)
  {
    if ops != [] {
      AllCallsBefore(ops[..|ops| - 1], k, lo, hi);
    }
  }

  // ---- The condition is exact ------------------------------------------------------

  /** `n` requests from `k` at one instant. */
  function Burst(k: RateKey, now: int, n: nat): (ops: seq<Op>)
    ensures |ops| == n && Monotone(ops)
  {
    seq(n, i => Allow(k, now))
  }

  lemma OneMoreInBurst(k: RateKey, now: int, n: nat)
    requires n > 0
    ensures Burst(k, now, n)[..n - 1] == Burst(k, now, n - 1) && Burst(k, now, n)[n - 1] == Allow(k, now)
  {
  }

  lemma {:induction false} BurstTable(c: Config, k: RateKey, now: int, n: nat)
    requires c.window > 0 && c.maxTracked > 0
    ensures After(c, Burst(k, now, n)) == if n == 0 then map[] else map[k := Window(n % U32, now)]
  {
    hide Monotone, Burst;
    if n > 0 {
      OneMoreInBurst(k, now, n);
      BurstTable(c, k, now, n - 1);
      NextCount(n - 1);
    }
  }

  lemma {:induction false} BurstCalls(c: Config, k: RateKey, now: int, n: nat)
    requires c.window > 0
    ensures CallsIn(Burst(k, now, n), k, now - c.window + 1, now + c.window) == n
  {
    hide Monotone, Burst;
    if n > 0 {
      OneMoreInBurst(k, now, n);
      BurstCalls(c, k, now, n - 1);
    }
  }

  /** Of a burst, exactly the grants of one window are allowed. */
  lemma {:induction false} BurstGrants(c: Config, k: RateKey, now: int, n: nat)
    requires c.window > 0 && c.maxTracked > 0
    ensures Granted(c, Burst(k, now, n), k, now, now + c.window) == WindowGrants(c.max, n)
    ensures CallsIn(Burst(k, now, n), k, now - c.window + 1, now + c.window) == n
  {
    hide WindowGrants, Monotone, Burst, After, CallsIn, Allowed;
    BurstCalls(c, k, now, n);
    OneMoreGrant(c.max, 0);
    if n > 0 {
      OneMoreInBurst(k, now, n);
      BurstGrants(c, k, now, n - 1);
      OneMoreGrant(c.max, n - 1);
      BurstTable(c, k, now, n - 1);
      BurstAnswer(c, k, now, n);
    }
  }

  lemma BurstAnswer(c: Config, k: RateKey, now: int, n: nat)
    requires n > 0 && c.window > 0 && c.maxTracked > 0
    ensures var seen: Table := if n == 1 then map[] else map[k := Window((n - 1) % U32, now)];
            Allowed(c, seen, k, now).1 <==> n % U32 <= c.max
  {
    NextCount(n - 1);
  }

  /** A run with at most `n` requests from `k` around an interval keeps the bound in it. */
  ghost predicate KeepsBound(c: Config, k: RateKey, n: nat, ops: seq<Op>, lo: int) {
    Monotone(ops) && CallsIn(ops, k, lo - c.window + 1, lo + c.window) <= n ==>
      Granted(c, ops, k, lo, lo + c.window) <= 2 * c.max
  }

  /** Every run of at most `n` requests around an interval keeps the bound exactly when `n`
      is below 2^32 + max: at that many, one burst is allowed 2 * max + 1 times. */
  lemma BoundHoldsExactlyWhen(c: Config, k: RateKey, n: nat)
    requires c.window > 0 && c.maxTracked > 0
    ensures (forall ops, lo :: KeepsBound(c, k, n, ops, lo)) <==> n < U32 + c.max
  {
    hide Granted, CallsIn, Monotone, Burst;
    if n < U32 + c.max {
      forall ops, lo ensures KeepsBound(c, k, n, ops, lo) {
        if Monotone(ops) && CallsIn(ops, k, lo - c.window + 1, lo + c.window) <= n {
          SlidingWindowBound(c, ops, k, lo);
        }
      }
    } else {
      WrappedBurst(c, k);
      assert !KeepsBound(c, k, n, Burst(k, 0, U32 + c.max), 0);
    }
  }

  lemma WrappedWindow(max: u32)
    ensures WindowGrants(max, U32 + max) == 2 * max + 1
  {
    assert (U32 + max) / U32 == 1 && (U32 + max) % U32 == max;
  }

  lemma WrappedBurst(c: Config, k: RateKey)
    requires c.window > 0 && c.maxTracked > 0
    ensures Granted(c, Burst(k, 0, U32 + c.max), k, 0, 0 + c.window) == 2 * c.max + 1
    ensures CallsIn(Burst(k, 0, U32 + c.max), k, 0 - c.window + 1, 0 + c.window) == U32 + c.max
  {
    hide WindowGrants, Granted, CallsIn, Burst, After;
    BurstGrants(c, k, 0, U32 + c.max);
    WrappedWindow(c.max);
  }

  // ---- Bounded table, independent sources ------------------------------------------

  lemma {:induction false} TableIsBounded(c: Config, ops: seq<Op>)
    ensures |After(c, ops)| <= c.maxTracked
  {
    if ops != [] {
      var front, op := ops[..|ops| - 1], ops[|ops| - 1];
      TableIsBounded(c, front);
      match op
      case Expire(now) => SubmapSize(Expired(After(c, front), c.window, now), After(c, front));
      case Allow(key, now) =>
    }
  }

  lemma {:induction false} SubmapSize(small: Table, big: Table)
    requires small.Keys <= big.Keys
    ensures |small| <= |big|
    decreases |big|
  {
    if k :| k in small {
      assert (small - {k}).Keys == small.Keys - {k} && (big - {k}).Keys == big.Keys - {k};
      SubmapSize(small - {k}, big - {k});
    }
  }

  /** The part of a run that is `k`'s own: its requests. */
  function Own(ops: seq<Op>, k: RateKey): seq<Op> {
    if ops == [] then []
    else
      var op := ops[|ops| - 1];
      var front := Own(ops[..|ops| - 1], k);
      if op.Allow? && op.key == k then front + [op] else front
  }

  /** `k` was never turned away for want of room. */
  ghost predicate AlwaysRoom(c: Config, ops: seq<Op>, k: RateKey) {
    forall i :: 0 <= i < |ops| && ops[i].Allow? && ops[i].key == k ==>
      k in After(c, ops[..i]) || |After(c, ops[..i])| < c.maxTracked
  }

  /** `k`'s window while it is open; expired or absent, it makes no difference which. */
  function LiveEntry(c: Config, seen: Table, k: RateKey, now: int): Option<Window> {
    if k in seen && now - seen[k].started < c.window then Some(seen[k]) else None
  }

  lemma OwnStep(c: Config, all: Table, own: Table, k: RateKey, op: Op, now: int)
    requires c.maxTracked > 0 && own.Keys <= {k} && op.now <= now
    requires LiveEntry(c, all, k, op.now) == LiveEntry(c, own, k, op.now)
    requires LiveEntry(c, all, k, now) == LiveEntry(c, own, k, now)
    requires op == Allow(k, op.now) ==> k in all || |all| < c.maxTracked
    ensures var own' := if op.Allow? && op.key == k then Do(c, own, op) else own;
            own'.Keys <= {k} && LiveEntry(c, Do(c, all, op), k, now) == LiveEntry(c, own', k, now)
  {
    if op.Allow? && op.key == k {
      if k !in own {
        assert own.Keys == {} && |own| == 0;
      }
    } else if op.Expire? {
      hide Allowed;
    }
  }

  /** A source's open window is that of its own requests alone: neither other sources nor
      when expiry happens to run make a difference. */
  lemma {:induction false} OthersHaveNoEffect(c: Config, ops: seq<Op>, k: RateKey, now: int)
    requires c.maxTracked > 0 && Monotone(ops) && AlwaysRoom(c, ops, k)
    requires ops != [] ==> ops[|ops| - 1].now <= now
    ensures After(c, Own(ops, k)).Keys <= {k}
    ensures LiveEntry(c, After(c, ops), k, now) == LiveEntry(c, After(c, Own(ops, k)), k, now)
  {
    if ops != [] {
      var front, op := ops[..|ops| - 1], ops[|ops| - 1];
      forall i | 0 <= i < |front| && front[i].Allow? && front[i].key == k
        ensures k in After(c, front[..i]) || |After(c, front[..i])| < c.maxTracked
      {
        assert front[..i] == ops[..i];
      }
      assert front != [] ==> front[|front| - 1].now <= op.now;
      hide Allowed, Expired, LiveEntry;
      OthersHaveNoEffect(c, front, k, op.now);
      OthersHaveNoEffect(c, front, k, now);
      OwnStep(c, After(c, front), After(c, Own(front, k)), k, op, now);
      var own := Own(front, k);
      assert (own + [op])[..|own|] == own;
    }
  }

  /** And so is the answer to its next request. */
  lemma AnswersAreOwn(c: Config, ops: seq<Op>, k: RateKey, now: int)
    requires c.maxTracked > 0 && Monotone(ops) && AlwaysRoom(c, ops + [Allow(k, now)], k)
    requires ops != [] ==> ops[|ops| - 1].now <= now
    ensures Allowed(c, After(c, ops), k, now).1 == Allowed(c, After(c, Own(ops, k)), k, now).1
  {
    hide Monotone, Own, After, Allowed, LiveEntry;
    var more := ops + [Allow(k, now)];
    assert more[..|ops|] == ops && more[|ops|] == Allow(k, now);
    forall i | 0 <= i < |ops| && ops[i].Allow? && ops[i].key == k
      ensures k in After(c, ops[..i]) || |After(c, ops[..i])| < c.maxTracked
    {
      assert more[..i] == ops[..i] && more[i] == ops[i];
    }
    OthersHaveNoEffect(c, ops, k, now);
    AgreeingAnswers(c, After(c, ops), After(c, Own(ops, k)), k, now);
  }

  lemma AgreeingAnswers(c: Config, all: Table, own: Table, k: RateKey, now: int)
    requires LiveEntry(c, all, k, now) == LiveEntry(c, own, k, now) && own.Keys <= {k} && c.maxTracked > 0
    requires k in all || |all| < c.maxTracked
    ensures Allowed(c, all, k, now).1 == Allowed(c, own, k, now).1
  {
    if k !in own {
      assert own.Keys == {} && |own| == 0;
    }
  }
}
