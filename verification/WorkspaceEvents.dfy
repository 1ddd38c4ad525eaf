/** The append-only workspace event log of `src/workspace_event.rs`: the store, the
    causal frontier, and the fold that turns a set of events into a workspace. */
module WorkspaceEvents {
  import opened Wrappers
  import opened Ordering

  datatype Status = Pending | Accepted | Synced | Conflicted | Rejected | Reverted

  function Rank(s: Status): nat {
    match s
    case Pending => 0
    case Conflicted => 1
    case Accepted => 2
    case Synced => 2
    case Rejected => 3
    case Reverted => 4
  }

  datatype Kind =
    | WorkspaceForked(forkId: string, forkBase: string)
    | SnapshotRecorded(snapshotId: string, parentSnapshot: Option<string>)
    | ProposalCreated(created: string, base: string, result: string, changed: seq<string>, initial: Status)
    | ProposalStatusChanged(changedId: string, status: Status, snapshot: string)
    | ProposalRejected(rejected: string, snapshot: string)
    | MergeCompleted(merged: seq<string>, mergeResult: string)
    | ConflictDetected(conflicted: string, paths: seq<string>)

  datatype Event = Event(
    schema: nat, id: string, circle: string, parents: seq<string>, lamport: nat,
    createdAt: int, peer: string, device: string, kind: Kind)

  // ---- Order -----------------------------------------------------------------------

  /** Comparison of `order_key`: Lamport time, wall clock, origin peer, id. */
  predicate EventLess(a: Event, b: Event) {
    a.lamport < b.lamport || (a.lamport == b.lamport &&
      (a.createdAt < b.createdAt || (a.createdAt == b.createdAt &&
        (StrLess(a.peer, b.peer) || (a.peer == b.peer && StrLess(a.id, b.id))))))
  }

  ghost predicate UniqueIds(s: set<Event>) {
    forall a, b :: a in s && b in s && a.id == b.id ==> a == b
  }

  /** `order_key` is a strict order, and total on events with unique ids. */
  lemma EventOrder(s: set<Event>)
    requires UniqueIds(s)
    ensures Strict(EventLess) && TotalOn(EventLess, s)
  {
    EventLessStrict();
    forall a, b | a in s && b in s && a != b ensures EventLess(a, b) || EventLess(b, a) {
      StrLessTotal(a.peer, b.peer);
      StrLessTotal(a.id, b.id);
    }
  }

  lemma EventLessStrict()
    ensures Strict(EventLess)
  {
    forall a: Event ensures !EventLess(a, a) {
      StrLessIrreflexive(a.peer);
      StrLessIrreflexive(a.id);
    }
    forall a, b, c | EventLess(a, b) && EventLess(b, c) ensures EventLess(a, c) {
      if StrLess(a.peer, b.peer) && StrLess(b.peer, c.peer) { StrLessTransitive(a.peer, b.peer, c.peer); }
      if StrLess(a.id, b.id) && StrLess(b.id, c.id) { StrLessTransitive(a.id, b.id, c.id); }
    }
  }

  // ---- Frontier --------------------------------------------------------------------

  /** The events no event of `events` names as a parent. */
  ghost predicate IsHead(e: Event, events: set<Event>) {
    e in events && forall f :: f in events ==> e.id !in f.parents
  }

  ghost function HeadIds(events: set<Event>): set<string> {
    set e | e in events && IsHead(e, events) :: e.id
  }

  method Frontier(events: seq<Event>) returns (r: seq<string>)
    ensures r == InOrder(HeadIds(Elems(events)))
  {
    var ids := set e | e in events :: e.id;
    for i := 0 to |events|
      invariant forall id :: id in ids <==>
        (exists e :: e in events && e.id == id) && forall k :: 0 <= k < i ==> id !in events[k].parents
    {
      var parents := events[i].parents;
      ghost var before := ids;
      for j := 0 to |parents|
        invariant forall id :: id in ids <==> id in before && id !in parents[..j]
      {
        ids := ids - {parents[j]};
      }
      assert parents[..|parents|] == parents;
    }
    assert ids == HeadIds(Elems(events)) by {
      forall id | id in ids ensures id in HeadIds(Elems(events)) {
        var e :| e in events && e.id == id;
        assert IsHead(e, Elems(events));
      }
    }
    r := Drain(ids);
  }

  // ---- Materialisation -------------------------------------------------------------

  datatype Proposal = Proposal(base: string, result: string, status: Status, conflicts: seq<string>)

  datatype Workspace = Workspace(
    current: Option<string>, proposals: map<string, Proposal>, forks: map<string, string>,
    merges: seq<(seq<string>, string)>, frontier: seq<string>)

  /** What a status decision is weighed by. Wall-clock time is not part of it. */
  datatype StatusKey = StatusKey(rank: nat, lamport: nat, peer: string, id: string)

  predicate KeyLess(a: StatusKey, b: StatusKey) {
    a.rank < b.rank || (a.rank == b.rank &&
      (a.lamport < b.lamport || (a.lamport == b.lamport &&
        (StrLess(a.peer, b.peer) || (a.peer == b.peer && StrLess(a.id, b.id))))))
  }

  lemma KeyOrder()
    ensures Strict(KeyLess)
    ensures forall a, b :: a == b || KeyLess(a, b) || KeyLess(b, a)
  {
    forall a: StatusKey ensures !KeyLess(a, a) {
      StrLessIrreflexive(a.peer);
      StrLessIrreflexive(a.id);
    }
    forall a, b, c | KeyLess(a, b) && KeyLess(b, c) ensures KeyLess(a, c) {
      if StrLess(a.peer, b.peer) && StrLess(b.peer, c.peer) { StrLessTransitive(a.peer, b.peer, c.peer); }
      if StrLess(a.id, b.id) && StrLess(b.id, c.id) { StrLessTransitive(a.id, b.id, c.id); }
    }
    forall a: StatusKey, b: StatusKey ensures a == b || KeyLess(a, b) || KeyLess(b, a) {
      StrLessTotal(a.peer, b.peer);
      StrLessTotal(a.id, b.id);
    }
  }

  function KeyFor(e: Event, s: Status): StatusKey {
    StatusKey(Rank(s), e.lamport, e.peer, e.id)
  }

  /** The fold's accumulator: the workspace so far and the winning key per proposal. */
  datatype Fold = Fold(ws: Workspace, keys: map<string, StatusKey>)

  const EMPTY_WORKSPACE := Workspace(None, map[], map[], [], [])

  predicate Wins(keys: map<string, StatusKey>, p: string, key: StatusKey) {
    p !in keys || KeyLess(keys[p], key)
  }

  /** A status decision: it counts, for status and snapshot alike, only if it wins. */
  function Decide(f: Fold, p: string, key: StatusKey, status: Status, snapshot: string): Fold {
    if !Wins(f.keys, p, key) then f
    else
      var proposals := if p in f.ws.proposals
        then f.ws.proposals[p := f.ws.proposals[p].(status := status)] else f.ws.proposals;
      Fold(f.ws.(proposals := proposals, current := Some(snapshot)), f.keys[p := key])
  }

  ghost function ApplyEvent(f: Fold, e: Event): Fold {
    match e.kind
    case WorkspaceForked(id, base) => f.(ws := f.ws.(forks := f.ws.forks[id := base]))
    case SnapshotRecorded(id, _) => f.(ws := f.ws.(current := Some(id)))
    case ProposalCreated(p, base, result, _, initial) =>
      var key := KeyFor(e, initial);
      var found := if p in f.ws.proposals then f.ws.proposals[p] else Proposal(base, result, initial, []);
      var wins := Wins(f.keys, p, key);
      var proposal := if wins then found.(status := initial) else found;
      var current := if proposal.status == initial && (initial == Accepted || initial == Synced)
        then Some(result) else f.ws.current;
      Fold(f.ws.(proposals := f.ws.proposals[p := proposal], current := current),
           if wins then f.keys[p := key] else f.keys)
    case ProposalStatusChanged(p, status, snapshot) => Decide(f, p, KeyFor(e, status), status, snapshot)
    case ProposalRejected(p, snapshot) => Decide(f, p, KeyFor(e, Rejected), Rejected, snapshot)
    case MergeCompleted(ids, result) =>
      f.(ws := f.ws.(merges := f.ws.merges + [(ids, result)], current := Some(result)))
    case ConflictDetected(p, paths) =>
      if p !in f.ws.proposals then f
      else
        var known := f.ws.proposals[p];
        var merged := known.(conflicts := InOrder(Elems(known.conflicts + paths)));
        f.(ws := f.ws.(proposals := f.ws.proposals[p := merged]))
  }

  ghost function FoldAll(s: seq<Event>): Fold {
    if s == [] then Fold(EMPTY_WORKSPACE, map[]) else ApplyEvent(FoldAll(s[..|s| - 1]), s[|s| - 1])
  }

  ghost function Materialized(events: seq<Event>): Workspace {
    FoldAll(Sort(EventLess, events)).ws.(frontier := InOrder(HeadIds(Elems(events))))
  }

  method Materialize(events: seq<Event>) returns (state: Workspace)
    ensures state == Materialized(events)
  {
    hide StrLess, EventLess, Sort, Sorted, Strict;
    var sorted := Sort(EventLess, events);
    state := EMPTY_WORKSPACE;
    var statusKeys: map<string, StatusKey> := map[];
    for i := 0 to |sorted|
      invariant Fold(state, statusKeys) == FoldAll(sorted[..i])
    {
      var event := sorted[i];
      assert sorted[..i + 1][..i] == sorted[..i];
      match event.kind {
        case WorkspaceForked(id, base) =>
          state := state.(forks := state.forks[id := base]);
        case SnapshotRecorded(id, _) =>
          state := state.(current := Some(id));
        case ProposalCreated(p, base, result, _, initial) =>
          var key := KeyFor(event, initial);
          var proposal := if p in state.proposals then state.proposals[p] else Proposal(base, result, initial, []);
          if p !in statusKeys || KeyLess(statusKeys[p], key) {
            statusKeys := statusKeys[p := key];
            proposal := proposal.(status := initial);
          }
          state := state.(proposals := state.proposals[p := proposal]);
          if proposal.status == initial && (initial == Accepted || initial == Synced) {
            state := state.(current := Some(result));
          }
        case ProposalStatusChanged(p, status, snapshot) =>
          var key := KeyFor(event, status);
          if p !in statusKeys || KeyLess(statusKeys[p], key) {
            statusKeys := statusKeys[p := key];
            if p in state.proposals {
              state := state.(proposals := state.proposals[p := state.proposals[p].(status := status)]);
            }
            state := state.(current := Some(snapshot));
          }
        case ProposalRejected(p, snapshot) =>
          var key := KeyFor(event, Rejected);
          if p !in statusKeys || KeyLess(statusKeys[p], key) {
            statusKeys := statusKeys[p := key];
            if p in state.proposals {
              state := state.(proposals := state.proposals[p := state.proposals[p].(status := Rejected)]);
            }
            state := state.(current := Some(snapshot));
          }
        case MergeCompleted(ids, result) =>
          state := state.(merges := state.merges + [(ids, result)], current := Some(result));
        case ConflictDetected(p, paths) =>
          if p in state.proposals {
            var proposal := state.proposals[p];
            var conflicts := Drain(set c | c in proposal.conflicts + paths);
            state := state.(proposals := state.proposals[p := proposal.(conflicts := conflicts)]);
          }
      }
    }
    assert sorted[..|sorted|] == sorted;
    SortKeeps(EventLess, events);
    var heads := Frontier(sorted);
    state := state.(frontier := heads);
  }

  // ---- Convergence of materialisation ----------------------------------------------

  ghost predicate DistinctIds(s: seq<Event>) {
    forall i, j :: 0 <= i < j < |s| ==> s[i].id != s[j].id
  }

  lemma DistinctIdsAreUnique(s: seq<Event>)
    requires DistinctIds(s)
    ensures UniqueIds(Elems(s)) && Distinct(s)
  {
    forall a, b | a in Elems(s) && b in Elems(s) && a.id == b.id ensures a == b {
      var i :| 0 <= i < |s| && s[i] == a;
      var j :| 0 <= j < |s| && s[j] == b;
    }
  }

  /** Any two replicas holding the same events materialise the same workspace, in
      whatever order the events were read from disk. */
  lemma MaterializationConverges(s: seq<Event>, t: seq<Event>)
    requires DistinctIds(s) && DistinctIds(t) && Elems(s) == Elems(t)
    ensures Materialized(s) == Materialized(t)
  {
    DistinctIdsAreUnique(s);
    DistinctIdsAreUnique(t);
    EventOrder(Elems(s));
    SortCanonical(EventLess, s, t);
  }

  // ---- Status precedence -----------------------------------------------------------

  /** The status `e` claims for proposal `p`, if it claims one. */
  function Claim(e: Event, p: string): Option<Status> {
    match e.kind
    case ProposalCreated(q, _, _, _, initial) => if q == p then Some(initial) else None
    case ProposalStatusChanged(q, status, _) => if q == p then Some(status) else None
    case ProposalRejected(q, _) => if q == p then Some(Rejected) else None
    case _ => None
  }

  function ClaimKey(e: Event, p: string): StatusKey
    requires Claim(e, p).Some?
  {
    KeyFor(e, Claim(e, p).value)
  }

  /** `w` claims a status for `p`, and every other such claim in `s` has a lesser key. */
  ghost predicate Greatest(s: set<Event>, p: string, w: Event) {
    && w in s && Claim(w, p).Some?
    && forall e :: e in s && e != w && Claim(e, p).Some? ==> KeyLess(ClaimKey(e, p), ClaimKey(w, p))
  }

  predicate Creates(e: Event, p: string) {
    e.kind.ProposalCreated? && e.kind.created == p
  }

  /** `c` is the first creation of `p` in log order. */
  ghost predicate FirstCreation(s: set<Event>, p: string, c: Event) {
    c in s && Creates(c, p) && forall e :: e in s && e != c && Creates(e, p) ==> EventLess(c, e)
  }

  /** The paths of conflict events on `p` that come after `c`. */
  ghost function ConflictPaths(s: set<Event>, p: string, c: Event): set<string> {
    set e, x | e in s && e.kind.ConflictDetected? && e.kind.conflicted == p && EventLess(c, e) &&
      x in e.kind.paths :: x
  }

  /** What one event does to what the fold holds about `p`. */
  ghost predicate Effect(f: Fold, e: Event, p: string, g: Fold) {
    && (p in g.keys <==> p in f.keys || Claim(e, p).Some?)
    && var wins := Claim(e, p).Some? && Wins(f.keys, p, ClaimKey(e, p));
    && (p in g.keys ==> g.keys[p] == if wins then ClaimKey(e, p) else f.keys[p])
    && (p in g.ws.proposals <==> p in f.ws.proposals || Creates(e, p))
    && (p in f.ws.proposals ==> g.ws.proposals[p] == f.ws.proposals[p].(
          status := if wins then Claim(e, p).value else f.ws.proposals[p].status,
          conflicts := if e.kind.ConflictDetected? && e.kind.conflicted == p
            then InOrder(Elems(f.ws.proposals[p].conflicts + e.kind.paths))
            else f.ws.proposals[p].conflicts))
    && (p !in f.ws.proposals && Creates(e, p) ==>
          g.ws.proposals[p] == Proposal(e.kind.base, e.kind.result, e.kind.initial, []))
  }

  lemma ApplyEffect(f: Fold, e: Event, p: string)
    ensures Effect(f, e, p, ApplyEvent(f, e))
  {
    match e.kind
    case WorkspaceForked(_, _) =>
    case SnapshotRecorded(_, _) =>
    case ProposalCreated(_, _, _, _, _) =>
    case ProposalStatusChanged(_, _, _) =>
    case ProposalRejected(_, _) =>
    case MergeCompleted(_, _) =>
    case ConflictDetected(_, _) =>
  }

  lemma FoldEffect(s: seq<Event>, p: string)
    requires s != []
    ensures s == s[..|s| - 1] + [s[|s| - 1]]
    ensures Effect(FoldAll(s[..|s| - 1]), s[|s| - 1], p, FoldAll(s))
  {
    hide *;
    FoldStep(s);
    ApplyEffect(FoldAll(s[..|s| - 1]), s[|s| - 1], p);
  }

  lemma FoldStep(s: seq<Event>)
    requires s != []
    ensures FoldAll(s) == ApplyEvent(FoldAll(s[..|s| - 1]), s[|s| - 1])
  {
  }

  /** The claims of a non-empty set have a greatest one. */
  lemma {:induction false} GreatestExists(s: seq<Event>, p: string) returns (w: Event)
    requires exists e :: e in s && Claim(e, p).Some?
    requires DistinctIds(s)
    ensures Greatest(Elems(s), p, w)
    ensures p in FoldAll(s).keys && FoldAll(s).keys[p] == ClaimKey(w, p)
  {
    hide FoldAll, ApplyEvent, StrLess, KeyLess, Rank;
    var front, e := s[..|s| - 1], s[|s| - 1];
    FoldEffect(s, p);
    KeyOrder();
    if exists x :: x in front && Claim(x, p).Some? {
      w := GreatestExists(front, p);
      if Claim(e, p).Some? && KeyLess(ClaimKey(w, p), ClaimKey(e, p)) {
        w := e;
      }
    } else {
      NoClaimNoKey(front, p);
      w := e;
    }
  }

  lemma {:induction false} NoClaimNoKey(s: seq<Event>, p: string)
    requires forall e :: e in s ==> Claim(e, p).None?
    ensures p !in FoldAll(s).keys && p !in FoldAll(s).ws.proposals
  {
    if s != [] {
      FoldEffect(s, p);
      assert s[|s| - 1] in s;
      NoClaimNoKey(s[..|s| - 1], p);
    }
  }

  lemma {:induction false} NoCreationNoProposal(s: seq<Event>, p: string)
    requires forall e :: e in s ==> !Creates(e, p)
    ensures p !in FoldAll(s).ws.proposals
  {
    if s != [] {
      FoldEffect(s, p);
      assert s[|s| - 1] in s;
      NoCreationNoProposal(s[..|s| - 1], p);
    }
  }

  /** What the fold holds for a proposal, on a sorted log. */
  ghost predicate ProposalIs(s: seq<Event>, p: string, c: Event, w: Event)
    requires Claim(w, p).Some? && Creates(c, p)
  {
    && p in FoldAll(s).ws.proposals
    && var r := FoldAll(s).ws.proposals[p];
    && r.status == (if EventLess(w, c) then c.kind.initial else Claim(w, p).value)
    && r.base == c.kind.base && r.result == c.kind.result
    && r.conflicts == InOrder(ConflictPaths(Elems(s), p, c))
  }

  lemma {:induction false} SortedFold(s: seq<Event>, p: string, c: Event, w: Event)
    requires Sorted(EventLess, s) && DistinctIds(s)
    requires FirstCreation(Elems(s), p, c) && Greatest(Elems(s), p, w)
    ensures ProposalIs(s, p, c, w)
  {
    var front, e := s[..|s| - 1], s[|s| - 1];
    assert s == front + [e];
    if e == c {
      CreationStep(s, p, c, w);
    } else {
      assert c in front;
      LaterStep(front, e, p, c);
      var v := GreatestExists(front, p);
      SortedFold(front, p, c, v);
      WinnerStep(front, e, p, v, w);
      DecisionStep(front, e, p, c, v, w);
    }
  }

  lemma LaterStep(front: seq<Event>, e: Event, p: string, c: Event)
    requires Sorted(EventLess, front + [e]) && DistinctIds(front + [e]) && c in front
    requires FirstCreation(Elems(front + [e]), p, c)
    ensures Sorted(EventLess, front) && DistinctIds(front) && FirstCreation(Elems(front), p, c)
    ensures EventLess(c, e)
  {
    assert Elems(front + [e]) == Elems(front) + {e};
    var s := front + [e];
    var i :| 0 <= i < |front| && front[i] == c;
    assert s[i] == c && s[|front|] == e;
    assert forall j :: 0 <= j < |front| ==> s[j] == front[j];
  }

  lemma WinnerStep(front: seq<Event>, e: Event, p: string, v: Event, w: Event)
    requires Greatest(Elems(front), p, v) && Greatest(Elems(front + [e]), p, w) && e !in front
    ensures w == if Claim(e, p).Some? && KeyLess(ClaimKey(v, p), ClaimKey(e, p)) then e else v
  {
    KeyOrder();
    assert Elems(front + [e]) == Elems(front) + {e};
    assert v in Elems(front + [e]);
  }

  lemma DecisionStep(front: seq<Event>, e: Event, p: string, c: Event, v: Event, w: Event)
    requires Creates(c, p) && Claim(v, p).Some? && ProposalIs(front, p, c, v) && EventLess(c, e)
    requires p in FoldAll(front).keys && FoldAll(front).keys[p] == ClaimKey(v, p)
    requires w == if Claim(e, p).Some? && KeyLess(ClaimKey(v, p), ClaimKey(e, p)) then e else v
    ensures ProposalIs(front + [e], p, c, w)
  {
    hide FoldAll, ApplyEvent, InOrder, StrLess, EventLess, KeyLess, KeyFor, Rank, ConflictPaths;
    var s := front + [e];
    assert s[..|s| - 1] == front;
    FoldEffect(s, p);
    assert !EventLess(e, c) by { EventLessStrict(); }
    ConflictStep(front, e, p, c);
    var r := FoldAll(s).ws.proposals[p];
    assert r.status == (if EventLess(w, c) then c.kind.initial else Claim(w, p).value);
    assert r.base == c.kind.base && r.result == c.kind.result;
    if e.kind.ConflictDetected? && e.kind.conflicted == p {
      assert Elems(InOrder(ConflictPaths(Elems(front), p, c)) + e.kind.paths) == ConflictPaths(Elems(s), p, c);
    } else {
      assert ConflictPaths(Elems(s), p, c) == ConflictPaths(Elems(front), p, c);
    }
    assert r.conflicts == InOrder(ConflictPaths(Elems(s), p, c));
  }

  lemma CreationStep(s: seq<Event>, p: string, c: Event, w: Event)
    requires Sorted(EventLess, s) && DistinctIds(s) && s != [] && s[|s| - 1] == c
    requires FirstCreation(Elems(s), p, c) && Greatest(Elems(s), p, w)
    ensures ProposalIs(s, p, c, w)
  {
    hide ApplyEvent, FoldAll, EventLess, StrLess, KeyLess, KeyFor, InOrder, ConflictPaths;
    var front := s[..|s| - 1];
    FoldEffect(s, p);
    LastIsAfterAll(s, front);
    assert forall e :: e in front ==> e in Elems(s);
    EventLessStrict();
    NoCreationNoProposal(front, p);
    NoConflictsYet(s, p, c);
    EmptyInOrder();
    assert w in s;
  }

  lemma LastIsAfterAll(s: seq<Event>, front: seq<Event>)
    requires Sorted(EventLess, s) && s != [] && front == s[..|s| - 1]
    ensures forall e :: e in s ==> e == s[|s| - 1] || EventLess(e, s[|s| - 1])
    ensures forall e :: e in front ==> EventLess(e, s[|s| - 1])
  {
    forall e | e in front ensures EventLess(e, s[|s| - 1]) {
      var i :| 0 <= i < |front| && front[i] == e;
      assert s[i] == e;
    }
  }

  lemma NoConflictsYet(s: seq<Event>, p: string, c: Event)
    requires Strict(EventLess) && forall e :: e in s ==> e == c || EventLess(e, c)
    ensures ConflictPaths(Elems(s), p, c) == {}
  {
    hide EventLess;
  }

  lemma EmptyInOrder()
    ensures InOrder({}) == []
  {
    assert forall x :: x in InOrder({}) ==> x in Elems(InOrder({}));
  }

  lemma ConflictStep(front: seq<Event>, e: Event, p: string, c: Event)
    requires EventLess(c, e)
    ensures ConflictPaths(Elems(front + [e]), p, c) ==
            ConflictPaths(Elems(front), p, c) +
            (if e.kind.ConflictDetected? && e.kind.conflicted == p then Elems(e.kind.paths) else {})
    ensures forall known: seq<string>, paths: seq<string> :: Elems(known + paths) == Elems(known) + Elems(paths)
  {
    assert Elems(front + [e]) == Elems(front) + {e};
  }

  /** Status precedence, exactly as the code has it. Of a proposal's claims the one
      with the greatest (rank, lamport, peer, id) decides, unless it is ordered before
      the first creation: then it is recorded but the creation's own status shows.
      Conflicts are the sorted union of the paths reported after the creation. */
  lemma StatusPrecedence(events: seq<Event>, p: string, c: Event, w: Event)
    requires DistinctIds(events)
    requires FirstCreation(Elems(events), p, c) && Greatest(Elems(events), p, w)
    ensures p in Materialized(events).proposals
    ensures var r := Materialized(events).proposals[p];
            && r.status == (if EventLess(w, c) then c.kind.initial else Claim(w, p).value)
            && r.base == c.kind.base && r.result == c.kind.result
            && Sorted(StrLess, r.conflicts) && Elems(r.conflicts) == ConflictPaths(Elems(events), p, c)
  {
    DistinctIdsAreUnique(events);
    EventOrder(Elems(events));
    SortSorts(EventLess, events);
    SortKeeps(EventLess, events);
    var s := Sort(EventLess, events);
    SortedKeepsDistinctIds(events, s);
    SortedFold(s, p, c, w);
  }

  lemma SortedKeepsDistinctIds(events: seq<Event>, s: seq<Event>)
    requires UniqueIds(Elems(events)) && Elems(s) == Elems(events)
    requires Strict(EventLess) && Sorted(EventLess, s)
    ensures DistinctIds(s)
  {
    forall i, j | 0 <= i < j < |s| ensures s[i].id != s[j].id {
      assert s[i] in Elems(s) && s[j] in Elems(s);
    }
  }

  /** The documented rule, that the greatest claim's status shows, holds exactly when
      that claim is not ordered before the creation or agrees with it anyway. */
  lemma PrecedenceHoldsExactlyWhen(events: seq<Event>, p: string, c: Event, w: Event)
    requires DistinctIds(events)
    requires FirstCreation(Elems(events), p, c) && Greatest(Elems(events), p, w)
    ensures p in Materialized(events).proposals
    ensures Materialized(events).proposals[p].status == Claim(w, p).value <==>
            !EventLess(w, c) || c.kind.initial == Claim(w, p).value
  {
    StatusPrecedence(events, p, c, w);
  }

  /** Learning of more events never lowers a proposal's winning key. */
  lemma WinningKeyOnlyGrows(before: set<Event>, after: set<Event>, p: string, w: Event, w': Event)
    requires before <= after && Greatest(before, p, w) && Greatest(after, p, w')
    ensures w == w' || KeyLess(ClaimKey(w, p), ClaimKey(w', p))
  {
    assert w in after;
  }

  /** Nor, while its creation comes first, the rank of the status it shows. */
  lemma PrecedenceIsMonotone(before: seq<Event>, after: seq<Event>, p: string, c: Event, c': Event,
                             w: Event, w': Event)
    requires DistinctIds(before) && DistinctIds(after) && Elems(before) <= Elems(after)
    requires FirstCreation(Elems(before), p, c) && Greatest(Elems(before), p, w) && !EventLess(w, c)
    requires FirstCreation(Elems(after), p, c') && Greatest(Elems(after), p, w') && !EventLess(w', c')
    ensures p in Materialized(before).proposals && p in Materialized(after).proposals
    ensures Rank(Materialized(before).proposals[p].status) <= Rank(Materialized(after).proposals[p].status)
  {
    StatusPrecedence(before, p, c, w);
    StatusPrecedence(after, p, c', w');
    WinningKeyOnlyGrows(Elems(before), Elems(after), p, w, w');
  }

  /** A decision that does not beat an earlier claim changes nothing at all, not even
      the current snapshot. */
  lemma LosingDecisionChangesNothing(s: seq<Event>, e: Event, rival: Event, p: string)
    requires DistinctIds(s + [e]) && rival in s && Claim(rival, p).Some?
    requires !e.kind.ProposalCreated? && Claim(e, p).Some? && KeyLess(ClaimKey(e, p), ClaimKey(rival, p))
    ensures FoldAll(s + [e]) == FoldAll(s)
  {
    hide FoldAll, EventLess, StrLess, KeyLess, KeyFor, Rank;
    FoldStep(s + [e]);
    assert (s + [e])[..|s|] == s;
    assert DistinctIds(s) by {
      forall i, j | 0 <= i < j < |s| ensures s[i].id != s[j].id {
        assert (s + [e])[i] == s[i] && (s + [e])[j] == s[j];
      }
    }
    var w := GreatestExists(s, p);
    KeyOrder();
    assert rival in Elems(s);
    assert !KeyLess(ClaimKey(w, p), ClaimKey(e, p));
  }
}
