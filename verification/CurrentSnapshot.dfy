/** What `materialize` of `src/workspace_event.rs` leaves outside the proposals: the
    current snapshot, the forks and the merges, each told from the sorted log alone. */
module CurrentSnapshots {
  import opened Wrappers
  import opened Ordering
  import opened WorkspaceEvents

  // ---- What decides between events -------------------------------------------------

  /** Log order, field by field: the first of the four that differs decides. */
  lemma LogOrderExactlyWhen(a: Event, b: Event)
    ensures a.lamport != b.lamport ==> (EventLess(a, b) <==> a.lamport < b.lamport)
    ensures a.lamport == b.lamport && a.createdAt != b.createdAt ==> (EventLess(a, b) <==> a.createdAt < b.createdAt)
    ensures a.lamport == b.lamport && a.createdAt == b.createdAt && a.peer != b.peer ==>
              (EventLess(a, b) <==> StrLess(a.peer, b.peer))
    ensures a.lamport == b.lamport && a.createdAt == b.createdAt && a.peer == b.peer ==>
              (EventLess(a, b) <==> StrLess(a.id, b.id))
  {
    StrLessIrreflexive(a.peer);
  }

  /** How strong a status is: a conflict beats waiting, acceptance a conflict, rejection
      acceptance, and a revert everything. */
  predicate Stronger(s: Status, t: Status) {
    match t
    case Pending => s != Pending
    case Conflicted => s != Pending && s != Conflicted
    case Accepted => s == Rejected || s == Reverted
    case Synced => s == Rejected || s == Reverted
    case Rejected => s == Reverted
    case Reverted => false
  }

  /** The status an event claims outweighs another's: it is stronger, or as strong and
      later by Lamport time, then peer, then id. Wall-clock time has no say. */
  predicate Outweighs(e: Event, s: Status, f: Event, t: Status) {
    || Stronger(s, t)
    || (!Stronger(t, s) &&
        (e.lamport > f.lamport || (e.lamport == f.lamport &&
          (StrLess(f.peer, e.peer) || (f.peer == e.peer && StrLess(f.id, e.id))))))
  }

  lemma KeysWeighClaims(e: Event, s: Status, f: Event, t: Status)
    ensures KeyLess(KeyFor(f, t), KeyFor(e, s)) <==> Outweighs(e, s, f, t)
  {
  }

  // ---- The current snapshot --------------------------------------------------------

  /** `e`, deciding `s` for `p`, outweighs every claim on `p` made in `before`. */
  ghost predicate OutweighsAll(before: seq<Event>, e: Event, p: string, s: Status) {
    forall f :: f in before && Claim(f, p).Some? ==> Outweighs(e, s, f, Claim(f, p).value)
  }

  /** After `before`, proposal `p` shows status `s`: the weightiest claim's, unless that
      claim comes before the creation, whose own status then shows. */
  ghost predicate Shows(before: seq<Event>, p: string, s: Status) {
    exists c, w :: FirstCreation(Elems(before), p, c) && Greatest(Elems(before), p, w)
      && s == if EventLess(w, c) then c.kind.initial else Claim(w, p).value
  }

  /** Coming after `before`, `e` moves the current snapshot. */
  ghost predicate MovesCurrent(before: seq<Event>, e: Event) {
    match e.kind
    case SnapshotRecorded(_, _) => true
    case MergeCompleted(_, _) => true
    case ProposalStatusChanged(p, status, _) => OutweighsAll(before, e, p, status)
    case ProposalRejected(p, _) => OutweighsAll(before, e, p, Rejected)
    case ProposalCreated(p, _, _, _, initial) =>
      && (initial == Accepted || initial == Synced)
      && (|| OutweighsAll(before, e, p, initial)
          || (forall f :: f in before ==> !Creates(f, p))
          || Shows(before, p, initial))
    case WorkspaceForked(_, _) => false
    case ConflictDetected(_, _) => false
  }

  /** The snapshot an event names as the one it leads to. */
  function Named(e: Event): Option<string> {
    match e.kind
    case SnapshotRecorded(id, _) => Some(id)
    case MergeCompleted(_, result) => Some(result)
    case ProposalStatusChanged(_, _, snapshot) => Some(snapshot)
    case ProposalRejected(_, snapshot) => Some(snapshot)
    case ProposalCreated(_, _, result, _, _) => Some(result)
    case _ => None
  }

  ghost predicate LastMove(s: seq<Event>, i: nat)
    requires i < |s|
  {
    MovesCurrent(s[..i], s[i]) && forall j :: i < j < |s| ==> !MovesCurrent(s[..j], s[j])
  }

  /** `current` is named by the last event of `s` that moves it, if any does. */
  ghost predicate LastMoveNames(s: seq<Event>, current: Option<string>) {
    && ((forall i :: 0 <= i < |s| ==> !MovesCurrent(s[..i], s[i])) ==> current == None)
    && forall i :: 0 <= i < |s| && LastMove(s, i) ==> current == Named(s[i])
  }

  lemma WinsExactlyWhen(before: seq<Event>, e: Event, p: string, s: Status)
    requires DistinctIds(before)
    ensures Wins(FoldAll(before).keys, p, KeyFor(e, s)) <==> OutweighsAll(before, e, p, s)
  {
    hide FoldAll, StrLess, KeyLess, KeyFor, Rank, Outweighs;
    forall f | f in before && Claim(f, p).Some?
      ensures KeyLess(ClaimKey(f, p), KeyFor(e, s)) <==> Outweighs(e, s, f, Claim(f, p).value)
    {
      KeysWeighClaims(e, s, f, Claim(f, p).value);
    }
    if exists f :: f in before && Claim(f, p).Some? {
      var w := GreatestExists(before, p);
      KeyOrder();
      assert w in before;
    } else {
      NoClaimNoKey(before, p);
    }
  }

  /** A creation finds the proposal as the earlier events show it. */
  lemma FoundExactlyWhen(before: seq<Event>, p: string, s: Status)
    requires Sorted(EventLess, before) && DistinctIds(before)
    ensures p in FoldAll(before).ws.proposals <==> exists f :: f in before && Creates(f, p)
    ensures p in FoldAll(before).ws.proposals ==> (FoldAll(before).ws.proposals[p].status == s <==> Shows(before, p, s))
  {
    hide FoldAll, StrLess, EventLess, KeyLess, KeyFor, Rank;
    if exists f :: f in before && Creates(f, p) {
      var c := FirstCreationExists(before, p);
      assert c in before && Claim(c, p).Some?;
      var w := GreatestExists(before, p);
      SortedFold(before, p, c, w);
      forall c', w' | FirstCreation(Elems(before), p, c') && Greatest(Elems(before), p, w') ensures c' == c && w' == w {
        OneFirstOneGreatest(Elems(before), p, c, c', w, w');
      }
    } else {
      NoCreationNoProposal(before, p);
    }
  }

  lemma OneFirstOneGreatest(s: set<Event>, p: string, c: Event, c': Event, w: Event, w': Event)
    requires FirstCreation(s, p, c) && FirstCreation(s, p, c') && Greatest(s, p, w) && Greatest(s, p, w')
    ensures c == c' && w == w'
  {
    hide EventLess, KeyLess, StrLess;
    EventLessStrict();
    KeyOrder();
  }

  lemma {:induction false} FirstCreationExists(s: seq<Event>, p: string) returns (c: Event)
    requires Sorted(EventLess, s) && exists f :: f in s && Creates(f, p)
    ensures FirstCreation(Elems(s), p, c)
  {
    hide EventLess;
    var front, e := s[..|s| - 1], s[|s| - 1];
    if exists f :: f in front && Creates(f, p) {
      c := FirstCreationExists(front, p);
      LastIsAfterAll(s, front);
      assert forall f :: f in s ==> f in front || f == e;
    } else {
      c := e;
      assert forall f :: f in s ==> f in front || f == e;
    }
  }

  lemma CurrentStep(before: seq<Event>, e: Event)
    requires Sorted(EventLess, before) && DistinctIds(before)
    ensures ApplyEvent(FoldAll(before), e).ws.current
         == if MovesCurrent(before, e) then Named(e) else FoldAll(before).ws.current
  {
    hide FoldAll, StrLess, EventLess, KeyLess, KeyFor, Rank, OutweighsAll, Shows, Wins;
    match e.kind
    case ProposalCreated(p, _, _, _, initial) =>
      WinsExactlyWhen(before, e, p, initial);
      FoundExactlyWhen(before, p, initial);
    case ProposalStatusChanged(p, status, _) => WinsExactlyWhen(before, e, p, status);
    case ProposalRejected(p, _) => WinsExactlyWhen(before, e, p, Rejected);
    case _ =>
  }

  lemma {:induction false} FoldCurrent(s: seq<Event>)
    requires Sorted(EventLess, s) && DistinctIds(s)
    ensures LastMoveNames(s, FoldAll(s).ws.current)
  {
    if s == [] {
    } else {
      var front, e := s[..|s| - 1], s[|s| - 1];
      FoldCurrent(front);
      CurrentStep(front, e);
      FoldStep(s);
      OneMoreMove(front, e, FoldAll(front).ws.current);
      assert s == front + [e];
    }
  }

  lemma OneMoreMove(front: seq<Event>, e: Event, current: Option<string>)
    requires LastMoveNames(front, current)
    ensures LastMoveNames(front + [e], if MovesCurrent(front, e) then Named(e) else current)
  {
    hide MovesCurrent, Named;
    var s := front + [e];
    assert s[..|front|] == front;
    forall i | 0 <= i < |front| ensures MovesCurrent(s[..i], s[i]) <==> MovesCurrent(front[..i], front[i]) {
      assert s[..i] == front[..i];
    }
  }

  /** The current snapshot is the one named by the last event, in log order, that moves
      it: a recorded snapshot, a merge, a decision outweighing every earlier claim on its
      proposal, or an accepted or synced creation whose status shows. */
  lemma CurrentIsLastMove(events: seq<Event>, s: seq<Event>)
    requires DistinctIds(events) && Sorted(EventLess, s) && Elems(s) == Elems(events)
    ensures LastMoveNames(s, Materialized(events).current)
  {
    hide LastMoveNames, EventLess;
    SortedIsTheLog(events, s);
    FoldCurrent(s);
  }

  lemma SortedIsTheLog(events: seq<Event>, s: seq<Event>)
    requires DistinctIds(events) && Sorted(EventLess, s) && Elems(s) == Elems(events)
    ensures DistinctIds(s) && s == Sort(EventLess, events)
  {
    hide EventLess;
    DistinctIdsAreUnique(events);
    EventOrder(Elems(events));
    SortSorts(EventLess, events);
    SortKeeps(EventLess, events);
    SortedUnique(EventLess, s, Sort(EventLess, events));
    SortedKeepsDistinctIds(events, s);
  }

  // ---- Forks, merges and the proposals there are -----------------------------------

  /** The merges of a log, in its order. */
  function MergesOf(s: seq<Event>): seq<(seq<string>, string)> {
    if s == [] then []
    else
      var k := s[|s| - 1].kind;
      MergesOf(s[..|s| - 1]) + if k.MergeCompleted? then [(k.merged, k.mergeResult)] else []
  }

  ghost predicate Forks(e: Event, id: string) {
    e.kind.WorkspaceForked? && e.kind.forkId == id
  }

  /** `forks` holds the base of each fork's last event and nothing else. */
  ghost predicate LastForks(s: seq<Event>, forks: map<string, string>) {
    forall id ::
      && (id in forks <==> exists i :: 0 <= i < |s| && Forks(s[i], id))
      && forall i :: 0 <= i < |s| && Forks(s[i], id) && (forall j :: i < j < |s| ==> !Forks(s[j], id)) ==>
           id in forks && forks[id] == s[i].kind.forkBase
  }

  lemma OneMoreFork(front: seq<Event>, e: Event, forks: map<string, string>)
    requires LastForks(front, forks)
    ensures LastForks(front + [e], if e.kind.WorkspaceForked? then forks[e.kind.forkId := e.kind.forkBase] else forks)
  {
    var s := front + [e];
    assert forall i :: 0 <= i < |front| ==> s[i] == front[i];
    assert s[|front|] == e;
    forall id, i | 0 <= i < |front| && Forks(s[i], id)
      ensures exists j :: 0 <= j < |front| && Forks(front[j], id)
    {
      assert Forks(front[i], id);
    }
  }

  lemma ApplyRest(f: Fold, e: Event)
    ensures ApplyEvent(f, e).ws.merges ==
            f.ws.merges + if e.kind.MergeCompleted? then [(e.kind.merged, e.kind.mergeResult)] else []
    ensures ApplyEvent(f, e).ws.forks ==
            if e.kind.WorkspaceForked? then f.ws.forks[e.kind.forkId := e.kind.forkBase] else f.ws.forks
  {
  }

  lemma {:induction false} FoldRest(s: seq<Event>)
    ensures FoldAll(s).ws.merges == MergesOf(s) && LastForks(s, FoldAll(s).ws.forks)
  {
    if s == [] {
    } else {
      var front, e := s[..|s| - 1], s[|s| - 1];
      FoldRest(front);
      FoldStep(s);
      ApplyRest(FoldAll(front), e);
      OneMoreFork(front, e, FoldAll(front).ws.forks);
      assert s == front + [e];
    }
  }

  /** Merges are listed in log order, a fork has the base of its last event, and the
      proposals are those some event creates. */
  lemma RestIsRead(events: seq<Event>, s: seq<Event>)
    requires DistinctIds(events) && Sorted(EventLess, s) && Elems(s) == Elems(events)
    ensures Materialized(events).merges == MergesOf(s) && LastForks(s, Materialized(events).forks)
    ensures forall p :: p in Materialized(events).proposals <==> exists e :: e in events && Creates(e, p)
  {
    hide LastForks, EventLess, FoldAll;
    SortedIsTheLog(events, s);
    FoldRest(s);
    forall p ensures p in FoldAll(s).ws.proposals <==> exists e :: e in events && Creates(e, p) {
      FoundExactlyWhen(s, p, Pending);
      assert forall e :: e in s <==> e in Elems(s);
      assert forall e :: e in events <==> e in Elems(events);
    }
  }
}
