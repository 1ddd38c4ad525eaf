/** The event store of `src/workspace_event.rs`: one immutable file per event id. */
module EventStores {
  import opened Wrappers
  import opened Ordering
  import opened WorkspaceEvents

  /** A directory of `{id}.json` files. */
  type Files = map<string, Event>

  /** The validators the store calls: UUIDs, snapshot ids and workspace paths. */
  datatype Checks = Checks(id: string -> bool, snapshot: string -> bool, path: string -> bool)

  datatype EventError =
    | UnsupportedSchema | BadId | WrongCircle | BadParent | SelfParent
    | BadKindId | BadSnapshot | BadPath | IdCollision

  const SCHEMA_VERSION := 1

  function ValidateKind(k: Kind, checks: Checks): Option<EventError> {
    match k
    case WorkspaceForked(id, base) =>
      if !checks.id(id) then Some(BadKindId) else if !checks.snapshot(base) then Some(BadSnapshot) else None
    case SnapshotRecorded(id, parent) =>
      if !checks.snapshot(id) || (parent.Some? && !checks.snapshot(parent.value)) then Some(BadSnapshot) else None
    case ProposalCreated(p, base, result, changed, _) =>
      if !checks.id(p) then Some(BadKindId)
      else if !checks.snapshot(base) || !checks.snapshot(result) then Some(BadSnapshot)
      else if exists x :: x in changed && !checks.path(x) then Some(BadPath) else None
    case ProposalStatusChanged(p, _, snapshot) =>
      if !checks.id(p) then Some(BadKindId) else if !checks.snapshot(snapshot) then Some(BadSnapshot) else None
    case ProposalRejected(p, snapshot) =>
      if !checks.id(p) then Some(BadKindId) else if !checks.snapshot(snapshot) then Some(BadSnapshot) else None
    case MergeCompleted(ids, result) =>
      if exists p :: p in ids && !checks.id(p) then Some(BadKindId)
      else if !checks.snapshot(result) then Some(BadSnapshot) else None
    case ConflictDetected(p, paths) =>
      if !checks.id(p) then Some(BadKindId)
      else if exists x :: x in paths && !checks.path(x) then Some(BadPath) else None
  }

  function Validate(e: Event, circle: string, checks: Checks): Option<EventError> {
    if e.schema != SCHEMA_VERSION then Some(UnsupportedSchema)
    else if !checks.id(e.id) then Some(BadId)
    else if e.circle != circle then Some(WrongCircle)
    else if ValidateParents(e.parents, e.id, checks).Some? then ValidateParents(e.parents, e.id, checks)
    else ValidateKind(e.kind, checks)
  }

  function ValidateParents(parents: seq<string>, id: string, checks: Checks): Option<EventError> {
    if parents == [] then None
    else if !checks.id(parents[0]) then Some(BadParent)
    else if parents[0] == id then Some(SelfParent)
    else ValidateParents(parents[1..], id, checks)
  }

  /** The ids, the snapshots and the paths a kind names. */
  function IdsNamed(k: Kind): seq<string> {
    match k
    case WorkspaceForked(id, _) => [id]
    case SnapshotRecorded(_, _) => []
    case ProposalCreated(p, _, _, _, _) => [p]
    case ProposalStatusChanged(p, _, _) => [p]
    case ProposalRejected(p, _) => [p]
    case MergeCompleted(ids, _) => ids
    case ConflictDetected(p, _) => [p]
  }

  function SnapshotsNamed(k: Kind): seq<string> {
    match k
    case WorkspaceForked(_, base) => [base]
    case SnapshotRecorded(id, parent) => [id] + (if parent.Some? then [parent.value] else [])
    case ProposalCreated(_, base, result, _, _) => [base, result]
    case ProposalStatusChanged(_, _, snapshot) => [snapshot]
    case ProposalRejected(_, snapshot) => [snapshot]
    case MergeCompleted(_, result) => [result]
    case ConflictDetected(_, _) => []
  }

  function PathsNamed(k: Kind): seq<string> {
    match k
    case ProposalCreated(_, _, _, changed, _) => changed
    case ConflictDetected(_, paths) => paths
    case _ => []
  }

  /** An event is let in exactly when it is of this schema and circle, everything it
      names is well-formed, and it is not its own parent. */
  lemma ValidExactlyWhen(e: Event, circle: string, checks: Checks)
    ensures Validate(e, circle, checks).None? <==>
            && e.schema == 1 && e.circle == circle && checks.id(e.id)
            && (forall p :: p in e.parents ==> checks.id(p) && p != e.id)
            && (forall x :: x in IdsNamed(e.kind) ==> checks.id(x))
            && (forall x :: x in SnapshotsNamed(e.kind) ==> checks.snapshot(x))
            && (forall x :: x in PathsNamed(e.kind) ==> checks.path(x))
    ensures Validate(e, circle, checks) == Some(UnsupportedSchema) <==> e.schema != 1
    ensures Validate(e, circle, checks) == Some(BadId) <==> e.schema == 1 && !checks.id(e.id)
    ensures Validate(e, circle, checks) == Some(WrongCircle) <==>
            e.schema == 1 && checks.id(e.id) && e.circle != circle
  {
    ParentsValidExactlyWhen(e.parents, e.id, checks);
    KindValidExactlyWhen(e.kind, checks);
  }

  lemma {:induction false} ParentsValidExactlyWhen(parents: seq<string>, id: string, checks: Checks)
    ensures ValidateParents(parents, id, checks).None? <==> forall p :: p in parents ==> checks.id(p) && p != id
    ensures ValidateParents(parents, id, checks).Some? ==>
              ValidateParents(parents, id, checks).value in {BadParent, SelfParent}
  {
    if parents != [] {
      ParentsValidExactlyWhen(parents[1..], id, checks);
      assert parents == [parents[0]] + parents[1..];
    }
  }

  lemma KindValidExactlyWhen(k: Kind, checks: Checks)
    ensures ValidateKind(k, checks).None? <==>
            && (forall x :: x in IdsNamed(k) ==> checks.id(x))
            && (forall x :: x in SnapshotsNamed(k) ==> checks.snapshot(x))
            && (forall x :: x in PathsNamed(k) ==> checks.path(x))
    ensures ValidateKind(k, checks).Some? ==> ValidateKind(k, checks).value in {BadKindId, BadSnapshot, BadPath}
  {
    match k
    case ProposalCreated(p, base, result, _, _) =>
      assert p in IdsNamed(k) && base in SnapshotsNamed(k) && result in SnapshotsNamed(k);
    case WorkspaceForked(id, base) => assert id in IdsNamed(k) && base in SnapshotsNamed(k);
    case SnapshotRecorded(id, parent) =>
      assert id in SnapshotsNamed(k);
      assert parent.Some? ==> parent.value in SnapshotsNamed(k);
    case ProposalStatusChanged(p, _, snapshot) => assert p in IdsNamed(k) && snapshot in SnapshotsNamed(k);
    case ProposalRejected(p, snapshot) => assert p in IdsNamed(k) && snapshot in SnapshotsNamed(k);
    case MergeCompleted(_, result) => assert result in SnapshotsNamed(k);
    case ConflictDetected(p, _) => assert p in IdsNamed(k);
  }

  /** Every file is named after the event in it. */
  ghost predicate WellFiled(files: Files) {
    forall id :: id in files ==> files[id].id == id
  }

  lemma WellFiledIsUnique(files: Files)
    requires WellFiled(files)
    ensures UniqueIds(files.Values) && Strict(EventLess) && TotalOn(EventLess, files.Values)
  {
    EventOrder(files.Values);
  }

  /** The files whose event validates. */
  ghost function Validated(files: Files, circle: string, checks: Checks): (kept: Files)
    ensures WellFiled(files) ==> WellFiled(kept)
  {
    map id | id in files && Validate(files[id], circle, checks).None? :: files[id]
  }

  lemma ValidatedValues(files: Files, circle: string, checks: Checks)
    ensures Validated(files, circle, checks).Values ==
            set id | id in files && Validate(files[id], circle, checks).None? :: files[id]
  {
    hide Validate;
    var kept := Validated(files, circle, checks);
    forall id | id in files && Validate(files[id], circle, checks).None? ensures files[id] in kept.Values {
      assert kept[id] == files[id];
    }
  }

  /** `list()`: the stored events in `order_key` order. */
  ghost function Listing(files: Files): (r: seq<Event>)
    requires WellFiled(files)
    ensures Sorted(EventLess, r) && Elems(r) == files.Values && DistinctIds(r)
  {
    WellFiledIsUnique(files);
    var r := InOrderBy(EventLess, files.Values);
    SortedKeepsDistinctIds(r, r);
    r
  }

  /** The listing of what validates holds exactly the stored events that do, in log order. */
  lemma ListingHoldsTheValid(files: Files, circle: string, checks: Checks, e: Event)
    requires WellFiled(files)
    ensures Sorted(EventLess, Listing(Validated(files, circle, checks)))
    ensures e in Listing(Validated(files, circle, checks)) <==>
            e.id in files && files[e.id] == e && Validate(e, circle, checks).None?
  {
    hide Validate, EventLess;
    ValidatedValues(files, circle, checks);
    assert e in Listing(Validated(files, circle, checks)) <==> e in Elems(Listing(Validated(files, circle, checks)));
  }

  /** What `append` leaves behind and answers. */
  function Appended(files: Files, e: Event, circle: string, checks: Checks): (Files, Result<bool, EventError>) {
    var bad := Validate(e, circle, checks);
    if bad.Some? then (files, Err(bad.value))
    else if e.id in files then (files, if files[e.id] == e then Ok(false) else Err(IdCollision))
    else (files[e.id := e], Ok(true))
  }

  function MaxLamport(s: seq<Event>): (m: nat)
    ensures forall e :: e in s ==> e.lamport <= m
    ensures s != [] ==> exists e :: e in s && e.lamport == m
    ensures s == [] ==> m == 0
  {
    if s == [] then 0
    else
      var m := MaxLamport(s[1..]);
      assert s == [s[0]] + s[1..];
      if s[0].lamport > m then s[0].lamport else m
  }

  /** The event `append_local` builds on top of `files`. */
  ghost function LocalEvent(files: Files, circle: string, id: string, now: int, peer: string, device: string,
                            kind: Kind): Event
    requires WellFiled(files)
  {
    Event(SCHEMA_VERSION, id, circle, InOrder(HeadIds(files.Values)), MaxLamport(Listing(files)) + 1, now,
          peer, device, kind)
  }

  /** A proposal record from before the event log existed. */
  datatype ProposalRecord = ProposalRecord(
    id: string, base: string, result: string, changed: seq<string>, status: Status)

  ghost function Represented(files: Files): set<string> {
    set e | e in files.Values && e.kind.ProposalCreated? :: e.kind.created
  }

  function RecordKinds(r: ProposalRecord): seq<Kind> {
    [SnapshotRecorded(r.result, Some(r.base)), ProposalCreated(r.id, r.base, r.result, r.changed, r.status)]
  }

  /** The kinds a backfill appends, in order, for records still unrepresented. */
  function BackfillKinds(records: seq<ProposalRecord>, represented: set<string>): seq<Kind> {
    if records == [] then []
    else
      var last := records[|records| - 1];
      var kinds := if last.id in represented then [] else RecordKinds(last);
      BackfillKinds(records[..|records| - 1], represented) + kinds
  }

  class EventStore {
    const circle: string
    const checks: Checks
    var files: Files

    constructor (circle: string, checks: Checks)
      ensures Valid() && files == map[] && this.circle == circle && this.checks == checks
    {
      this.circle := circle;
      this.checks := checks;
      files := map[];
    }

    ghost predicate Valid()
      reads this
    {
      WellFiled(files) && forall id :: id in files ==> Validate(files[id], circle, checks).None?
    }

    /** Read every file in directory order, keep those that validate, and sort. */
    method List() returns (events: seq<Event>)
      requires WellFiled(files)
      ensures events == Listing(Validated(files, circle, checks))
      ensures Valid() ==> events == Listing(files)
    {
      var readable := set id | id in files && Validate(files[id], circle, checks).None? :: files[id];
      ghost var kept := Validated(files, circle, checks);
      ValidatedValues(files, circle, checks);
      assert Valid() ==> kept == files;
      WellFiledIsUnique(kept);
      events := DrainBy(EventLess, readable);
    }

    method Materialize() returns (w: Workspace)
      requires WellFiled(files)
      ensures w == Materialized(Listing(Validated(files, circle, checks)))
    {
      var events := List();
      w := WorkspaceEvents.Materialize(events);
    }

    method Append(event: Event) returns (r: Result<bool, EventError>)
      requires Valid()
      modifies this
      ensures Valid()
      ensures (files, r) == Appended(old(files), event, circle, checks)
      ensures r == Ok(true) <==> Validate(event, circle, checks).None? && event.id !in old(files)
      ensures r == Ok(false) <==>
        Validate(event, circle, checks).None? && event.id in old(files) && old(files)[event.id] == event
      ensures r.Err? && Validate(event, circle, checks).None? ==> r.error.IdCollision?
      ensures files == if r == Ok(true) then old(files)[event.id := event] else old(files)
    {
      var bad := Validate(event, circle, checks);
      if bad.Some? {
        return Err(bad.value);
      }
      if event.id in files {
        if files[event.id] == event {
          return Ok(false);
        }
        return Err(IdCollision);
      }
      files := files[event.id := event];
      return Ok(true);
    }

    /** Stamp and store a local event. `id` is the UUID drawn and `now` the clock read. */
    method AppendLocal(id: string, now: int, peer: string, device: string, kind: Kind)
      returns (r: Result<Event, EventError>)
      requires Valid()
      modifies this
      ensures Valid()
      ensures var e := LocalEvent(old(files), circle, id, now, peer, device, kind);
              var (after, answer) := Appended(old(files), e, circle, checks);
              files == after && r == (if answer.Ok? then Ok(e) else Err(answer.error))
      ensures Grown(old(files), files)
      ensures r.Ok? ==>
        && r.value.kind == kind && r.value.id == id && r.value.circle == circle && r.value.schema == 1
        && r.value.peer == peer && r.value.device == device && r.value.createdAt == now
        && id in files && files[id] == r.value && files.Values == old(files.Values) + {r.value}
        && (forall f :: f in old(files.Values) ==> f.lamport < r.value.lamport)
    {
      hide Validate, InOrder, HeadIds, IsHead, EventLess, StrLess, MaxLamport;
      var existing := List();
      var parents := Frontier(existing);
      var lamport := MaxLamport(existing) + 1;
      var event := Event(SCHEMA_VERSION, id, circle, parents, lamport, now, peer, device, kind);
      var answer := Append(event);
      AppendedValues(old(files), event, circle, checks);
      r := if answer.Ok? then Ok(event) else Err(answer.error);
    }

    /** The snapshot and creation events one proposal record is backfilled with. */
    method AppendRecord(record: ProposalRecord, peer: string, device: string,
                        id0: string, now0: int, id1: string, now1: int)
      returns (r: Result<seq<Event>, EventError>)
      requires Valid()
      modifies this
      ensures Valid() && Grown(old(files), files)
      ensures r.Ok? ==> |r.value| == 2 && KindsOf(r.value) == RecordKinds(record)
      ensures r.Ok? ==>
        && r.value[0].kind == SnapshotRecorded(record.result, Some(record.base))
        && r.value[1].kind == ProposalCreated(record.id, record.base, record.result, record.changed, record.status)
      ensures r.Ok? && (forall f :: f in old(files.Values) ==> Claim(f, record.id).None?) ==>
        && record.id in Materialized(Listing(files)).proposals
        && Materialized(Listing(files)).proposals[record.id] == Proposal(record.base, record.result, record.status, [])
      ensures r.Ok? ==> Stored(r.value, files)
      ensures r.Ok? ==> record.id in Represented(files)
    {
      hide LocalEvent, Validate, Appended, Materialized, Listing, EventLess, Claim;
      var kinds := RecordKinds(record);
      var snapshot := AppendLocal(id0, now0, peer, device, kinds[0]);
      if snapshot.Err? {
        return Err(snapshot.error);
      }
      var creation := AppendLocal(id1, now1, peer, device, kinds[1]);
      if creation.Err? {
        return Err(creation.error);
      }
      assert files[creation.value.id] in files.Values;
      if forall f :: f in old(files.Values) ==> Claim(f, record.id).None? {
        RecordShows(old(files.Values), files, snapshot.value, creation.value, record);
      }
      return Ok([snapshot.value, creation.value]);
    }

    /** Give every proposal record (newest first) without a creation event one.
        `ids` and `times` are the UUIDs and clock reads, one per event. */
    method Backfill(records: seq<ProposalRecord>, peer: string, device: string, ids: nat -> string, times: nat -> int)
      returns (r: Result<seq<Event>, EventError>)
      requires Valid()
      modifies this
      ensures Valid() && Grown(old(files), files)
      ensures r.Ok? ==> KindsOf(r.value) == BackfillKinds(OldestFirst(records), Represented(old(files)))
      ensures r.Ok? ==> Stored(r.value, files)
      ensures r.Ok? ==> forall p :: p in records ==> p.id in Represented(files)
    {
      ghost var before := files;
      var represented := CreatedIds();
      var oldest := OldestFirst(records);
      var appended: seq<Event> := [];
      assert KindsOf(appended) == BackfillKinds(oldest[..0], represented);
      hide Represented, Validate, RecordKinds, BackfillKinds, KindsOf, OldestFirst, WellFiled, Valid, Stored, Grown;
      for i := 0 to |oldest|
        invariant Valid() && Grown(before, files)
        invariant KindsOf(appended) == BackfillKinds(oldest[..i], represented)
        invariant Stored(appended, files) && AllRepresented(oldest[..i], files)
      {
        BackfillKindsStep(oldest, i, represented);
        ghost var was := files;
        GrowthKeepsRepresented(before, files);
        if oldest[i].id !in represented {
          var n := |appended|;
          var made := AppendRecord(oldest[i], peer, device, ids(n), times(n), ids(n + 1), times(n + 1));
          if made.Err? {
            return Err(made.error);
          }
          GrowthKeeps(before, was, files, appended, made.value, oldest[..i]);
          KindsAppend(appended, made.value);
          appended := appended + made.value;
        }
        OneMoreRepresented(oldest, i, files);
      }
      assert oldest[..|oldest|] == oldest;
      OldestFirstKeeps(records);
      return Ok(appended);
    }

    method CreatedIds() returns (represented: set<string>)
      requires Valid()
      ensures represented == Represented(files)
    {
      var events := List();
      assert forall e :: e in events <==> e in Elems(events);
      represented := set e | e in events && e.kind.ProposalCreated? :: e.kind.created;
    }
  }

  lemma AppendedValues(files: Files, e: Event, circle: string, checks: Checks)
    requires WellFiled(files)
    ensures var (after, r) := Appended(files, e, circle, checks); r.Ok? ==> after.Values == files.Values + {e}
  {
    hide Validate;
    var (after, r) := Appended(files, e, circle, checks);
    if r.Ok? {
      assert after[e.id] == e;
      forall x | x in files.Values ensures x in after.Values {
        assert x.id in files && files[x.id] == x && after[x.id] == x;
      }
    }
  }

  /** A creation later than every other event, with the only claim on its proposal, shows
      the proposal just as it was created. */
  lemma LoneCreationShows(files: Files, c: Event, p: string)
    requires WellFiled(files) && c in files.Values && Creates(c, p)
    requires forall f :: f in files.Values && f != c ==> f.lamport < c.lamport && Claim(f, p).None?
    ensures p in Materialized(Listing(files)).proposals
    ensures Materialized(Listing(files)).proposals[p] == Proposal(c.kind.base, c.kind.result, c.kind.initial, [])
  {
    hide Materialized, StrLess;
    var s := Listing(files);
    EventLessStrict();
    assert forall f :: Creates(f, p) ==> Claim(f, p).Some?;
    assert FirstCreation(Elems(s), p, c) && Greatest(Elems(s), p, c);
    StatusPrecedence(s, p, c, c);
    assert ConflictPaths(Elems(s), p, c) == {};
    var r := Materialized(s).proposals[p];
    NothingInIt(r.conflicts);
  }

  lemma NothingInIt(s: seq<string>)
    ensures Elems(s) == {} ==> s == []
  {
    if s != [] {
      assert s[0] in Elems(s);
    }
  }

  /** So it does once its own snapshot and creation are stored. */
  lemma RecordShows(before: set<Event>, files: Files, snapshot: Event, creation: Event, r: ProposalRecord)
    requires WellFiled(files) && files.Values == before + {snapshot} + {creation}
    requires snapshot.kind.SnapshotRecorded? && snapshot.lamport < creation.lamport
    requires creation.kind == ProposalCreated(r.id, r.base, r.result, r.changed, r.status)
    requires forall f :: f in before ==> f.lamport < snapshot.lamport && Claim(f, r.id).None?
    ensures r.id in Materialized(Listing(files)).proposals
    ensures Materialized(Listing(files)).proposals[r.id] == Proposal(r.base, r.result, r.status, [])
  {
    hide Materialized, Listing;
    LoneCreationShows(files, creation, r.id);
  }

  /** `after` still holds every event of `before`. */
  ghost predicate Grown(before: Files, after: Files) {
    forall id :: id in before ==> id in after && after[id] == before[id]
  }

  /** Every event of `events` is in the store. */
  ghost predicate Stored(events: seq<Event>, files: Files) {
    forall e :: e in events ==> e.id in files && files[e.id] == e
  }

  ghost predicate AllRepresented(records: seq<ProposalRecord>, files: Files) {
    forall p :: p in records ==> p.id in Represented(files)
  }

  lemma GrowthKeeps(first: Files, was: Files, files: Files, kept: seq<Event>, made: seq<Event>,
                    records: seq<ProposalRecord>)
    requires Grown(first, was) && Grown(was, files) && Stored(kept, was) && Stored(made, files)
    requires AllRepresented(records, was)
    ensures Grown(first, files) && Stored(kept + made, files) && AllRepresented(records, files)
  {
    hide Represented;
    GrowthKeepsRepresented(was, files);
  }

  lemma OneMoreRepresented(records: seq<ProposalRecord>, i: nat, files: Files)
    requires i < |records| && AllRepresented(records[..i], files) && records[i].id in Represented(files)
    ensures AllRepresented(records[..i + 1], files)
  {
    hide Represented;
    assert records[..i + 1] == records[..i] + [records[i]];
  }

  lemma BackfillKindsStep(records: seq<ProposalRecord>, i: nat, represented: set<string>)
    requires i < |records|
    ensures BackfillKinds(records[..i + 1], represented) ==
            BackfillKinds(records[..i], represented) +
            if records[i].id in represented then [] else RecordKinds(records[i])
  {
    assert records[..i + 1][..i] == records[..i];
  }

  lemma KindsAppend(a: seq<Event>, b: seq<Event>)
    ensures KindsOf(a + b) == KindsOf(a) + KindsOf(b)
  {
  }

  function KindsOf(events: seq<Event>): seq<Kind> {
    seq(|events|, i requires 0 <= i < |events| => events[i].kind)
  }

  function OldestFirst(records: seq<ProposalRecord>): seq<ProposalRecord> {
    if records == [] then [] else OldestFirst(records[1..]) + [records[0]]
  }

  /** A backfill goes record by record. */
  lemma {:induction false} BackfillGoesInOrder(front: seq<ProposalRecord>, back: seq<ProposalRecord>,
                                               represented: set<string>)
    ensures BackfillKinds(front + back, represented)
         == BackfillKinds(front, represented) + BackfillKinds(back, represented)
  {
    hide RecordKinds;
    if back == [] {
      assert front + back == front;
    } else {
      var n := |back| - 1;
      BackfillGoesInOrder(front, back[..n], represented);
      assert (front + back)[..|front| + n] == front + back[..n];
    }
  }

  /** A record not yet represented gives its snapshot and then its creation. */
  lemma BackfillOfOne(r: ProposalRecord, represented: set<string>)
    ensures BackfillKinds([r], represented) ==
            if r.id in represented then []
            else
              [SnapshotRecorded(r.result, Some(r.base)), ProposalCreated(r.id, r.base, r.result, r.changed, r.status)]
  {
    assert [r][..0] == [];
    assert BackfillKinds([], represented) == [];
  }

  lemma {:induction false} OldestFirstKeeps(records: seq<ProposalRecord>)
    ensures forall p :: p in records <==> p in OldestFirst(records)
    ensures |OldestFirst(records)| == |records|
    ensures forall i :: 0 <= i < |records| ==> OldestFirst(records)[i] == records[|records| - 1 - i]
  {
    if records != [] {
      OldestFirstKeeps(records[1..]);
      assert records == [records[0]] + records[1..];
    }
  }

  lemma GrowthKeepsRepresented(before: Files, after: Files)
    requires Grown(before, after)
    ensures Represented(before) <= Represented(after)
  {
    forall p | p in Represented(before) ensures p in Represented(after) {
      var e :| e in before.Values && e.kind.ProposalCreated? && e.kind.created == p;
      assert e in after.Values;
    }
  }

  /** A second backfill over the same records has nothing to append. */
  lemma {:induction false} BackfillIsIdempotent(records: seq<ProposalRecord>, represented: set<string>)
    requires forall p :: p in records ==> p.id in represented
    ensures BackfillKinds(records, represented) == []
  {
    if records != [] {
      assert records[|records| - 1] in records;
      BackfillIsIdempotent(records[..|records| - 1], represented);
    }
  }

  // ---- Convergence of the store ----------------------------------------------------

  /** The store after appending `events`, remote or local, one after another. */
  function AppendAll(files: Files, events: seq<Event>, circle: string, checks: Checks): Files
    decreases |events|
  {
    if events == [] then files
    else AppendAll(Appended(files, events[0], circle, checks).0, events[1..], circle, checks)
  }

  /** After any appends, replaying any of the events already appended, in any order and any
      number of times, changes nothing, and each valid one is answered `false`. */
  lemma {:induction false} ReplaysChangeNothing(files: Files, events: seq<Event>, replays: seq<Event>, circle: string,
                                                checks: Checks)
    requires WellFiled(files) && UniqueIds(files.Values + Elems(events)) && Elems(replays) <= Elems(events)
    ensures var after := AppendAll(files, events, circle, checks);
            && AppendAll(after, replays, circle, checks) == after
            && forall e :: e in replays && Validate(e, circle, checks).None? ==>
                 Appended(after, e, circle, checks) == (after, Ok(false))
    decreases |replays|
  {
    hide Validate, AppendAll;
    var after := AppendAll(files, events, circle, checks);
    AppendAllIsUnion(files, events, circle, checks);
    if replays == [] {
      AppendNone(after, circle, checks);
    } else {
      HeadAndTail(replays);
      var e := replays[0];
      assert e in Elems(replays) && e in events;
      HeldReplay(after, e, circle, checks);
      ReplaysChangeNothing(files, events, replays[1..], circle, checks);
      AppendOneThenRest(after, replays, circle, checks);
    }
  }

  lemma AppendNone(files: Files, circle: string, checks: Checks)
    ensures AppendAll(files, [], circle, checks) == files
  {
  }

  lemma AppendOneThenRest(files: Files, events: seq<Event>, circle: string, checks: Checks)
    requires events != []
    ensures AppendAll(files, events, circle, checks) ==
            AppendAll(Appended(files, events[0], circle, checks).0, events[1..], circle, checks)
  {
  }

  lemma HeldReplay(files: Files, e: Event, circle: string, checks: Checks)
    requires WellFiled(files) && (Validate(e, circle, checks).None? ==> e in files.Values)
    ensures Appended(files, e, circle, checks).0 == files
    ensures Validate(e, circle, checks).None? ==> Appended(files, e, circle, checks).1 == Ok(false)
  {
    hide Validate;
  }

  lemma {:induction false} AppendAllIsUnion(files: Files, events: seq<Event>, circle: string, checks: Checks)
    requires WellFiled(files)
    requires UniqueIds(files.Values + Elems(events))
    ensures WellFiled(AppendAll(files, events, circle, checks))
    ensures AppendAll(files, events, circle, checks).Values ==
            files.Values + set e | e in events && Validate(e, circle, checks).None?
    decreases |events|
  {
    hide Validate, Appended, WellFiled;
    if events != [] {
      var e := events[0];
      var after := Appended(files, e, circle, checks).0;
      HeadAndTail(events);
      AppendAddsOne(files, e, circle, checks);
      AppendAllIsUnion(after, events[1..], circle, checks);
      ValidSplit(events, circle, checks);
    }
  }

  lemma HeadAndTail(events: seq<Event>)
    requires events != []
    ensures Elems(events) == {events[0]} + Elems(events[1..])
  {
    assert events == [events[0]] + events[1..];
  }

  lemma ValidSplit(events: seq<Event>, circle: string, checks: Checks)
    requires events != []
    ensures (set e | e in events && Validate(e, circle, checks).None?) ==
            (if Validate(events[0], circle, checks).None? then {events[0]} else {}) +
            set e | e in events[1..] && Validate(e, circle, checks).None?
  {
    hide Validate;
    assert events == [events[0]] + events[1..];
  }

  lemma AppendAddsOne(files: Files, e: Event, circle: string, checks: Checks)
    requires WellFiled(files) && UniqueIds(files.Values + {e})
    ensures var after := Appended(files, e, circle, checks).0;
            WellFiled(after) && after.Values == files.Values + if Validate(e, circle, checks).None? then {e} else {}
  {
    hide Validate;
    var after := Appended(files, e, circle, checks).0;
    if Validate(e, circle, checks).None? {
      if e.id in files {
        assert files[e.id] in files.Values;
      } else {
        forall x | x in files.Values ensures x in after.Values {
          assert x.id in files && after[x.id] == x;
        }
        assert after[e.id] == e;
      }
    }
  }

  lemma SameValuesSameFiles(a: Files, b: Files)
    requires WellFiled(a) && WellFiled(b) && a.Values == b.Values
    ensures a == b
  {
    forall id | id in a ensures id in b && b[id] == a[id] {
      assert a[id] in b.Values;
    }
    forall id | id in b ensures id in a {
      assert b[id] in a.Values;
    }
  }

  /** Strong convergence: two replicas that were handed the same events, in any order
      and with any replays, hold equal stores and materialise equal workspaces. */
  lemma StoresConverge(xs: seq<Event>, ys: seq<Event>, circle: string, checks: Checks)
    requires Elems(xs) == Elems(ys) && UniqueIds(Elems(xs))
    ensures AppendAll(map[], xs, circle, checks) == AppendAll(map[], ys, circle, checks)
    ensures WellFiled(AppendAll(map[], xs, circle, checks)) && WellFiled(AppendAll(map[], ys, circle, checks))
    ensures Materialized(Listing(AppendAll(map[], xs, circle, checks))) ==
            Materialized(Listing(AppendAll(map[], ys, circle, checks)))
  {
    var none: Files := map[];
    assert none.Values + Elems(xs) == Elems(xs) && none.Values + Elems(ys) == Elems(ys);
    AppendAllIsUnion(none, xs, circle, checks);
    AppendAllIsUnion(none, ys, circle, checks);
    assert (set e | e in xs && Validate(e, circle, checks).None?) ==
           set e | e in ys && Validate(e, circle, checks).None? by {
      assert forall e :: e in xs <==> e in Elems(xs);
      assert forall e :: e in ys <==> e in Elems(ys);
    }
    SameValuesSameFiles(AppendAll(none, xs, circle, checks), AppendAll(none, ys, circle, checks));
  }

  /** Unique ids are exactly what convergence needs: two valid events commute if and
      only if they are not different events under one id. */
  lemma AppendsCommuteExactlyWhen(a: Event, b: Event, circle: string, checks: Checks)
    requires Validate(a, circle, checks).None? && Validate(b, circle, checks).None?
    ensures AppendAll(map[], [a, b], circle, checks) == AppendAll(map[], [b, a], circle, checks)
            <==> (a.id == b.id ==> a == b)
  {
    var ab, ba := AppendAll(map[], [a, b], circle, checks), AppendAll(map[], [b, a], circle, checks);
    AppendTwo(a, b, circle, checks);
    AppendTwo(b, a, circle, checks);
    if a.id == b.id && a != b {
      assert ab[a.id] != ba[a.id];
    } else if a.id != b.id {
      assert ab == ba;
    }
  }

  lemma AppendTwo(a: Event, b: Event, circle: string, checks: Checks)
    requires Validate(a, circle, checks).None? && Validate(b, circle, checks).None?
    ensures AppendAll(map[], [a, b], circle, checks) ==
            if a.id == b.id then map[a.id := a] else map[a.id := a, b.id := b]
  {
    var one := Appended(map[], a, circle, checks).0;
    assert [a, b][1..] == [b] && [b][1..] == [];
    var two := Appended(one, b, circle, checks).0;
    assert AppendAll(two, [], circle, checks) == two;
    assert AppendAll(one, [b], circle, checks) == AppendAll(two, [b][1..], circle, checks);
  }
}
