/** Any number of replicas of one workspace log, appending locally and delivering to
    one another in any order, any number of times. */
module EventRuns {
  import opened Wrappers
  import opened Ordering
  import opened WorkspaceEvents
  import opened EventStores

  /** A replica's event directory, every file named after the event in it. */
  type Store = f: Files | WellFiled(f) witness map[]

  /** Every event ever made, by id, and each replica's store. */
  datatype Net = Net(made: Files, stores: map<string, Store>)

  datatype Step =
    /** Replica `at` appends an event of its own, under a freshly drawn UUID. */
    | LocalAppend(at: string, id: string, now: int, peer: string, device: string, kind: Kind)
    /** Replica `to` is handed a copy of an event made earlier, perhaps again. */
    | Deliver(to: string, what: string)

  predicate Enabled(n: Net, s: Step) {
    match s
    case LocalAppend(at, id, _, _, _, _) => at in n.stores && id !in n.made
    case Deliver(to, what) => to in n.stores && what in n.made
  }

  ghost function Do(n: Net, s: Step, circle: string, checks: Checks): Net
    requires Enabled(n, s)
  {
    match s
    case LocalAppend(at, id, now, peer, device, kind) =>
      var e := LocalEvent(n.stores[at], circle, id, now, peer, device, kind);
      var answer := Appended(n.stores[at], e, circle, checks).1;
      Net(if answer.Ok? then n.made[id := e] else n.made, n.stores[at := Held(n.stores[at], e, circle, checks)])
    case Deliver(to, what) =>
      n.(stores := n.stores[to := Held(n.stores[to], n.made[what], circle, checks)])
  }

  /** What a store holds after appending `e`. */
  ghost function Held(files: Store, e: Event, circle: string, checks: Checks): Store {
    Appended(files, e, circle, checks).0
  }

  // ---- The invariant ---------------------------------------------------------------

  /** Lamport time is one more than the greatest parent's, or 1 with no parents. */
  ghost predicate Stamped(e: Event, made: Files) {
    && (forall p :: p in e.parents ==> p in made && made[p].lamport < e.lamport)
    && (e.parents == [] ==> e.lamport == 1)
    && (e.parents != [] ==> exists p :: p in e.parents && made[p].lamport + 1 == e.lamport)
  }

  ghost predicate StoreOf(files: Files, made: Files) {
    WellFiled(files) && forall id :: id in files ==> id in made && files[id] == made[id]
  }

  ghost predicate AllStamped(made: Files) {
    forall id {:trigger Stamped(made[id], made)} :: id in made ==>
      Stamped(made[id], made) && made[id].lamport <= |made|
  }

  ghost predicate Inv(n: Net) {
    && WellFiled(n.made)
    && AllStamped(n.made)
    && (forall r :: r in n.stores ==> StoreOf(n.stores[r], n.made))
  }

  /** A store's greatest Lamport time is carried by one of its heads, so a local event
      is one above its greatest parent although it is stamped from the whole store. */
  lemma LatestIsHead(files: Files, made: Files, m: Event)
    requires WellFiled(made) && StoreOf(files, made)
    requires AllStamped(made)
    requires m in files.Values && forall e :: e in files.Values ==> e.lamport <= m.lamport
    ensures IsHead(m, files.Values)
  {
    forall f | f in files.Values ensures m.id !in f.parents {
      assert made[f.id] == f && Stamped(made[f.id], made);
      assert made[m.id] == m;
    }
  }

  lemma LocalEventIsStamped(files: Files, made: Files, circle: string, id: string, now: int, peer: string,
                            device: string, kind: Kind)
    requires WellFiled(made) && StoreOf(files, made)
    requires AllStamped(made)
    ensures var e := LocalEvent(files, circle, id, now, peer, device, kind);
            Stamped(e, made) && e.lamport <= |made| + 1 && Elems(e.parents) == HeadIds(files.Values)
  {
    var e := LocalEvent(files, circle, id, now, peer, device, kind);
    var list := Listing(files);
    assert forall x :: x in list <==> x in files.Values by { assert forall x :: x in list <==> x in Elems(list); }
    assert Elems(e.parents) == HeadIds(files.Values);
    assert forall p :: p in e.parents <==> p in HeadIds(files.Values) by {
      assert forall p :: p in e.parents <==> p in Elems(e.parents);
    }
    forall p | p in e.parents ensures p in made && made[p].lamport < e.lamport {
      var h :| h in files.Values && IsHead(h, files.Values) && h.id == p;
      assert made[p] == h && h in list && Stamped(made[p], made);
    }
    if list != [] {
      var m :| m in list && m.lamport == MaxLamport(list);
      LatestIsHead(files, made, m);
      assert m.id in HeadIds(files.Values) && made[m.id] == m && Stamped(made[m.id], made);
    }
  }

  lemma StampedGrows(e: Event, before: Files, after: Files)
    requires Stamped(e, before) && Grown(before, after)
    ensures Stamped(e, after)
  {
  }

  /** Appending keeps a store a store, as long as the event is filed among those made. */
  lemma AppendKeepsStore(files: Files, e: Event, made: Files, circle: string, checks: Checks)
    requires StoreOf(files, made)
    ensures Grown(files, Appended(files, e, circle, checks).0)
    ensures (e.id in made && made[e.id] == e) || Appended(files, e, circle, checks).1.Err? ==>
      StoreOf(Appended(files, e, circle, checks).0, made)
  {
    hide Validate;
  }

  /** One more stamped event, above nothing yet stored, keeps all events stamped. */
  lemma MadeKept(made: Files, e: Event)
    requires WellFiled(made) && e.id !in made && Stamped(e, made) && e.lamport <= |made| + 1
    requires AllStamped(made)
    ensures var after := made[e.id := e];
            WellFiled(after) && Grown(made, after) && AllStamped(after)
  {
    hide Stamped;
    var after := made[e.id := e];
    assert |after| == |made| + 1;
    forall id | id in after ensures Stamped(after[id], after) && after[id].lamport <= |after| {
      assert id in made ==> Stamped(made[id], made);
      StampedGrows(after[id], made, after);
    }
  }

  lemma InvKept(n: Net, s: Step, circle: string, checks: Checks)
    requires Inv(n) && Enabled(n, s)
    ensures Inv(Do(n, s, circle, checks)) && Grown(n.made, Do(n, s, circle, checks).made)
    ensures forall r :: r in n.stores ==>
      r in Do(n, s, circle, checks).stores && Grown(n.stores[r], Do(n, s, circle, checks).stores[r])
  {
    hide Stamped, LocalEvent, Appended, WellFiled;
    match s
    case LocalAppend(at, id, now, peer, device, kind) =>
      var files := n.stores[at];
      var e := LocalEvent(files, circle, id, now, peer, device, kind);
      LocalEventIsStamped(files, n.made, circle, id, now, peer, device, kind);
      LocalEventId(files, circle, id, now, peer, device, kind);
      MadeKept(n.made, e);
      AppendKeepsStore(files, e, n.made, circle, checks);
      AppendKeepsStore(files, e, n.made[e.id := e], circle, checks);
    case Deliver(to, what) =>
      assert n.made[what].id == what by { WellFiledAt(n.made, what); }
      AppendKeepsStore(n.stores[to], n.made[what], n.made, circle, checks);
  }

  lemma WellFiledAt(files: Files, id: string)
    requires WellFiled(files) && id in files
    ensures files[id].id == id
  {
  }

  lemma LocalEventId(files: Files, circle: string, id: string, now: int, peer: string, device: string, kind: Kind)
    requires WellFiled(files)
    ensures LocalEvent(files, circle, id, now, peer, device, kind).id == id
  {
  }

  // ---- Runs ------------------------------------------------------------------------

  /** A run: each net follows from the one before by an enabled step. */
  ghost predicate Run(nets: seq<Net>, steps: seq<Step>, circle: string, checks: Checks) {
    && |nets| == |steps| + 1
    && Empty(nets[0])
    && forall i :: 0 <= i < |steps| ==>
      Enabled(nets[i], steps[i]) && nets[i + 1] == Do(nets[i], steps[i], circle, checks)
  }

  ghost predicate Empty(n: Net) {
    n.made == map[] && forall r :: r in n.stores ==> n.stores[r] == map[]
  }

  /** In every run, at every moment and on every replica: each event's Lamport time is
      exactly one more than its greatest parent's, and never exceeds the number of
      events made, so 64 bits cannot overflow in practice. */
  lemma CausalityHoldsInEveryRun(nets: seq<Net>, steps: seq<Step>, circle: string, checks: Checks, i: nat, r: string,
                                 e: Event)
    requires Run(nets, steps, circle, checks) && i < |nets|
    requires r in nets[i].stores && e in nets[i].stores[r].Values
    ensures Stamped(e, nets[i].made) && e.lamport <= |nets[i].made|
  {
    RunInv(nets, steps, circle, checks, i);
    assert nets[i].made[e.id] == e && Stamped(nets[i].made[e.id], nets[i].made);
  }

  /** The invariant holds at every moment of every run, from the empty net on. */
  lemma {:induction false} RunInv(nets: seq<Net>, steps: seq<Step>, circle: string, checks: Checks, i: nat)
    requires Run(nets, steps, circle, checks) && i < |nets|
    ensures Inv(nets[i])
  {
    if i == 0 {
      EmptyInv(nets[0]);
    } else {
      hide Inv, Enabled, Do;
      RunInv(nets, steps, circle, checks, i - 1);
      InvKept(nets[i - 1], steps[i - 1], circle, checks);
    }
  }

  lemma EmptyInv(n: Net)
    requires Empty(n)
    ensures Inv(n)
  {
  }

  /** Events are never lost: a store only grows along a run. */
  lemma {:induction false} StoresGrow(nets: seq<Net>, steps: seq<Step>, circle: string, checks: Checks, i: nat, j: nat,
                                      r: string)
    requires Run(nets, steps, circle, checks) && i <= j < |nets| && r in nets[i].stores
    ensures r in nets[j].stores && Grown(nets[i].stores[r], nets[j].stores[r])
    decreases j
  {
    hide Run, Inv, Do, Enabled;
    if i < j {
      StoresGrow(nets, steps, circle, checks, i, j - 1, r);
      StepGrows(nets, steps, circle, checks, j - 1, r);
    }
  }

  lemma StepGrows(nets: seq<Net>, steps: seq<Step>, circle: string, checks: Checks, i: nat, r: string)
    requires Run(nets, steps, circle, checks) && i + 1 < |nets| && r in nets[i].stores
    ensures r in nets[i + 1].stores && Grown(nets[i].stores[r], nets[i + 1].stores[r])
  {
    hide Do, Enabled, Inv;
    RunInv(nets, steps, circle, checks, i);
    InvKept(nets[i], steps[i], circle, checks);
  }

  /** Replicas that have heard of the same event ids agree on everything, whatever the
      interleaving that brought them there. */
  lemma ReplicasConverge(nets: seq<Net>, steps: seq<Step>, circle: string, checks: Checks, i: nat, a: string, b: string)
    requires Run(nets, steps, circle, checks) && i < |nets| && a in nets[i].stores && b in nets[i].stores
    requires nets[i].stores[a].Keys == nets[i].stores[b].Keys
    ensures nets[i].stores[a] == nets[i].stores[b] && WellFiled(nets[i].stores[a])
    ensures Materialized(Listing(nets[i].stores[a])) == Materialized(Listing(nets[i].stores[b]))
  {
    RunInv(nets, steps, circle, checks, i);
    var x, y := nets[i].stores[a], nets[i].stores[b];
    forall id | id in x ensures id in y && x[id] == y[id] {
      assert id in y.Keys;
    }
    forall id | id in y ensures id in x {
      assert id in x.Keys;
    }
  }

  // ---- The causal graph ------------------------------------------------------------

  /** A chain of ids, each a parent of the next. */
  ghost predicate Chain(made: Files, ids: seq<string>) {
    && ids != [] && (forall i :: 0 <= i < |ids| ==> ids[i] in made)
    && forall i :: 0 <= i < |ids| - 1 ==> ids[i] in made[ids[i + 1]].parents
  }

  lemma {:induction false} ChainAscends(n: Net, ids: seq<string>)
    requires Inv(n) && Chain(n.made, ids) && |ids| > 1
    ensures n.made[ids[0]].lamport < n.made[ids[|ids| - 1]].lamport
  {
    var last := |ids| - 1;
    assert Stamped(n.made[ids[last]], n.made);
    if last > 1 {
      var front := ids[..last];
      assert forall i :: 0 <= i < |front| ==> front[i] == ids[i];
      ChainAscends(n, front);
    }
  }

  /** At no moment of any run does the parent graph have a cycle. */
  lemma NoCycles(nets: seq<Net>, steps: seq<Step>, circle: string, checks: Checks, i: nat, ids: seq<string>)
    requires Run(nets, steps, circle, checks) && i < |nets| && Chain(nets[i].made, ids) && |ids| > 1
    ensures ids[0] != ids[|ids| - 1]
  {
    RunInv(nets, steps, circle, checks, i);
    ChainAscends(nets[i], ids);
  }

  /** In every run a listing puts every event after all of its ancestors. */
  lemma AncestorsSortFirst(nets: seq<Net>, steps: seq<Step>, circle: string, checks: Checks, m: nat, r: string,
                           ids: seq<string>, i: nat, j: nat)
    requires Run(nets, steps, circle, checks) && m < |nets| && r in nets[m].stores
    requires Chain(nets[m].made, ids) && |ids| > 1
    requires var list := Listing(nets[m].stores[r]);
             i < |list| && j < |list| && list[i].id == ids[0] && list[j].id == ids[|ids| - 1]
    ensures i < j
  {
    RunInv(nets, steps, circle, checks, m);
    var n := nets[m];
    var list := Listing(n.stores[r]);
    assert list[i] in Elems(list) && list[j] in Elems(list);
    ChainAscends(n, ids);
    EventLessStrict();
    assert list[i].lamport < list[j].lamport;
    assert i > j ==> EventLess(list[j], list[i]);
  }

  /** In every run, right after a local append the new event is the store's only head. */
  lemma LocalAppendIsSoleHead(nets: seq<Net>, steps: seq<Step>, circle: string, checks: Checks, i: nat)
    requires Run(nets, steps, circle, checks) && i < |steps| && steps[i].LocalAppend?
    requires steps[i].at in nets[i + 1].stores && steps[i].id in nets[i + 1].stores[steps[i].at]
    ensures HeadIds(nets[i + 1].stores[steps[i].at].Values) == {steps[i].id}
  {
    RunInv(nets, steps, circle, checks, i);
    hide Run;
    NewEventIsSoleHead(nets[i], steps[i], circle, checks);
  }

  lemma NewEventIsSoleHead(n: Net, s: Step, circle: string, checks: Checks)
    requires Inv(n) && Enabled(n, s) && s.LocalAppend?
    requires s.id in Do(n, s, circle, checks).stores[s.at]
    ensures HeadIds(Do(n, s, circle, checks).stores[s.at].Values) == {s.id}
  {
    hide Validate, MaxLamport, EventLess, InOrder;
    var files := n.stores[s.at];
    LocalEventIsStamped(files, n.made, circle, s.id, s.now, s.peer, s.device, s.kind);
    var e := LocalEvent(files, circle, s.id, s.now, s.peer, s.device, s.kind);
    forall id | id in files ensures s.id !in files[id].parents {
      assert Stamped(n.made[id], n.made);
    }
    SoleHead(files, e);
  }

  lemma SoleHead(files: Files, e: Event)
    requires WellFiled(files) && e.id !in files && e.id !in e.parents
    requires forall id :: id in files ==> e.id !in files[id].parents
    requires Elems(e.parents) == HeadIds(files.Values)
    ensures HeadIds(files[e.id := e].Values) == {e.id}
  {
    var after := files[e.id := e];
    ValuesOfUpdate(files, e);
    forall f | f in files.Values ensures !IsHead(f, after.Values) {
      if IsHead(f, files.Values) {
        assert f.id in HeadIds(files.Values);
        assert f.id in Elems(e.parents);
        assert e in after.Values;
      } else {
        var g :| g in files.Values && f.id in g.parents;
        assert g in after.Values;
      }
    }
    assert IsHead(e, after.Values);
  }

  lemma ValuesOfUpdate(files: Files, e: Event)
    requires WellFiled(files) && e.id !in files
    ensures files[e.id := e].Values == files.Values + {e}
  {
    var after := files[e.id := e];
    forall x | x in files.Values ensures x in after.Values {
      assert after[x.id] == x;
    }
    assert after[e.id] == e;
  }

  /** In every run, from every stored event a chain of stored children leads to a head. */
  lemma EveryEventReachesAHead(nets: seq<Net>, steps: seq<Step>, circle: string, checks: Checks, i: nat, r: string,
                               e: Event)
    returns (ids: seq<string>)
    requires Run(nets, steps, circle, checks) && i < |nets| && r in nets[i].stores && e in nets[i].stores[r].Values
    ensures Chain(nets[i].stores[r], ids) && ids[0] == e.id
    ensures ids[|ids| - 1] in HeadIds(nets[i].stores[r].Values)
  {
    RunInv(nets, steps, circle, checks, i);
    ids := PathToHead(nets[i], r, e);
  }

  lemma {:induction false} PathToHead(n: Net, r: string, e: Event) returns (ids: seq<string>)
    requires Inv(n) && r in n.stores && e in n.stores[r].Values
    ensures Chain(n.stores[r], ids) && ids[0] == e.id
    ensures ids[|ids| - 1] in HeadIds(n.stores[r].Values)
    decreases |n.made| - e.lamport
  {
    var files := n.stores[r];
    if IsHead(e, files.Values) {
      ids := [e.id];
    } else {
      var f := ChildOf(n, r, e);
      var rest := PathToHead(n, r, f);
      ids := [e.id] + rest;
      ChainPrepend(files, e.id, rest);
    }
  }

  lemma ChildOf(n: Net, r: string, e: Event) returns (f: Event)
    requires Inv(n) && r in n.stores && e in n.stores[r].Values && !IsHead(e, n.stores[r].Values)
    ensures f in n.stores[r].Values && e.id in f.parents && e.lamport < f.lamport <= |n.made|
    ensures e.id in n.stores[r] && f.id in n.stores[r] && n.stores[r][f.id] == f
  {
    f :| f in n.stores[r].Values && e.id in f.parents;
    assert n.made[e.id] == e && n.made[f.id] == f && Stamped(n.made[f.id], n.made);
  }

  lemma ChainPrepend(files: Files, id: string, rest: seq<string>)
    requires Chain(files, rest) && id in files && id in files[rest[0]].parents
    ensures Chain(files, [id] + rest)
  {
    var ids := [id] + rest;
    forall i | 0 <= i < |ids| - 1 ensures ids[i] in files[ids[i + 1]].parents {
      assert ids[i + 1] == rest[i];
      assert i > 0 ==> ids[i] == rest[i - 1];
    }
  }

  // ---- A decision the creation outruns ---------------------------------------------

  /** In every run: a proposal created at a replica that already holds its greatest claim
      shows its initial status there, whatever that claim decided. */
  lemma CreationOutrunsDecision(nets: seq<Net>, steps: seq<Step>, circle: string, checks: Checks, i: nat, p: string,
                                c: Event, w: Event)
    requires Run(nets, steps, circle, checks) && i < |steps| && steps[i].LocalAppend? && steps[i].at in nets[i].stores
    requires w in nets[i].stores[steps[i].at].Values && c.id == steps[i].id
    requires steps[i].at in nets[i + 1].stores
    requires var events := nets[i + 1].stores[steps[i].at].Values;
             FirstCreation(events, p, c) && Greatest(events, p, w)
    ensures var state := Materialized(Listing(nets[i + 1].stores[steps[i].at]));
            p in state.proposals && state.proposals[p].status == c.kind.initial
  {
    RunInv(nets, steps, circle, checks, i);
    RunInv(nets, steps, circle, checks, i + 1);
    hide Run, Stamped, Materialized, Validate, LocalEvent;
    var before, after := nets[i].stores[steps[i].at], nets[i + 1].stores[steps[i].at];
    LocalEventIsLatest(before, circle, steps[i], w);
    assert after[c.id] == c;
    StatusPrecedence(Listing(after), p, c, w);
  }

  lemma LocalEventIsLatest(files: Store, circle: string, s: Step, w: Event)
    requires s.LocalAppend? && w in files.Values
    ensures w.lamport < LocalEvent(files, circle, s.id, s.now, s.peer, s.device, s.kind).lamport
  {
    assert w in Elems(Listing(files));
  }

  const REVERT_ID := "6f1c9d3e-0b7a-4c55-9f2e-3a1d5b8c7e01"
  const CREATION_ID := "a2d4f6b8-1c3e-4f5a-8b7d-9e0f1a2b3c4d"
  const PROPOSAL_ID := "0d9c8b7a-6f5e-4d3c-a2b1-908f7e6d5c4b"

  /** Such a run exists: one replica records a revert, it is delivered to another, and that
      one, which has the proposal on record, makes its creation event. The proposal then
      shows as pending although the revert holds the greatest key. */
  lemma EarlyDecisionIsLost(circle: string, checks: Checks, snapshot: string)
    requires checks.id(REVERT_ID) && checks.id(CREATION_ID) && checks.id(PROPOSAL_ID) && checks.snapshot(snapshot)
    ensures exists nets: seq<Net>, steps: seq<Step>, w: Event ::
              Run(nets, steps, circle, checks) && "b" in nets[|steps|].stores &&
              var store := nets[|steps|].stores["b"];
              Greatest(store.Values, PROPOSAL_ID, w) && Claim(w, PROPOSAL_ID) == Some(Reverted) &&
              PROPOSAL_ID in Materialized(Listing(store)).proposals &&
              Materialized(Listing(store)).proposals[PROPOSAL_ID].status == Pending
  {
    hide Run, LocalEvent, Materialized, InOrder, HeadIds, EventLess, StrLess, Listing;
    var revert := ProposalStatusChanged(PROPOSAL_ID, Reverted, snapshot);
    var creation := ProposalCreated(PROPOSAL_ID, snapshot, snapshot, [], Pending);
    var w := Event(SCHEMA_VERSION, REVERT_ID, circle, [], 1, 0, "a", "laptop", revert);
    var c := Event(SCHEMA_VERSION, CREATION_ID, circle, [REVERT_ID], 2, 0, "b", "desktop", creation);
    assert REVERT_ID[0] != CREATION_ID[0] && c.parents[1..] == [];
    assert ValidateParents(c.parents, c.id, checks) == ValidateParents([], c.id, checks) == None;
    assert Validate(w, circle, checks).None? && Validate(c, circle, checks).None?;
    OnlyTwoClaims(w, c);
    hide *;
    var s0 := LocalAppend("a", REVERT_ID, 0, "a", "laptop", revert);
    var s2 := LocalAppend("b", CREATION_ID, 0, "b", "desktop", creation);
    FirstLocalEvent(circle, REVERT_ID, 0, "a", "laptop", revert);
    SecondLocalEvent(w, circle, CREATION_ID, 0, "b", "desktop", creation);
    var nets := ThreeSteps(circle, checks, s0, s2, w, c);
    CreationOutrunsDecision(nets, [s0, Deliver("b", REVERT_ID), s2], circle, checks, 2, PROPOSAL_ID, c, w);
  }

  /** The run of two appends with a delivery of the first between them. */
  lemma ThreeSteps(circle: string, checks: Checks, s0: Step, s2: Step, w: Event, c: Event) returns (nets: seq<Net>)
    requires s0.LocalAppend? && s0.at == "a" && s0.id == w.id && s2.LocalAppend? && s2.at == "b" && s2.id == c.id
    requires w.id != c.id && Validate(w, circle, checks).None? && Validate(c, circle, checks).None?
    requires LocalEvent(map[], circle, s0.id, s0.now, s0.peer, s0.device, s0.kind) == w
    requires LocalEvent(map[w.id := w], circle, s2.id, s2.now, s2.peer, s2.device, s2.kind) == c
    ensures Run(nets, [s0, Deliver("b", w.id), s2], circle, checks)
    ensures "b" in nets[2].stores && w in nets[2].stores["b"].Values
    ensures "b" in nets[3].stores && nets[3].stores["b"].Values == {w, c}
  {
    hide LocalEvent, Validate, Do;
    var n0 := Net(map[], map["a" := map[], "b" := map[]]);
    Appends(n0, s0, circle, checks, w);
    var n1 := Do(n0, s0, circle, checks);
    Delivers(n1, "b", w, circle, checks);
    var n2 := Do(n1, Deliver("b", w.id), circle, checks);
    assert n2.stores["b"] == map[w.id := w];
    Appends(n2, s2, circle, checks, c);
    var n3 := Do(n2, s2, circle, checks);
    nets := [n0, n1, n2, n3];
    ValuesOfUpdate(map[], w);
    ValuesOfUpdate(map[w.id := w], c);
  }

  lemma Appends(n: Net, s: Step, circle: string, checks: Checks, e: Event)
    requires Enabled(n, s) && s.LocalAppend? && s.id == e.id && e.id !in n.stores[s.at]
    requires LocalEvent(n.stores[s.at], circle, s.id, s.now, s.peer, s.device, s.kind) == e
    requires Validate(e, circle, checks).None?
    ensures Do(n, s, circle, checks) == Net(n.made[e.id := e], n.stores[s.at := n.stores[s.at][e.id := e]])
  {
    hide LocalEvent, Validate;
  }

  lemma Delivers(n: Net, to: string, e: Event, circle: string, checks: Checks)
    requires to in n.stores && e.id in n.made && n.made[e.id] == e && e.id !in n.stores[to]
    requires Validate(e, circle, checks).None?
    ensures Do(n, Deliver(to, e.id), circle, checks) == n.(stores := n.stores[to := n.stores[to][e.id := e]])
  {
    hide Validate;
  }

  lemma FirstLocalEvent(circle: string, id: string, now: int, peer: string, device: string, kind: Kind)
    ensures LocalEvent(map[], circle, id, now, peer, device, kind) ==
            Event(SCHEMA_VERSION, id, circle, [], 1, now, peer, device, kind)
  {
    var none: Files := map[];
    EmptyInOrder();
    assert HeadIds(none.Values) == {};
    NoElems(Listing(none));
  }

  lemma NoElems(s: seq<Event>)
    ensures Elems(s) == {} ==> s == []
  {
    if s != [] {
      assert s[0] in Elems(s);
    }
  }

  lemma SecondLocalEvent(w: Event, circle: string, id: string, now: int, peer: string, device: string, kind: Kind)
    requires w.parents == [] && w.lamport == 1
    ensures LocalEvent(map[w.id := w], circle, id, now, peer, device, kind) ==
            Event(SCHEMA_VERSION, id, circle, [w.id], 2, now, peer, device, kind)
  {
    hide EventLess;
    var one: Files := map[w.id := w];
    assert one.Values == {w} by { assert one[w.id] == w; }
    assert IsHead(w, one.Values) && HeadIds(one.Values) == {w.id};
    SingletonInOrder(w.id);
    var list := Listing(one);
    assert forall e :: e in list ==> e in Elems(list);
    assert MaxLamport(list) == 1 by { assert w in Elems(list); }
  }

  lemma SingletonInOrder(x: string)
    ensures InOrder({x}) == [x]
  {
    var r := InOrder({x});
    assert forall y :: y in r <==> y in Elems(r);
    StrLessIrreflexive(x);
    assert r != [] && (|r| > 1 ==> StrLess(r[0], r[1]) && r[0] in r && r[1] in r);
  }

  lemma OnlyTwoClaims(w: Event, c: Event)
    requires Claim(w, PROPOSAL_ID) == Some(Reverted) && Creates(c, PROPOSAL_ID) && c.kind.initial == Pending && w != c
    requires !Creates(w, PROPOSAL_ID)
    ensures FirstCreation({w, c}, PROPOSAL_ID, c) && Greatest({w, c}, PROPOSAL_ID, w)
  {
  }
}
