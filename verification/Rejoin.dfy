/** How a device keeps its own MLS group in line with its standing, through any number
    of removals and readmissions (`settle_own_standing`, `record_admission` and
    `consume_welcome` of `src/lifecycle.rs`). */
module Rejoin {
  import opened Wrappers
  import Membership

  datatype Group = Group(active: bool, epoch: nat)

  /** One device. `word` is the admin's deciding record about it, `legacy` whether an old
      tombstone names it; `pending` is its own entry among the filed join requests. */
  datatype Device = Device(
    word: Option<Membership.Rank>, legacy: bool, group: Option<Group>, admittedGen: nat,
    request: Option<string>, pending: Option<string>,
    lastWelcome: Option<string>, rotatedFor: Option<string>, identity: nat)

  predicate Removed(d: Device) {
    if d.word.Some? then d.word.value.out else d.legacy
  }

  function Readmission(word: Option<Membership.Rank>): Option<nat> {
    if word.Some? && !word.value.out then Some(word.value.gen) else None
  }

  function ReadmittedSinceAdmission(d: Device): Option<nat> {
    var gen := Readmission(d.word);
    if gen.Some? && gen.value > d.admittedGen then gen else None
  }

  /** Note the generation of the readmission a device was just admitted under. */
  function Recorded(d: Device): Device {
    d.(admittedGen := if Readmission(d.word).Some? then Readmission(d.word).value else 0)
  }

  function Settled(d: Device): Device {
    var readmitted := ReadmittedSinceAdmission(d);
    if !Removed(d) && readmitted.None? then d
    else
      var dropped := d.(group := None);
      if readmitted.None? || d.request.None? || d.pending.Some? then dropped else dropped.(pending := d.request)
  }

  /** What trying a Welcome comes to. */
  datatype Join = Joins(epoch: nat) | NoMatchingKeyPackage | Fails

  /** Whether a Welcome takes effect: never trading a live group for an older one. */
  function TakesEffect(group: Option<Group>, join: Join): bool {
    join.Joins? && (group.Some? && group.value.active ==> join.epoch > group.value.epoch)
  }

  function Consumed(d: Device, welcome: string, join: Join): Device {
    if d.group.Some? && d.lastWelcome == Some(welcome) then d
    else if d.group.None? && d.rotatedFor == Some(welcome) then d
    else
      var tried := d.(lastWelcome := Some(welcome));
      if TakesEffect(d.group, join) then Recorded(tried.(group := Some(Group(true, join.epoch))))
      else if d.group.None? && join.NoMatchingKeyPackage? then
        tried.(identity := d.identity + 1, rotatedFor := Some(welcome),
               pending := if d.request.Some? then d.request else d.pending)
      else tried
  }

  class DeviceState {
    var word: Option<Membership.Rank>
    var legacy: bool
    var group: Option<Group>
    var admittedGen: nat
    var request: Option<string>
    var pending: Option<string>
    var lastWelcome: Option<string>
    var rotatedFor: Option<string>
    var identity: nat

    ghost function Abstract(): Device
      reads this
    {
      Device(word, legacy, group, admittedGen, request, pending, lastWelcome, rotatedFor, identity)
    }

    constructor (d: Device)
      ensures Abstract() == d
    {
      word, legacy, group, admittedGen, request := d.word, d.legacy, d.group, d.admittedGen, d.request;
      pending, lastWelcome, rotatedFor, identity := d.pending, d.lastWelcome, d.rotatedFor, d.identity;
    }

    /** Drop the group; true if there was one. */
    method ForgetGroup() returns (had: bool)
      modifies this`group
      ensures had == old(group).Some? && group == None
    {
      had := group.Some?;
      group := None;
    }

    method SettleOwnStanding()
      modifies this
      ensures Abstract() == Settled(old(Abstract()))
    {
      var gen := Readmission(word);
      var readmitted := gen.Some? && gen.value > admittedGen;
      var removed := if word.Some? then word.value.out else legacy;
      if !removed && !readmitted {
        return;
      }
      var had := ForgetGroup();
      if !readmitted {
        return;
      }
      if request.None? {
        return;
      }
      if pending.None? {
        pending := request;
      }
    }

    method RecordAdmission()
      modifies this`admittedGen
      ensures Abstract() == Recorded(old(Abstract()))
    {
      var gen := Readmission(word);
      admittedGen := if gen.Some? then gen.value else 0;
    }

    /** Publish a new identity's KeyPackage, and the join request with it. */
    method ReplaceIdentity()
      modifies this
      ensures Abstract() == old(Abstract()).(identity := old(identity) + 1,
                pending := if old(request).Some? then old(request) else old(pending))
    {
      identity := identity + 1;
      if request.Some? {
        pending := request;
      }
    }

    /** `join` is what MLS makes of the Welcome with this device's current keys. */
    method ConsumeWelcome(welcome: string, join: Join)
      modifies this
      ensures Abstract() == Consumed(old(Abstract()), welcome, join)
    {
      if group.Some? && lastWelcome == Some(welcome) {
        return;
      }
      if group.None? && rotatedFor == Some(welcome) {
        return;
      }
      lastWelcome := Some(welcome);
      var joined := match group
        case None => join.Joins?
        case Some(held) => join.Joins? && (!held.active || join.epoch > held.epoch);
      if !joined {
        if group.None? && join.NoMatchingKeyPackage? {
          ReplaceIdentity();
          rotatedFor := Some(welcome);
        }
        return;
      }
      group := Some(Group(true, join.epoch));
      RecordAdmission();
    }
  }

  // ---- One settling ----------------------------------------------------------------

  /** Settling twice is settling once. */
  lemma SettlingIsIdempotent(d: Device)
    ensures Settled(Settled(d)) == Settled(d)
  {
  }

  /** Settling changes a device exactly when it is removed or has been readmitted since
      its admission, and there is something to drop or a request to file. */
  lemma SettlingActsExactlyWhen(d: Device)
    ensures Settled(d) != d <==>
      (Removed(d) || ReadmittedSinceAdmission(d).Some?) &&
      (d.group.Some? || (ReadmittedSinceAdmission(d).Some? && d.request.Some? && d.pending.None?))
  {
  }

  /** A removal drops the group and files nothing. */
  lemma RemovalDropsAndAsksNothing(d: Device)
    requires Removed(d)
    ensures Settled(d) == d.(group := None)
  {
  }

  /** A readmission newer than the admission drops the group and leaves the stored
      request pending, whether or not the removal before it was ever seen. */
  lemma ReadmissionAsksAgain(d: Device)
    requires ReadmittedSinceAdmission(d).Some? && d.request.Some?
    ensures Settled(d).group == None && Settled(d).pending.Some?
    ensures d.pending.None? ==> Settled(d).pending == d.request
  {
  }

  /** Settling, field by field: out by the record, or by the old tombstone without one, the
      device drops its group; back by a newer record, it drops it and sees its request
      filed. Nothing else changes. */
  lemma SettledByFields(d: Device)
    ensures var gone := if d.word.Some? then d.word.value.out else d.legacy;
            var back := d.word.Some? && !d.word.value.out && d.word.value.gen > d.admittedGen;
            && Settled(d).group == (if gone || back then None else d.group)
            && Settled(d).pending == (if back && d.pending.None? then d.request else d.pending)
            && Settled(d).(group := d.group, pending := d.pending) == d
  {
  }

  // ---- One Welcome -----------------------------------------------------------------

  /** The device has dealt with this Welcome: it tried it holding a group, or replaced its
      keys over it holding none. */
  predicate Handled(d: Device, welcome: string) {
    (d.group.Some? && d.lastWelcome == Some(welcome)) || (d.group.None? && d.rotatedFor == Some(welcome))
  }

  /** A Welcome not handled before replaces the group exactly when it joins and there is no
      group, an inactive one, or a strictly older one; the generation of the readmission
      the device then holds, or zero, is noted. */
  lemma WelcomeReplacesExactlyWhen(d: Device, welcome: string, join: Join)
    requires !Handled(d, welcome)
    ensures var e := Consumed(d, welcome, join);
            var newer := d.group.None? || !d.group.value.active || (join.Joins? && join.epoch > d.group.value.epoch);
            && e.lastWelcome == Some(welcome) && e.word == d.word && e.legacy == d.legacy && e.request == d.request
            && (join.Joins? && newer ==>
                  && e.group == Some(Group(true, join.epoch)) && e.pending == d.pending && e.identity == d.identity
                  && e.admittedGen == if d.word.Some? && !d.word.value.out then d.word.value.gen else 0)
            && (!(join.Joins? && newer) ==> e.group == d.group && e.admittedGen == d.admittedGen)
  {
  }

  /** One handled before changes nothing. */
  lemma HandledChangesNothing(d: Device, welcome: string, join: Join)
    requires Handled(d, welcome)
    ensures Consumed(d, welcome, join) == d
  {
  }

  /** The device's keys are replaced exactly when, holding no group, it meets a Welcome for
      keys it does not have and has not yet replaced them over; its request is then filed
      again, and that Welcome is handled. */
  lemma KeysChangeExactlyWhen(d: Device, s: Step)
    ensures Do(d, s).identity != d.identity <==>
            s.Welcome? && d.group.None? && d.rotatedFor != Some(s.welcome) && s.join.NoMatchingKeyPackage?
    ensures Do(d, s).identity != d.identity ==>
            && Do(d, s).identity == d.identity + 1 && Handled(Do(d, s), s.welcome)
            && (d.request.Some? ==> Do(d, s).pending == d.request)
  {
  }

  // ---- Runs ------------------------------------------------------------------------

  datatype Step =
    /** A record about this device, no older than the one it holds, arrives. */
    | Word(rank: Membership.Rank)
    | Settle
    /** A Welcome arrives, perhaps again, with what trying it comes to. */
    | Welcome(welcome: string, join: Join)
    /** The admin decided on the request. */
    | Decided
    /** A commit others made moves the group on, with this device in it or out of it. */
    | Advances(stays: bool)

  predicate Enabled(d: Device, s: Step) {
    s.Word? ==> d.word.None? || Membership.RankLe(d.word.value, s.rank)
  }

  function Do(d: Device, s: Step): Device {
    match s
    case Word(rank) => d.(word := Some(rank))
    case Settle => Settled(d)
    case Welcome(welcome, join) => Consumed(d, welcome, join)
    case Decided => d.(pending := None)
    case Advances(stays) =>
      if d.group.Some? && d.group.value.active then d.(group := Some(Group(stays, d.group.value.epoch + 1))) else d
  }

  function Follow(d: Device, steps: seq<Step>): Device
    decreases |steps|
  {
    if steps == [] then d else Follow(Do(d, steps[0]), steps[1..])
  }

  /** A run: any interleaving of enabled steps. */
  ghost predicate Possible(d: Device, steps: seq<Step>)
    decreases |steps|
  {
    steps == [] || (Enabled(d, steps[0]) && Possible(Do(d, steps[0]), steps[1..]))
  }

  /** An admission is noted under a readmission the device has seen. A new device starts so. */
  predicate Known(d: Device) {
    d.admittedGen <= if d.word.Some? then d.word.value.gen else 0
  }

  lemma {:induction false} KnownThroughout(d: Device, steps: seq<Step>)
    requires Known(d) && Possible(d, steps)
    ensures Known(Follow(d, steps))
    decreases |steps|
  {
    if steps != [] {
      KnownThroughout(Do(d, steps[0]), steps[1..]);
    }
  }

  /** The device was admitted under its current readmission, and is in its group. */
  predicate AtHome(d: Device) {
    d.group.Some? && !Removed(d) && ReadmittedSinceAdmission(d).None?
  }

  /** A Welcome that was not handled before and takes effect. */
  predicate Effective(d: Device, s: Step) {
    && s.Welcome? && !Handled(d, s.welcome) && s.join.Joins?
    && (d.group.None? || !d.group.value.active || s.join.epoch > d.group.value.epoch)
  }

  /** An effective Welcome brings the device home exactly when its latest record is not a
      removal, and settling then leaves it alone. */
  lemma AdmissionBringsHomeExactlyWhen(d: Device, s: Step)
    requires Effective(d, s)
    ensures AtHome(Do(d, s)) <==> !Removed(d)
    ensures Settled(Do(d, s)) == Do(d, s) <==> !Removed(d)
  {
  }

  /** A record that arrives at a device at home leaves it there exactly when it is neither a
      removal nor a readmission newer than the admission. */
  lemma WordKeepsHomeExactlyWhen(d: Device, rank: Membership.Rank)
    requires AtHome(d)
    ensures AtHome(Do(d, Word(rank))) <==> !rank.out && rank.gen <= d.admittedGen
  {
  }

  /** No step of the run brings a removal, or a readmission newer than `gen`. */
  ghost predicate NothingNewer(steps: seq<Step>, gen: nat) {
    forall s :: s in steps && s.Word? ==> !s.rank.out && s.rank.gen <= gen
  }

  ghost predicate HomeThroughout(d: Device, steps: seq<Step>)
    decreases |steps|
  {
    AtHome(d) && (steps == [] || HomeThroughout(Do(d, steps[0]), steps[1..]))
  }

  lemma HomeStep(d: Device, s: Step)
    requires Known(d) && AtHome(d) && Enabled(d, s)
    ensures AtHome(Do(d, s)) <==> (s.Word? ==> !s.rank.out && s.rank.gen <= d.admittedGen)
    ensures AtHome(Do(d, s)) ==> Do(d, s).admittedGen == d.admittedGen && Known(Do(d, s))
  {
  }

  /** Through any run a device at home stays there exactly when no removal and no readmission
      newer than its admission arrives. Settling, Welcomes old and new, failing or not, and
      decisions make no difference. */
  lemma {:induction false} StaysHomeExactlyWhen(d: Device, steps: seq<Step>)
    requires Known(d) && AtHome(d) && Possible(d, steps)
    ensures HomeThroughout(d, steps) <==> NothingNewer(steps, d.admittedGen)
    decreases |steps|
  {
    if steps != [] {
      hide AtHome, Known, Do, Enabled;
      var s, rest := steps[0], steps[1..];
      HomeStep(d, s);
      assert steps == [s] + rest;
      var gen := d.admittedGen;
      assert NothingNewer(steps, gen) <==> NothingNewer([s], gen) && NothingNewer(rest, gen);
      assert s in [s];
      if AtHome(Do(d, s)) {
        StaysHomeExactlyWhen(Do(d, s), rest);
      } else {
        NotHome(Do(d, s), rest);
      }
    }
  }

  lemma NotHome(d: Device, steps: seq<Step>)
    requires !AtHome(d)
    ensures !HomeThroughout(d, steps)
  {
  }

  lemma {:induction false} HomeAtTheEnd(d: Device, steps: seq<Step>)
    requires HomeThroughout(d, steps)
    ensures AtHome(Follow(d, steps)) && Settled(Follow(d, steps)) == Follow(d, steps)
    decreases |steps|
  {
    if steps != [] {
      HomeAtTheEnd(Do(d, steps[0]), steps[1..]);
    }
  }

  lemma {:induction false} FollowAppend(d: Device, a: seq<Step>, b: seq<Step>)
    ensures Follow(d, a + b) == Follow(Follow(d, a), b)
    ensures Possible(d, a + b) <==> Possible(d, a) && Possible(Follow(d, a), b)
    decreases |a|
  {
    hide Do, Enabled;
    if a == [] {
      assert a + b == b;
    } else {
      assert (a + b)[1..] == a[1..] + b;
      FollowAppend(Do(d, a[0]), a[1..], b);
    }
  }

  /** Any number of removals and readmissions, in any run: from an effective Welcome on, a
      device is home at every moment, and left alone by every settling, exactly when it was
      not removed by then and nothing newer than that admission arrives later. So one
      admission taken after the last record is enough, whatever went before. */
  lemma RunsSettleExactlyWhen(d: Device, before: seq<Step>, s: Step, after: seq<Step>)
    requires Known(d) && Possible(d, before + ([s] + after)) && Effective(Follow(d, before), s)
    ensures var home := Do(Follow(d, before), s);
            HomeThroughout(home, after) <==> !Removed(Follow(d, before)) && NothingNewer(after, home.admittedGen)
    ensures var home, end := Do(Follow(d, before), s), Follow(d, before + ([s] + after));
            HomeThroughout(home, after) ==> AtHome(end) && Settled(end) == end
  {
    hide Do, AtHome, Known, Removed, Enabled, Effective, HomeThroughout, NothingNewer;
    var mid := Follow(d, before);
    var home := Do(mid, s);
    FollowAppend(d, before, [s] + after);
    assert ([s] + after)[1..] == after;
    KnownThroughout(d, before);
    KnownStep(mid, s);
    AdmissionBringsHomeExactlyWhen(mid, s);
    if AtHome(home) {
      StaysHomeExactlyWhen(home, after);
    } else {
      NotHome(home, after);
    }
    if HomeThroughout(home, after) {
      HomeAtTheEnd(home, after);
    }
  }

  lemma KnownStep(d: Device, s: Step)
    requires Known(d) && Enabled(d, s)
    ensures Known(Do(d, s))
  {
  }

  /** Taken before its record, an admission is undone by it: the next settling drops the
      fresh group and files the request again. */
  lemma LateRecordUndoesAdmission(d: Device, rank: Membership.Rank)
    requires AtHome(d) && !rank.out && rank.gen > d.admittedGen && d.request.Some?
    ensures Settled(Do(d, Word(rank))).group == None && Settled(Do(d, Word(rank))).pending.Some?
  {
  }

  /** So one admission per readmission is not always enough: here the removal was never
      seen and the Welcome came before the readmission record, and only a second admission
      brings the device home. */
  lemma OneAdmissionMayNotDo()
    ensures exists d: Device, first: Step, second: Step, rank: Membership.Rank ::
              var run := [first, Word(rank), Settle];
              && Known(d) && AtHome(d) && Possible(d, run + [Decided, second])
              && Effective(d, first) && AtHome(Do(d, first)) && !rank.out
              && Follow(d, run).group == None && Follow(d, run).pending == d.request
              && AtHome(Follow(d, run + [Decided, second]))
  {
    var d := Device(None, false, Some(Group(true, 1)), 0, Some("request"), None, None, None, 0);
    var first, second := Welcome("first", Joins(5)), Welcome("second", Joins(6));
    var rank := Membership.Rank(2, false);
    var run := [first, Word(rank), Settle];
    var d1 := Do(d, first);
    var d2 := Do(d1, Word(rank));
    var d3 := Do(d2, Settle);
    var d4 := Do(d3, Decided);
    var d5 := Do(d4, second);
    assert AtHome(d) && AtHome(d1) && d3.group == None && d3.pending == d.request && AtHome(d5);
    assert Enabled(d, first) && Enabled(d1, Word(rank)) && Enabled(d2, Settle);
    assert Enabled(d3, Decided) && Enabled(d4, second) && Effective(d, first);
    hide Do, AtHome, Enabled, Effective;
    assert run[1..] == [Word(rank), Settle] && run[1..][1..] == [Settle] && run[1..][1..][1..] == [];
    assert Follow(d, run) == Follow(d1, [Word(rank), Settle]) == Follow(d2, [Settle]) == Follow(d3, []) == d3;
    assert Possible(d2, [Settle]) && Possible(d1, [Word(rank), Settle]) && Possible(d, run);
    TwoMore(d3, Decided, second);
    FollowAppend(d, run, [Decided, second]);
  }

  lemma TwoMore(d: Device, s: Step, t: Step)
    ensures Follow(d, [s, t]) == Do(Do(d, s), t)
    ensures Possible(d, [s, t]) <==> Enabled(d, s) && Enabled(Do(d, s), t)
  {
    hide Do, Enabled;
    assert [s, t][1..] == [t] && [t][1..] == [];
    assert Follow(Do(d, s), [t]) == Follow(Do(Do(d, s), t), []);
    assert Possible(Do(d, s), [t]) <==> Enabled(Do(d, s), t) && Possible(Do(Do(d, s), t), []);
  }

  // ---- Epochs ----------------------------------------------------------------------

  predicate HoldsActive(d: Device) {
    d.group.Some? && d.group.value.active
  }

  ghost predicate ActiveThroughout(d: Device, steps: seq<Step>)
    decreases |steps|
  {
    HoldsActive(d) && (steps == [] || ActiveThroughout(Do(d, steps[0]), steps[1..]))
  }

  /** Step `s` ends the device's time in an active group: a commit puts it out, or it
      settles after a removal or a readmission newer than its admission. */
  predicate EndsMembership(d: Device, s: Step) {
    || s == Advances(false)
    || (s.Settle? && (if d.word.Some? then d.word.value.out || d.word.value.gen > d.admittedGen else d.legacy))
  }

  ghost predicate EndedIn(d: Device, steps: seq<Step>)
    decreases |steps|
  {
    steps != [] && (EndsMembership(d, steps[0]) || EndedIn(Do(d, steps[0]), steps[1..]))
  }

  lemma ActiveStep(d: Device, s: Step)
    requires HoldsActive(d)
    ensures HoldsActive(Do(d, s)) <==> !EndsMembership(d, s)
    ensures HoldsActive(Do(d, s)) ==> Do(d, s).group.value.epoch >= d.group.value.epoch
  {
  }

  /** In every run a device holds its active group until a commit puts it out or it settles
      a removal or a newer readmission, and all that while its epoch never falls. */
  lemma {:induction false} EpochNeverFalls(d: Device, steps: seq<Step>)
    requires HoldsActive(d) && Possible(d, steps)
    ensures ActiveThroughout(d, steps) <==> !EndedIn(d, steps)
    ensures ActiveThroughout(d, steps) ==>
              HoldsActive(Follow(d, steps)) && Follow(d, steps).group.value.epoch >= d.group.value.epoch
    decreases |steps|
  {
    hide Do, EndsMembership, Enabled, HoldsActive;
    if steps != [] {
      ActiveStep(d, steps[0]);
      if HoldsActive(Do(d, steps[0])) {
        ActiveHasGroup(d);
        ActiveHasGroup(Do(d, steps[0]));
        EpochNeverFalls(Do(d, steps[0]), steps[1..]);
      }
    }
  }

  lemma ActiveHasGroup(d: Device)
    ensures HoldsActive(d) ==> d.group.Some?
  {
  }

  // ---- Asking again ----------------------------------------------------------------

  /** Readmitted, out of its group, with a request filed. */
  predicate Waiting(d: Device) {
    ReadmittedSinceAdmission(d).Some? && d.group.None? && d.pending.Some?
  }

  /** A readmitted device that settles is waiting, and goes on waiting through any run until
      it is removed again, the admin decides, or a Welcome lets it in. */
  lemma WaitsUntilAnswered(d: Device, steps: seq<Step>)
    requires ReadmittedSinceAdmission(d).Some? && d.request.Some? && Possible(Settled(d), steps)
    requires forall s :: s in steps ==> !s.Decided? && (s.Word? ==> !s.rank.out) && (s.Welcome? ==> !s.join.Joins?)
    ensures Waiting(Follow(Settled(d), steps))
  {
    KeepsWaiting(Settled(d), steps);
  }

  lemma {:induction false} KeepsWaiting(d: Device, steps: seq<Step>)
    requires Waiting(d) && Possible(d, steps)
    requires forall s :: s in steps ==> !s.Decided? && (s.Word? ==> !s.rank.out) && (s.Welcome? ==> !s.join.Joins?)
    ensures Waiting(Follow(d, steps))
    decreases |steps|
  {
    if steps != [] {
      assert steps[0] in steps && forall s :: s in steps[1..] ==> s in steps;
      KeepsWaiting(Do(d, steps[0]), steps[1..]);
    }
  }
}
