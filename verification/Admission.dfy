/** Automatic approval of join requests and the commit log it keeps
    (`auto_approve`, `grant_admits` and `apply_commit_entry` of `src/lifecycle.rs`). */
module Admission {
  import opened Wrappers

  // ---- What the control document and the MLS group hold ----------------------------

  /** An invite grant presented with a join request. */
  datatype Grant = Grant(inviter: string, nonce: string, expires: int, signed: bool)

  /** A join request as filed: readable, with or without a grant, or not. */
  datatype Pending = Request(owner: string, grant: Option<Grant>) | Unreadable

  /** A published KeyPackage: not hex, hex that is no valid package, or a package. */
  datatype Published = BadHex | NotAPackage | Package(key: string, notBefore: nat)

  /** A leaf of the MLS tree. It loses its lifetime once its member commits. */
  datatype Leaf = Leaf(key: string, notBefore: Option<nat>)

  /** An MLS commit and its log entry: made in epoch `base`, leading to `base + 1`. */
  datatype Commit = Commit(epoch: nat, sender: string, base: nat)

  /** Who redeemed an invite. Entries from before this was recorded name nobody. */
  datatype Redemption = By(peer: string) | Legacy

  datatype Group = Group(epoch: nat, leaves: map<string, Leaf>)

  datatype Control = Control(
    pending: map<string, Pending>, packages: map<string, Published>, welcomes: map<string, nat>,
    commits: seq<Commit>, members: map<string, string>, nonces: map<string, Redemption>)

  /** The admin's device: its document, its group, and the reasons shown per request. */
  datatype Admin = Admin(doc: Control, group: Option<Group>, errors: map<string, Refusal>)

  /** What one approval reads besides the document: the clock, whether the published key
      is bound to the peer, whether its user is distrusted, which inviters are removed,
      whether MLS takes the package, and whether the entries serialise. */
  datatype Env = Env(now: int, bound: bool, distrusted: bool, removed: set<string>, mlsAccepts: bool, serialises: bool)

  datatype Refusal =
    | UnprovenRejoin | NoKeyPackage | BadKeyPackage | Distrusted | NoGrant | Expired | BadGrant
    | AlreadyRedeemed | InviterRemoved | InviterNotMember | MlsFailed

  datatype Outcome = NotPending | AlreadyIn | Refused(why: Refusal) | Unrecorded | Admitted(nonce: string)

  datatype Standing = Absent | Current | Stale | Unproven

  function NewerThanLeaf(notBefore: nat, leaf: Option<nat>): bool {
    leaf.None? || notBefore > leaf.value
  }

  function StandingIn(group: Option<Group>, peer: string, published: Option<Published>, bound: bool): Standing {
    if group.None? || peer !in group.value.leaves then Absent
    else if published.None? || !published.value.Package? then Current
    else
      var leaf := group.value.leaves[peer];
      if published.value.key == leaf.key then Current
      else if bound && NewerThanLeaf(published.value.notBefore, leaf.notBefore) then Stale
      else Unproven
  }

  function GrantAdmits(doc: Control, peer: string, grant: Option<Grant>, env: Env): Option<Refusal> {
    if grant.None? then Some(NoGrant)
    else
      var g := grant.value;
      if env.now > g.expires then Some(Expired)
      else if !g.signed then Some(BadGrant)
      else if g.nonce in doc.nonces && doc.nonces[g.nonce] != By(peer) then Some(AlreadyRedeemed)
      else if g.inviter in env.removed then Some(InviterRemoved)
      else if g.inviter !in doc.members then Some(InviterNotMember)
      else None
  }

  function Lookup<T>(m: map<string, T>, k: string): Option<T> {
    if k in m then Some(m[k]) else None
  }

  function GrantOf(doc: Control, peer: string): Option<Grant> {
    if peer in doc.pending && doc.pending[peer].Request? then doc.pending[peer].grant else None
  }

  /** Why an absent or stale peer is not admitted; `None` when it is. */
  function Refuses(a: Admin, peer: string, env: Env): Option<Refusal> {
    if peer !in a.doc.packages then Some(NoKeyPackage)
    else if a.doc.packages[peer].BadHex? then Some(BadKeyPackage)
    else if env.distrusted then Some(Distrusted)
    else
      var refusal := GrantAdmits(a.doc, peer, GrantOf(a.doc, peer), env);
      if refusal.Some? then refusal
      else if a.group.None? || !a.doc.packages[peer].Package? || !env.mlsAccepts then Some(MlsFailed)
      else None
  }

  /** The group after `admit_member`: one epoch on, with the peer's published keys. */
  function Advanced(g: Group, peer: string, p: Published): Group
    requires p.Package?
  {
    Group(g.epoch + 1, g.leaves[peer := Leaf(p.key, Some(p.notBefore))])
  }

  /** What one automatic approval does. */
  function Approve(a: Admin, me: string, peer: string, env: Env): (Admin, Outcome) {
    if peer !in a.doc.pending then (a.(errors := a.errors - {peer}), NotPending)
    else
      var standing := StandingIn(a.group, peer, Lookup(a.doc.packages, peer), env.bound);
      if standing.Current? then
        (a.(doc := a.doc.(pending := a.doc.pending - {peer}), errors := a.errors - {peer}), AlreadyIn)
      else if standing.Unproven? then (a.(errors := a.errors[peer := UnprovenRejoin]), Refused(UnprovenRejoin))
      else
        var refusal := Refuses(a, peer, env);
        if refusal.Some? then (a.(errors := a.errors[peer := refusal.value]), Refused(refusal.value))
        else
          var group := Advanced(a.group.value, peer, a.doc.packages[peer]);
          if !env.serialises then (a.(group := Some(group)), Unrecorded)
          else
            var nonce := GrantOf(a.doc, peer).value.nonce;
            (Admin(Control(a.doc.pending - {peer}, a.doc.packages, a.doc.welcomes[peer := group.epoch],
                           a.doc.commits + [Commit(group.epoch, me, group.epoch - 1)],
                           a.doc.members[peer := a.doc.pending[peer].owner], a.doc.nonces[nonce := By(peer)]),
                   Some(group), a.errors - {peer}),
             Admitted(nonce))
  }

  class AppState {
    const peerId: string
    var doc: Control
    var group: Option<Group>
    var errors: map<string, Refusal>

    ghost function Abstract(): Admin
      reads this
    {
      Admin(doc, group, errors)
    }

    constructor (peerId: string, doc: Control, group: Option<Group>)
      ensures this.peerId == peerId && Abstract() == Admin(doc, group, map[])
    {
      this.peerId, this.doc, this.group, errors := peerId, doc, group, map[];
    }

    method RecordError(peer: string, why: Refusal)
      modifies this`errors
      ensures errors == old(errors)[peer := why]
    {
      errors := errors[peer := why];
    }

    method AutoApprove(peer: string, env: Env) returns (outcome: Outcome)
      modifies this
      ensures (Abstract(), outcome) == Approve(old(Abstract()), peerId, peer, env)
    {
      if peer !in doc.pending {
        errors := errors - {peer};
        return NotPending;
      }
      var published := Lookup(doc.packages, peer);
      match StandingIn(group, peer, published, env.bound) {
        case Current =>
          doc := doc.(pending := doc.pending - {peer});
          errors := errors - {peer};
          return AlreadyIn;
        case Unproven =>
          RecordError(peer, UnprovenRejoin);
          return Refused(UnprovenRejoin);
        case _ =>
      }
      if published.None? {
        RecordError(peer, NoKeyPackage);
        return Refused(NoKeyPackage);
      }
      if published.value.BadHex? {
        RecordError(peer, BadKeyPackage);
        return Refused(BadKeyPackage);
      }
      var presented := GrantOf(doc, peer);
      if env.distrusted {
        RecordError(peer, Distrusted);
        return Refused(Distrusted);
      }
      var refusal := GrantAdmits(doc, peer, presented, env);
      if refusal.Some? {
        RecordError(peer, refusal.value);
        return Refused(refusal.value);
      }
      if group.None? || !published.value.Package? || !env.mlsAccepts {
        RecordError(peer, MlsFailed);
        return Refused(MlsFailed);
      }
      // From here on the group has moved and cannot be moved back.
      group := Some(Advanced(group.value, peer, published.value));
      var epoch := group.value.epoch;
      var owner := doc.pending[peer].owner;
      var commit := Commit(epoch, peerId, epoch - 1);
      if !env.serialises {
        return Unrecorded;
      }
      doc := doc.(welcomes := doc.welcomes[peer := epoch]);
      doc := doc.(commits := doc.commits + [commit]);
      doc := doc.(members := doc.members[peer := owner]);
      doc := doc.(pending := doc.pending - {peer});
      errors := errors - {peer};
      var nonce := presented.value.nonce;
      doc := doc.(nonces := doc.nonces[nonce := By(peer)]);
      return Admitted(nonce);
    }
  }

  // ---- All or nothing --------------------------------------------------------------

  /** An admission writes welcome, commit, member entry, pending removal, nonce and leaf
      together and nothing else; any other outcome leaves welcomes, commits, members,
      packages and nonces alone. */
  lemma AdmissionIsAllOrNothing(a: Admin, me: string, peer: string, env: Env)
    ensures var (b, outcome) := Approve(a, me, peer, env);
            if outcome.Admitted? then
              && b.group.Some? && a.group.Some? && b.group.value.epoch == a.group.value.epoch + 1
              && b.doc.welcomes == a.doc.welcomes[peer := b.group.value.epoch]
              && b.doc.commits == a.doc.commits + [Commit(b.group.value.epoch, me, a.group.value.epoch)]
              && peer in b.doc.members && peer !in b.doc.pending
              && b.doc.nonces == a.doc.nonces[outcome.nonce := By(peer)]
              && GrantOf(a.doc, peer).Some? && GrantOf(a.doc, peer).value.nonce == outcome.nonce
              && b.doc.pending == a.doc.pending - {peer} && b.doc.packages == a.doc.packages
              && peer in a.doc.pending && a.doc.pending[peer].Request?
              && b.doc.members == a.doc.members[peer := a.doc.pending[peer].owner]
              && b.errors == a.errors - {peer}
            else
              && b.doc == a.doc.(pending := b.doc.pending)
              && b.doc.pending == (if outcome.AlreadyIn? then a.doc.pending - {peer} else a.doc.pending)
              && (b.group == a.group || outcome.Unrecorded?)
              && b.errors == (if outcome.Refused? then a.errors[peer := outcome.why]
                              else if outcome.Unrecorded? then a.errors else a.errors - {peer})
  {
  }

  // ---- Who is admitted -------------------------------------------------------------

  /** All that admission asks, field by field: a readable request with a signed, unexpired
      grant, its nonce unused or this device's own, its inviter a member in good standing;
      a valid package MLS takes from a user nobody disowned; and a device that is not in
      the group yet, or is in it with other keys that its newer, bound package replaces. */
  predicate Admissible(a: Admin, peer: string, env: Env) {
    && peer in a.doc.pending && a.doc.pending[peer].Request? && a.doc.pending[peer].grant.Some?
    && var g := a.doc.pending[peer].grant.value;
    && env.now <= g.expires && g.signed
    && (g.nonce !in a.doc.nonces || a.doc.nonces[g.nonce] == By(peer))
    && g.inviter in a.doc.members && g.inviter !in env.removed && !env.distrusted
    && peer in a.doc.packages && a.doc.packages[peer].Package? && env.mlsAccepts && a.group.Some?
    && (peer in a.group.value.leaves ==>
          var leaf, package := a.group.value.leaves[peer], a.doc.packages[peer];
          && leaf.key != package.key && env.bound
          && (leaf.notBefore.None? || package.notBefore > leaf.notBefore.value))
  }

  /** An approval admits exactly the admissible, and each other outcome has its cause. */
  lemma AdmitsExactlyWhen(a: Admin, me: string, peer: string, env: Env)
    ensures Approve(a, me, peer, env).1.Admitted? <==> Admissible(a, peer, env) && env.serialises
    ensures Approve(a, me, peer, env).1.Unrecorded? <==> Admissible(a, peer, env) && !env.serialises
    ensures Approve(a, me, peer, env).1.NotPending? <==> peer !in a.doc.pending
    ensures Approve(a, me, peer, env).1.AlreadyIn? <==>
            && peer in a.doc.pending && a.group.Some? && peer in a.group.value.leaves
            && (peer in a.doc.packages && a.doc.packages[peer].Package? ==>
                  a.doc.packages[peer].key == a.group.value.leaves[peer].key)
  {
  }

  /** A refusal's reason holds, and the reasons looked at before it do not. */
  lemma RefusalsHaveTheirReason(a: Admin, me: string, peer: string, env: Env)
    requires Approve(a, me, peer, env).1.Refused?
    ensures match Approve(a, me, peer, env).1.why
            case UnprovenRejoin => a.group.Some? && peer in a.group.value.leaves
            case NoKeyPackage => peer !in a.doc.packages
            case BadKeyPackage => peer in a.doc.packages && a.doc.packages[peer].BadHex?
            case Distrusted => env.distrusted && peer in a.doc.packages
            case NoGrant =>
              peer in a.doc.pending && (a.doc.pending[peer].Unreadable? || a.doc.pending[peer].grant.None?)
            case MlsFailed =>
              a.group.None? || !env.mlsAccepts || (peer in a.doc.packages && a.doc.packages[peer].NotAPackage?)
            case why =>
              && peer in a.doc.pending && a.doc.pending[peer].Request? && a.doc.pending[peer].grant.Some?
              && var g := a.doc.pending[peer].grant.value;
              && (why.Expired? <==> env.now > g.expires)
              && (why.BadGrant? <==> env.now <= g.expires && !g.signed)
              && (why.AlreadyRedeemed? ==> g.nonce in a.doc.nonces && a.doc.nonces[g.nonce] != By(peer))
              && (why.InviterRemoved? ==> g.inviter in env.removed)
              && (why.InviterNotMember? ==> g.inviter !in a.doc.members)
  {
  }

  /** The group after an admissible device's approval: one epoch on, with the published
      keys on the device's leaf and every other leaf as it was. */
  lemma AdmissionMovesTheGroup(a: Admin, me: string, peer: string, env: Env)
    ensures Admissible(a, peer, env) ==>
              && var p := a.doc.packages[peer];
              Approve(a, me, peer, env).0.group ==
              Some(Group(a.group.value.epoch + 1, a.group.value.leaves[peer := Leaf(p.key, Some(p.notBefore))]))
    ensures !Admissible(a, peer, env) ==> Approve(a, me, peer, env).0.group == a.group
  {
    AdmitsExactlyWhen(a, me, peer, env);
    AdmissionIsAllOrNothing(a, me, peer, env);
  }

  // ---- Runs ------------------------------------------------------------------------

  datatype Step =
    | Approval(peer: string, env: Env)
    /** Requests, KeyPackages and member entries change as devices and people will;
        redeemed nonces, the commit log and the group are the admin's alone. */
    | Others(pending: map<string, Pending>, packages: map<string, Published>, members: map<string, string>)

  function Do(a: Admin, me: string, s: Step): Admin {
    match s
    case Approval(peer, env) => Approve(a, me, peer, env).0
    case Others(pending, packages, members) =>
      a.(doc := a.doc.(pending := pending, packages := packages, members := members))
  }

  function OutcomeAt(a: Admin, me: string, s: Step): Outcome {
    match s
    case Approval(peer, env) => Approve(a, me, peer, env).1
    case Others(_, _, _) => NotPending
  }

  ghost predicate Run(states: seq<Admin>, me: string, steps: seq<Step>) {
    |states| == |steps| + 1 &&
    forall i :: 0 <= i < |steps| ==> states[i + 1] == Do(states[i], me, steps[i])
  }

  /** Step `i` admitted `steps[i].peer` with grant nonce `nonce`. */
  ghost predicate AdmitsAt(states: seq<Admin>, me: string, steps: seq<Step>, i: nat, nonce: string) {
    i < |steps| && i < |states| && steps[i].Approval? && OutcomeAt(states[i], me, steps[i]) == Admitted(nonce)
  }

  lemma RedemptionSticks(a: Admin, me: string, s: Step, nonce: string)
    requires nonce in a.doc.nonces
    ensures nonce in Do(a, me, s).doc.nonces && Do(a, me, s).doc.nonces[nonce] == a.doc.nonces[nonce]
  {
    if s.Approval? {
      AdmissionIsAllOrNothing(a, me, s.peer, s.env);
    }
  }

  lemma {:induction false} RedemptionLasts(states: seq<Admin>, me: string, steps: seq<Step>, i: nat, j: nat,
                                           nonce: string)
    requires Run(states, me, steps) && i <= j < |states| && nonce in states[i].doc.nonces
    ensures nonce in states[j].doc.nonces && states[j].doc.nonces[nonce] == states[i].doc.nonces[nonce]
    decreases j
  {
    hide Do, OutcomeAt;
    if i < j {
      RedemptionLasts(states, me, steps, i, j - 1, nonce);
      RedemptionSticks(states[j - 1], me, steps[j - 1], nonce);
    }
  }

  /** One invite, one device: in every run all admissions made with one nonce are of the
      same peer, readmissions with new keys included. */
  lemma OneInviteOneDevice(states: seq<Admin>, me: string, steps: seq<Step>, i: nat, j: nat, nonce: string)
    requires Run(states, me, steps) && i < j
    requires AdmitsAt(states, me, steps, i, nonce) && AdmitsAt(states, me, steps, j, nonce)
    ensures steps[i].peer == steps[j].peer
  {
    AdmissionIsAllOrNothing(states[i], me, steps[i].peer, steps[i].env);
    assert states[i + 1].doc.nonces[nonce] == By(steps[i].peer);
    RedemptionLasts(states, me, steps, i + 1, j, nonce);
  }

  /** A nonce redeemed before devices were recorded admits no one, ever. */
  lemma LegacyNonceAdmitsNoOne(states: seq<Admin>, me: string, steps: seq<Step>, i: nat, nonce: string)
    requires Run(states, me, steps) && nonce in states[0].doc.nonces && states[0].doc.nonces[nonce].Legacy?
    ensures !AdmitsAt(states, me, steps, i, nonce)
  {
    if AdmitsAt(states, me, steps, i, nonce) {
      RedemptionLasts(states, me, steps, 0, i, nonce);
      AdmissionIsAllOrNothing(states[i], me, steps[i].peer, steps[i].env);
    }
  }

  /** Step `i` approved an admissible `peer`, and its leaf then held `key`. */
  ghost predicate EarnedAt(states: seq<Admin>, steps: seq<Step>, i: nat, peer: string, key: string) {
    && i < |steps| && i < |states| && steps[i].Approval? && steps[i].peer == peer
    && Admissible(states[i], peer, steps[i].env) && states[i].doc.packages[peer].key == key
  }

  /** Over every run, each key in the group that was not there at the start was put there
      by approving a device that met every condition at that moment. */
  lemma {:induction false} EveryLeafIsEarned(states: seq<Admin>, me: string, steps: seq<Step>, j: nat, peer: string)
    requires Run(states, me, steps) && j < |states|
    requires states[j].group.Some? && peer in states[j].group.value.leaves
    ensures (states[0].group.Some? && peer in states[0].group.value.leaves
             && states[0].group.value.leaves[peer] == states[j].group.value.leaves[peer])
         || exists i: nat :: i < j && EarnedAt(states, steps, i, peer, states[j].group.value.leaves[peer].key)
  {
    hide Approve, Admissible;
    if j > 0 {
      var before, s := states[j - 1], steps[j - 1];
      if s.Approval? {
        AdmissionMovesTheGroup(before, me, s.peer, s.env);
        if s.peer == peer && Admissible(before, peer, s.env) {
          assert EarnedAt(states, steps, j - 1, peer, before.doc.packages[peer].key) by {
            AdmissibleHasPackage(before, peer, s.env);
          }
          return;
        }
        if Admissible(before, s.peer, s.env) {
          AdmissibleHasPackage(before, s.peer, s.env);
        }
      }
      EveryLeafIsEarned(states, me, steps, j - 1, peer);
    }
  }

  lemma AdmissibleHasPackage(a: Admin, peer: string, env: Env)
    requires Admissible(a, peer, env)
    ensures peer in a.doc.packages && a.doc.packages[peer].Package? && a.group.Some?
  {
  }

  /** Every admission of a run met every condition. */
  lemma AdmissionsMetTheConditions(states: seq<Admin>, me: string, steps: seq<Step>, i: nat, nonce: string)
    requires Run(states, me, steps) && AdmitsAt(states, me, steps, i, nonce)
    ensures Admissible(states[i], steps[i].peer, steps[i].env) && steps[i].env.serialises
    ensures states[i].doc.pending[steps[i].peer].grant.value.nonce == nonce
  {
    AdmitsExactlyWhen(states[i], me, steps[i].peer, steps[i].env);
    AdmissionIsAllOrNothing(states[i], me, steps[i].peer, steps[i].env);
  }

  /** Approving a device again, its package and standing unchanged, finds it in already. */
  lemma ReapprovalFindsItIn(a: Admin, me: string, peer: string, env: Env, request: Pending, again: Env)
    requires Admissible(a, peer, env) && env.serialises
    ensures var b := Approve(a, me, peer, env).0;
            Approve(b.(doc := b.doc.(pending := b.doc.pending[peer := request])), me, peer, again).1 == AlreadyIn
  {
    AdmissionMovesTheGroup(a, me, peer, env);
    AdmitsExactlyWhen(a, me, peer, env);
    AdmissionIsAllOrNothing(a, me, peer, env);
    var b := Approve(a, me, peer, env).0;
    AdmitsExactlyWhen(b.(doc := b.doc.(pending := b.doc.pending[peer := request])), me, peer, again);
  }

  // ---- The commit log --------------------------------------------------------------

  /** Entries lead from one epoch to the next, up to the group's own. */
  ghost predicate InStep(commits: seq<Commit>, epoch: nat) {
    forall k :: 0 <= k < |commits| ==>
      commits[k].epoch == epoch - (|commits| - 1 - k) && commits[k].base == commits[k].epoch - 1
  }

  ghost predicate LogInStep(a: Admin) {
    a.group.Some? && |a.doc.commits| <= a.group.value.epoch && InStep(a.doc.commits, a.group.value.epoch)
  }

  /** An approval whose entries serialise keeps the log in step with the group. */
  lemma RecordedApprovalKeepsStep(a: Admin, me: string, peer: string, env: Env)
    requires LogInStep(a) && !Approve(a, me, peer, env).1.Unrecorded?
    ensures LogInStep(Approve(a, me, peer, env).0)
  {
    var (b, outcome) := Approve(a, me, peer, env);
    AdmissionIsAllOrNothing(a, me, peer, env);
    if outcome.Admitted? {
      InStepPush(a.doc.commits, a.group.value.epoch, me);
    }
  }

  lemma InStepPush(commits: seq<Commit>, epoch: nat, me: string)
    requires InStep(commits, epoch)
    ensures InStep(commits + [Commit(epoch + 1, me, epoch)], epoch + 1)
  {
    var n, more := |commits|, commits + [Commit(epoch + 1, me, epoch)];
    forall k | 0 <= k < n + 1 ensures more[k].epoch == (epoch + 1) - (n - k) && more[k].base == more[k].epoch - 1 {
      assert k < n ==> more[k] == commits[k];
    }
  }

  /** The log falls out of step exactly when the group moves, the entries do not serialise,
      and members already follow a log. */
  lemma LogStaysInStepExactlyWhen(a: Admin, me: string, peer: string, env: Env)
    requires LogInStep(a)
    ensures LogInStep(Approve(a, me, peer, env).0) <==>
            env.serialises || !Admissible(a, peer, env) || a.doc.commits == []
  {
    var (b, outcome) := Approve(a, me, peer, env);
    AdmissionIsAllOrNothing(a, me, peer, env);
    AdmitsExactlyWhen(a, me, peer, env);
    AdmissionMovesTheGroup(a, me, peer, env);
    if !outcome.Unrecorded? {
      RecordedApprovalKeepsStep(a, me, peer, env);
    } else if a.doc.commits != [] {
      var n := |a.doc.commits|;
      assert b.doc.commits[n - 1].epoch == a.group.value.epoch != b.group.value.epoch;
    }
  }

  /** The guard's own case: entries that did not serialise would strand the members. */
  lemma UnserialisedCommitStrandsMembers(me: string, peer: string)
    ensures exists a: Admin, env: Env :: LogInStep(a) && !env.serialises && !LogInStep(Approve(a, me, peer, env).0)
  {
    var doc := Control(map[peer := Request("owner", Some(Grant("inviter", "nonce", 1, true)))],
                       map[peer := Package("key", 0)], map[], [Commit(1, me, 0)], map["inviter" := "owner"], map[]);
    var a := Admin(doc, Some(Group(1, map[])), map[]);
    var env := Env(0, true, false, {}, true, false);
    assert Admissible(a, peer, env);
    LogStaysInStepExactlyWhen(a, me, peer, env);
  }

  /** Every approval of the run met entries that serialise, as the code's always do. */
  ghost predicate AllSerialise(steps: seq<Step>) {
    forall i :: 0 <= i < |steps| && steps[i].Approval? ==> steps[i].env.serialises
  }

  /** From a group and a log in step, a new circle's empty one included, every run keeps the
      log increasing one epoch at a time up to the group's own. */
  lemma {:induction false} LogStaysInStep(states: seq<Admin>, me: string, steps: seq<Step>, j: nat)
    requires Run(states, me, steps) && AllSerialise(steps) && j < |states| && LogInStep(states[0])
    ensures LogInStep(states[j]) && states[0].doc.commits <= states[j].doc.commits
  {
    if j > 0 {
      LogStaysInStep(states, me, steps, j - 1);
      var s := steps[j - 1];
      if s.Approval? {
        RecordedApprovalKeepsStep(states[j - 1], me, s.peer, s.env);
        AdmissionIsAllOrNothing(states[j - 1], me, s.peer, s.env);
      }
    }
  }

  // ---- A member following the log --------------------------------------------------

  /** What `apply_commit_entry` makes of a member's epoch. Processing a commit succeeds
      only in the epoch it was made in (section 12.4.2 of RFC 9420). */
  function Applied(me: string, epoch: Option<nat>, entry: Commit): Option<nat> {
    if entry.sender == me || epoch.None? || entry.epoch <= epoch.value then epoch
    else if entry.base == epoch.value then Some(entry.base + 1)
    else epoch
  }

  class Member {
    const peerId: string
    var epoch: Option<nat>

    constructor (peerId: string, epoch: Option<nat>)
      ensures this.peerId == peerId && this.epoch == epoch
    {
      this.peerId, this.epoch := peerId, epoch;
    }

    method ApplyCommitEntry(entry: Commit)
      modifies this
      ensures epoch == Applied(peerId, old(epoch), entry)
    {
      if entry.sender == peerId {
        return;
      }
      if epoch.None? {
        return;
      }
      if entry.epoch <= epoch.value {
        return;
      }
      var processed := entry.base == epoch.value;
      if processed {
        epoch := Some(entry.base + 1);
      }
    }

    /** Everything peers hand over, in the order it arrives. */
    method Follow(entries: seq<Commit>)
      modifies this
      ensures epoch == Followed(peerId, old(epoch), entries)
    {
      for i := 0 to |entries|
        invariant Followed(peerId, epoch, entries[i..]) == Followed(peerId, old(epoch), entries)
      {
        assert entries[i..][1..] == entries[i + 1..];
        ApplyCommitEntry(entries[i]);
      }
    }
  }

  function Followed(me: string, epoch: Option<nat>, entries: seq<Commit>): Option<nat>
    decreases |entries|
  {
    if entries == [] then epoch else Followed(me, Applied(me, epoch, entries[0]), entries[1..])
  }

  /** `small` is what is left of `big` after deleting some of its entries. */
  predicate Subsequence(small: seq<Commit>, big: seq<Commit>)
    decreases |big|
  {
    if small == [] then true
    else if big == [] then false
    else (small[0] == big[0] && Subsequence(small[1..], big[1..])) || Subsequence(small, big[1..])
  }

  lemma {:induction false} SubsequenceTail(small: seq<Commit>, big: seq<Commit>)
    requires small != [] && Subsequence(small, big)
    ensures Subsequence(small[1..], big)
    decreases |big|
  {
    if small[0] == big[0] && Subsequence(small[1..], big[1..]) {
      if |small| > 1 {
        assert Subsequence(small[1..], big[1..]);
      }
    } else {
      SubsequenceTail(small, big[1..]);
    }
  }

  /** A member joined at `from`, anywhere along the log, and handed entries of the log in
      any order, with any repeats, in which the rest of the log occurs in order, ends at
      the log's last epoch. */
  lemma {:induction false} CatchUp(me: string, log: seq<Commit>, last: nat, from: nat, entries: seq<Commit>)
    requires InStep(log, last) && |log| <= last && last - |log| <= from <= last
    requires forall c :: c in log ==> c.sender != me
    requires forall c :: c in entries ==> c in log
    requires Subsequence(log[|log| - (last - from)..], entries)
    ensures Followed(me, Some(from), entries) == Some(last)
    decreases |entries|
  {
    var rest := log[|log| - (last - from)..];
    if entries == [] {
      assert rest == [];
    } else {
      var d := entries[0];
      assert d in entries && d in log;
      var k :| 0 <= k < |log| && log[k] == d;
      assert entries == [d] + entries[1..];
      if d.epoch == from + 1 {
        assert rest[0] == d;
        assert rest[1..] == log[|log| - (last - (from + 1))..];
        if !Subsequence(rest[1..], entries[1..]) {
          SubsequenceTail(rest, entries[1..]);
        }
        CatchUp(me, log, last, from + 1, entries[1..]);
      } else {
        assert rest != [] ==> rest[0].epoch == from + 1;
        CatchUp(me, log, last, from, entries[1..]);
      }
    }
  }

  /** Whatever it is handed, a member never goes back, never skips an epoch, and never
      passes the log's end. */
  lemma NeverSkips(me: string, log: seq<Commit>, last: nat, epoch: nat, entry: Commit)
    requires InStep(log, last) && entry in log && epoch <= last
    ensures Applied(me, Some(epoch), entry).Some?
    ensures Applied(me, Some(epoch), entry) == Some(epoch + 1) <==> entry.sender != me && entry.base == epoch
    ensures var next := Applied(me, Some(epoch), entry).value; epoch <= next <= epoch + 1 && next <= last
  {
    var k :| 0 <= k < |log| && log[k] == entry;
  }

  /** Put together: in every run, from a new circle's empty log on, a member that joined at
      any epoch the log reaches, and was handed the log's entries with any repeats
      and reorderings around one in-order copy, ends at the admin's own epoch. */
  lemma MembersReachTheAdmin(states: seq<Admin>, me: string, steps: seq<Step>, j: nat, member: string, from: nat,
                             entries: seq<Commit>)
    requires Run(states, me, steps) && AllSerialise(steps) && j < |states| && LogInStep(states[0])
    requires states[j].group.Some?
    requires var log, last := states[j].doc.commits, states[j].group.value.epoch;
             && last - |log| <= from <= last
             && (forall c :: c in log ==> c.sender != member) && (forall c :: c in entries ==> c in log)
             && Subsequence(log[|log| - (last - from)..], entries)
    ensures Followed(member, Some(from), entries) == Some(states[j].group.value.epoch)
  {
    LogStaysInStep(states, me, steps, j);
    CatchUp(member, states[j].doc.commits, states[j].group.value.epoch, from, entries);
  }
}
