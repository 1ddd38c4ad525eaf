# enoxian, verified

A Dafny model of the parts of enoxian that many devices have to agree on, or that must stay
correct while several things happen at once, with proofs of what they promise. Each module
follows one source file, or one self-contained kernel of it:

| module | models |
|---|---|
| `WorkspaceEvents`, `CurrentSnapshots`, `EventStores`, `EventRuns` | the replicated event log: order, frontier and fold; what the fold leaves; the store; runs of any number of replicas |
| `Membership` | signed generation-numbered membership records, and runs of writes and relays |
| `Admission`, `Rejoin`, `Redials` | automatic approval and commit catch-up at the admin and member; removal and readmission at a device; redial backoff |
| `Octets`, `Wire`, `Utf8Texts`, `Invite`, `InviteLayouts`, `LegacyInvite`, `Base64`, `InviteUri` | the invite formats v1, v2 and v3, from fields to bytes to link, and the reader back |
| `Deletions` | tombstones over a folder tree and their reconciliation with the disk |
| `RateLimit`, `PairMailbox` | the request limiter and the pairing mailboxes behind it |
| `AcpSession`, `AsciiJson`, `JsonValues`, `WorkspacePaths` | the agent session's reader and exchange, its ASCII JSON escaping, and its path confinement |
| `Attestation`, `Pairing` | device attestation chains and signed messages; pairing codes |
| `Ordering`, `Text`, `Wrappers` | sorting, numerals and separators, `Option` and `Result` |

Code that changes state is a class or a loop here too, and each such method is proved equal to
a function of the old state; what that function does is told again in terms of the fields
alone, runs are sequences of those functions, and the theorems are about every run. Signatures, hashes, the MLS group, the clock, random draws, UUIDs and the
network are parameters: a signature is whatever a `verify` predicate accepts, the MLS group is
an epoch counter that a commit moves from the preceding epoch only (section 12.4.2 of RFC
9420), and a clock reading or a UUID is an argument of the operation that would take it.

Where the code does less than its own documentation says, the model follows the code, gives
an input that shows it, and proves the exact condition:

* *Status precedence.* The greatest (rank, lamport, peer, id) claim does not always show: one
  ordered before the proposal's creation is recorded but lost (`EarlyDecisionIsLost`,
  `PrecedenceHoldsExactlyWhen`).
* *Reconciling tombstones.* Which files survive does not depend on the order of the visit,
  but which tombstone entries remain does, exactly when one covering tombstone is older than
  the file and another is not (`OrderCanMatter`, `TombstoneIsOrderIndependentExactlyWhen`).
  The two ancestor walks disagree exactly when a folder above a path has an entry and no
  covering entry is readable (`WalksDisagree`, `WalksAgreeExactlyWhen`). An entry filed under
  a key other than its path parts `reconcile` from `covering_ts` (`MisfiledEntryRemoves`,
  `SurvivalMatchesCoveringTsExactlyWhen`).
* *A fresh membership record* decides at its writer exactly when the generation before it is
  below the 64-bit maximum (`WriteAtTheTopIsLost`, `FreshWriteDecidesExactlyWhen`).
* *One admission per readmission* is enough when the device takes it after the readmission
  record; taken before, the record's arrival undoes it (`OneAdmissionMayNotDo`,
  `StaysHomeExactlyWhen`).
* *Attestation chains* repeat no subject text, but compare keys by their spelling: an accepted
  chain repeats no key exactly when its texts differ by more than the case of letters
  (`RespelledKeyIsAccepted`, `AcceptedKeysDifferExactlyWhen`).
* *The limiter's* 32-bit counter wraps: twice the budget bounds every interval exactly for
  runs of fewer than 2^32 + max requests around it (`BurstGrants`, `BoundHoldsExactlyWhen`).

Two more limits follow from the design. v2 and v3 invites are refused when cut anywhere; v1
invites are not, because every shorter v1 layout was once minted (`EveryGenerationReads`). The
approval path guards against log entries that do not serialise after the group has moved;
both entries hold only strings, numbers and dates, so the guard's case does not arise, and the
theorems about whole runs take entries to serialise (`LogStaysInStepExactlyWhen`).

## Model

| member | source | states |
|---|---|---|
| WorkspaceEvents.EventOrder | src/workspace_event.rs:393-400 | `order_key` is a strict order, total on any events with unique ids |
| WorkspaceEvents.Frontier | src/workspace_event.rs:402-408 | the frontier is the sorted set of ids that no listed event names as a parent |
| WorkspaceEvents.Materialize | src/workspace_event.rs:410-522 | the sorting and folding loop computes the fold of the sorted log, with the frontier of the set |
| WorkspaceEvents.MaterializationConverges | src/workspace_event.rs:393-522 | the same events read in any order materialise to the same workspace |
| WorkspaceEvents.StatusPrecedence | src/workspace_event.rs:410-522 | a created proposal shows the status of its greatest-key claim, unless that claim precedes the creation, when it shows the creation's own; its base, result and sorted union of later conflict paths |
| WorkspaceEvents.PrecedenceHoldsExactlyWhen | src/workspace_event.rs:410-522 | the greatest claim's status shows if and only if it does not precede the creation or agrees with it anyway |
| WorkspaceEvents.WinningKeyOnlyGrows | src/workspace_event.rs:410-522 | learning more events never lowers a proposal's winning key, wherever its creation lies |
| WorkspaceEvents.PrecedenceIsMonotone | src/workspace_event.rs:410-522 | with creation first, learning more events never lowers the rank of the status shown |
| WorkspaceEvents.LosingDecisionChangesNothing | src/workspace_event.rs:410-522 | a decision that does not beat an earlier claim leaves the whole fold as it was, current snapshot included |
| WorkspaceEvents.GreatestExists | src/workspace_event.rs:410-522 | a proposal with any claim has a greatest one, and its key is the one the fold keeps |
| CurrentSnapshots.CurrentIsLastMove | src/workspace_event.rs:410-522 | the current snapshot is the one named by the last event, in log order, that moves it: a recorded snapshot, a merge, a decision outweighing every earlier claim on its proposal, or an accepted or synced creation whose status shows; none if no event does |
| CurrentSnapshots.FoundExactlyWhen | src/workspace_event.rs:444-460 | a creation finds its proposal exactly when an earlier event created it, with the status those events show |
| CurrentSnapshots.KeysWeighClaims | src/workspace_event.rs:415-424 | one status claim beats another exactly when it is stronger, a revert beating a rejection, a rejection an acceptance, that a conflict and that a pending one, or as strong and later by Lamport time, peer and id |
| CurrentSnapshots.LogOrderExactlyWhen | src/workspace_event.rs:393-400 | two events are ordered by the first of Lamport time, wall clock, peer and id in which they differ |
| CurrentSnapshots.RestIsRead | src/workspace_event.rs:410-522 | merges are listed in log order, a fork has the base its last event gave it, and the proposals are those some event creates |
| EventStores.EventStore.List | src/workspace_event.rs:135-150 | reading the files in directory order yields the sorted listing of those that validate |
| EventStores.ListingHoldsTheValid | src/workspace_event.rs:135-150 | the listing holds exactly the stored events that validate, in log order |
| EventStores.ValidExactlyWhen | src/workspace_event.rs:279-391 | an event is let in if and only if its schema and circle are this store's, every id, snapshot and path it names is well-formed, and it is not its own parent |
| EventStores.EventStore.Materialize | src/workspace_event.rs:219-221 | the workspace of the events that validate |
| EventStores.EventStore.Append | src/workspace_event.rs:198-217 | an event is validated, stored once, answered `false` on an identical replay, and refused under a taken id; nothing else changes |
| EventStores.EventStore.AppendLocal | src/workspace_event.rs:160-187 | the new event carries the frontier as parents and one more than the greatest Lamport time, with the id, clock, peer, device and kind given, and is all that is stored |
| EventStores.EventStore.Backfill | src/workspace_event.rs:237-277 | appends exactly the snapshot and creation pair of each record unrepresented at the start, oldest first, and leaves every record represented |
| EventStores.EventStore.AppendRecord | src/workspace_event.rs:255-274 | a record gives a snapshot event and a creation event with its own base, result, paths and status, and, where nothing claimed its proposal before, then materialises to just those |
| EventStores.BackfillGoesInOrder | src/workspace_event.rs:250-276 | a backfill of records one after another is their backfills one after another |
| EventStores.BackfillOfOne | src/workspace_event.rs:250-276 | a record not yet represented is backfilled by its snapshot and then its creation, any other by nothing |
| EventStores.OldestFirstKeeps | src/workspace_event.rs:252-254 | the records are taken in exactly the reverse of the order they are listed in |
| EventStores.BackfillIsIdempotent | src/workspace_event.rs:237-277 | a second backfill over the same records appends nothing |
| EventStores.ReplaysChangeNothing | src/workspace_event.rs:198-217 | after any appends, replaying any of them in any order and number changes nothing, each valid one answered `false` |
| EventStores.AppendAllIsUnion | src/workspace_event.rs:198-217 | after any sequence of appends the store holds the union of what it held and the valid events appended |
| EventStores.StoresConverge | src/workspace_event.rs:198-217 | replicas handed the same events, in any order and with any replays, hold equal stores and materialise equally |
| EventStores.AppendsCommuteExactlyWhen | src/workspace_event.rs:198-217 | two valid events commute if and only if they are not different events under one id |
| EventRuns.LocalEventIsStamped | src/workspace_event.rs:160-187 | a local event's Lamport time is one more than its greatest parent's, 1 without parents |
| EventRuns.InvKept | src/workspace_event.rs:160-217 | one local append or delivery keeps the causality invariant and loses no event |
| EventRuns.RunInv | src/workspace_event.rs:160-217 | the causality invariant holds at every moment of every run, from empty stores on |
| EventRuns.CausalityHoldsInEveryRun | src/workspace_event.rs:160-217 | in every run, at every moment and replica, each stored event is stamped exactly one above its greatest parent and no higher than the number of events made |
| EventRuns.StoresGrow | src/workspace_event.rs:198-217 | along a run a store never loses or changes an event |
| EventRuns.ReplicasConverge | src/workspace_event.rs:198-217 | in every run, replicas that have heard of the same ids hold equal stores and materialise equally |
| EventRuns.NoCycles | src/workspace_event.rs:160-187 | at no moment of any run does the parent graph have a cycle |
| EventRuns.AncestorsSortFirst | src/workspace_event.rs:393-400 | in every run a listing puts every event after all of its ancestors |
| EventRuns.LocalAppendIsSoleHead | src/workspace_event.rs:160-187 | in every run, right after a local append the frontier is exactly the new id |
| EventRuns.EveryEventReachesAHead | src/workspace_event.rs:402-408 | in every run, from every stored event a chain of stored children leads to a frontier event |
| EventRuns.CreationOutrunsDecision | src/workspace_event.rs:410-522 | in every run, a proposal created at a replica already holding its greatest claim shows its initial status there |
| EventRuns.EarlyDecisionIsLost | src/workspace_event.rs:160-522 | such a run exists: a revert is recorded, delivered, and the creation made elsewhere; the revert holds the greatest key and the proposal shows as pending |
| Membership.KeyInjective | src/membership.rs:72-74 | the file key determines peer, generation and standing, whatever characters the peer id holds |
| Membership.MessageInjective | src/membership.rs:64-69 | with circle ids that hold no colon, as UUIDs do not, the signed message determines circle, peer, standing and generation |
| Membership.ControlDoc.Records | src/membership.rs:105-125 | the records scanned for a peer are the authentic ones filed under their own key |
| Membership.ControlDoc.Decide | src/membership.rs:96-102 | the loop finds the greatest (generation, out) pair |
| Membership.ControlDoc.Removed | src/membership.rs:140-153 | removed means the deciding record says out, or there is none and a legacy tombstone exists |
| Membership.ControlDoc.Write | src/membership.rs:173-218 | a write files one record at the next generation, with the signature of its own text that verifies, under its own key, or changes nothing when signing fails or the key is not the admin's |
| Membership.ControlDoc.Relay | src/membership.rs:253-266 | relaying adds the authentic, correctly filed records under keys not yet held |
| Membership.RemovedExactlyWhen | src/membership.rs:77-153 | a peer is removed if and only if the greatest generation the admin signed for it, under the text and key of that record, was signed as a removal, or nothing was signed for it and a tombstone names it |
| Membership.DecidingIsSigned | src/membership.rs:77-136 | what decides for a peer is the greatest pair signed for it, a removal before a readmission, and nothing unsigned |
| Membership.ReadmittedExactlyWhen | src/membership.rs:222-232 | a readmission stands if and only if it is signed, nothing signed is newer, and no removal is as new |
| Membership.NextGenExactlyWhen | src/membership.rs:156-168 | the next generation is one above the greatest signed for the peer, 1 when none is, in 64 bits |
| Membership.RelayFilesExactly | src/membership.rs:253-266 | a relay keeps every key held and otherwise files exactly the keys some relayed entry is signed under |
| Membership.StandingIsByHeldKeys | src/membership.rs:105-184 | standing, removal, readmission and the next generation depend only on which keys hold authentic records filed under them, whatever else the store contains |
| Membership.FreshWriteDecidesExactlyWhen | src/membership.rs:156-168 | a fresh record decides at its writer if and only if the generation before it is below the 64-bit maximum |
| Membership.WriteAtTheTopIsLost | src/membership.rs:156-168 | over a readmission at the last 64-bit generation a removal wraps to 0 and does not decide |
| Membership.TiesResolveOut | src/membership.rs:96-102 | at equal generation, out wins |
| Membership.LegacyMattersOnlyUnsigned | src/membership.rs:140-153 | a legacy tombstone decides exactly for the peers without a valid record |
| Membership.RelayIsJoin | src/membership.rs:253-266 | relaying leaves as deciding record the greater of the receiver's own and the best authentic one relayed |
| Membership.SwappedReplicasAgree | src/membership.rs:253-266 | two replicas that have swapped snapshots agree on every peer |
| Membership.DecidingNeverDecreases | src/membership.rs:96-266 | over every run of writes and relays, at every replica, the deciding pair of every peer only moves up |
| Admission.AppState.AutoApprove | src/lifecycle.rs:1026-1241 | one automatic approval, every early exit included, takes the admin's whole state to the specified next one |
| Admission.AdmissionIsAllOrNothing | src/lifecycle.rs:1142-1227 | an admission writes welcome, commit, member entry, pending removal and nonce together, moves the group one epoch and does nothing else; any other outcome writes none of them, and each leaves its reason |
| Admission.AdmitsExactlyWhen | src/lifecycle.rs:898-1241 | an approval admits if and only if the peer is pending with an unexpired, signed grant whose nonce is unused or its own and whose inviter is a member not removed, its user is not disowned, its package is valid and accepted by MLS, the device is absent or in with other keys its bound, newer package replaces, and the entries serialise; likewise every other outcome but a refusal |
| Admission.RefusalsHaveTheirReason | src/lifecycle.rs:1060-1160 | a refusal is for a reason that holds |
| Admission.AdmissionMovesTheGroup | src/lifecycle.rs:1142-1160 | the group moves exactly for an admissible device, one epoch on, its leaf then holding the published key and every other leaf as it was |
| Admission.AdmissionsMetTheConditions | src/lifecycle.rs:898-1241 | in every run every admission met all of those conditions |
| Admission.EveryLeafIsEarned | src/lifecycle.rs:898-1241 | in every run each key in the group that was not there at the start was put there by approving a device that met all of them at that moment |
| Admission.ReapprovalFindsItIn | src/lifecycle.rs:1050-1080 | approving a device again with the package it was admitted with finds it in already |
| Admission.OneInviteOneDevice | src/lifecycle.rs:928-963 | in every run all admissions with one nonce are of the same peer |
| Admission.LegacyNonceAdmitsNoOne | src/lifecycle.rs:890-963 | a nonce redeemed without a device on record never admits anyone |
| Admission.RecordedApprovalKeepsStep | src/lifecycle.rs:1142-1227 | an approval whose entries were recorded keeps the log in step with the group |
| Admission.LogStaysInStepExactlyWhen | src/lifecycle.rs:1142-1227 | the log stays in step if and only if the entries serialise, or the device is not admissible, or the log is still empty |
| Admission.UnserialisedCommitStrandsMembers | src/lifecycle.rs:1183-1191 | the case the serialisation guard leaves: a group that moved without its commit |
| Admission.LogStaysInStep | src/lifecycle.rs:1142-1227 | over every run, from a new circle's empty log on, the log grows by consecutive epochs and ends at the group's |
| Admission.Member.ApplyCommitEntry | src/lifecycle.rs:1476-1524 | an entry is skipped when its own, old, or ahead of the group, and otherwise moves the group to its epoch |
| Admission.Member.Follow | src/lifecycle.rs:1476-1524 | feeding entries one after another moves the group as the specification does |
| Admission.NeverSkips | src/lifecycle.rs:1476-1524 | whatever entry it is handed, a member moves by at most one epoch, forwards, not past the log, and exactly for an entry of another made in its own epoch |
| Admission.CatchUp | src/lifecycle.rs:1476-1524 | a member at any logged epoch, handed entries in which the rest of the log occurs in order among any repeats and replays, ends at the log's last epoch |
| Admission.MembersReachTheAdmin | src/lifecycle.rs:1142-1524 | over every run, every such member ends at the admin's own epoch |
| Rejoin.DeviceState.SettleOwnStanding | src/lifecycle.rs:1443-1470 | settling takes the device's whole state to the specified next one |
| Rejoin.DeviceState.ConsumeWelcome | src/lifecycle.rs:1246-1324 | a welcome already handled is ignored, one for lost keys rotates them, and one that joins replaces no group, an inactive one or an older one |
| Rejoin.DeviceState.ReplaceIdentity | src/lifecycle.rs:1331-1376 | a new identity is published, with the stored join request filed beside it |
| Rejoin.DeviceState.RecordAdmission | src/lifecycle.rs:1407-1429 | an admission is recorded under the latest readmission's generation |
| Rejoin.WelcomeReplacesExactlyWhen | src/lifecycle.rs:1246-1324 | a welcome not handled before replaces the group if and only if it joins and there is no group, an inactive one or a strictly older one, and the admission is then noted under the readmission held |
| Rejoin.HandledChangesNothing | src/lifecycle.rs:1266-1271 | a welcome handled before changes nothing |
| Rejoin.KeysChangeExactlyWhen | src/lifecycle.rs:1300-1318 | the device's keys are replaced if and only if, without a group, it meets a welcome for keys it lacks that it has not replaced them over yet; its request is then filed again |
| Rejoin.EpochNeverFalls | src/lifecycle.rs:1246-1524 | in every run a device keeps an active group until a commit puts it out or it settles a removal or a newer readmission, and until then its epoch never falls |
| Rejoin.SettledByFields | src/lifecycle.rs:1443-1470 | settling drops the group of a device that is out or back by a newer record, files the stored request of the latter, and changes nothing else |
| Rejoin.SettlingIsIdempotent | src/lifecycle.rs:1443-1470 | settling twice is settling once |
| Rejoin.SettlingActsExactlyWhen | src/lifecycle.rs:1443-1470 | settling changes a device if and only if it is removed, or readmitted since its admission, with something to drop or to file |
| Rejoin.RemovalDropsAndAsksNothing | src/lifecycle.rs:1443-1470 | a removal drops the group and files no request |
| Rejoin.ReadmissionAsksAgain | src/lifecycle.rs:1443-1470 | a newer readmission drops the group and leaves the stored request pending |
| Rejoin.AdmissionBringsHomeExactlyWhen | src/lifecycle.rs:1246-1429 | a welcome that takes effect brings the device home if and only if its latest record is not a removal |
| Rejoin.WordKeepsHomeExactlyWhen | src/lifecycle.rs:1394-1404 | a record leaves a device at home if and only if it is neither a removal nor a readmission newer than the admission |
| Rejoin.StaysHomeExactlyWhen | src/lifecycle.rs:1378-1470 | through any run a device at home stays there at every moment if and only if no removal and no newer readmission arrives |
| Rejoin.RunsSettleExactlyWhen | src/lifecycle.rs:1246-1470 | in any run, from an effective welcome on the device is home at every moment and settling leaves it alone, if and only if it was not removed by then and nothing newer arrives later |
| Rejoin.LateRecordUndoesAdmission | src/lifecycle.rs:1394-1470 | a readmission record arriving after the admission it allowed makes the next settling drop the fresh group and file the request again |
| Rejoin.OneAdmissionMayNotDo | src/lifecycle.rs:1246-1470 | a run in which one admission for one readmission ends without a group, and only a second brings the device home |
| Rejoin.WaitsUntilAnswered | src/lifecycle.rs:1443-1470 | once settled, a readmitted device has its request pending through any run until it is removed, decided on, or let in |
| Redials.PeerRedials.Allow | src/lifecycle.rs:1642-1672 | an attempt is granted at its deadline, and doubles the wait up to eight minutes |
| Redials.PeerRedials.Disconnect | src/lifecycle.rs:1663-1671 | the end of a connection forgets it, and its peer's budget if it lasted a minute or more |
| Redials.BudgetTracksGrants | src/lifecycle.rs:1642-1672 | in every run the stored failures and deadline are the grants since the last connection of a minute or more, and those keep their gaps |
| Redials.GrantedExactlyWhen | src/lifecycle.rs:1649-1657 | in every run an attempt is granted if and only if none was since the last long connection, or the last such grant is 30 s back, doubled for each grant before it up to four times |
| Redials.LongConnectionEarnsFreshBudget | src/lifecycle.rs:1659-1671 | the end of a connection of 60 s or more earns a fresh budget, the next attempt being granted at once; a shorter one changes no budget |
| Redials.ConnectionsAreTracked | src/lifecycle.rs:1659-1671 | a connection is dated from when it came up, whatever further ones open beside it, until it ends |
| Redials.RedialSchedule | src/lifecycle.rs:17-20 | the n-th grant comes at least 30(2^n - 1) s after the first for n up to 5, and 930 + 480(n - 5) s beyond |
| Redials.EightMinutesAlwaysSuffice | src/lifecycle.rs:1642-1672 | asking 480 s after the last grant always succeeds |
| Redials.OtherPeersHaveNoEffect | src/lifecycle.rs:1642-1672 | a peer's grants are those of its own events alone |
| Wire.PutLen | src/invite.rs:438-448 | the loop appends the LEB128 form of a length |
| Wire.LenReads | src/invite.rs:625-642 | five groups read back every length below 2^35, whatever follows |
| Wire.LenSpells | src/invite.rs:438-448 | a length is written as the fewest seven-bit groups that spell it, all but the last marked |
| Wire.LenReadsExactlyWhen | src/invite.rs:625-642 | a length reads if and only if one stands at the front in at most five groups, and what they spell is what is read |
| Wire.Reader.TakeN | src/invite.rs:607-618 | a bounds-checked read moves the cursor past exactly what it returns |
| Wire.Reader.ReadLen | src/invite.rs:625-642 | the loop reads a length of at most five groups, or names why not |
| Wire.Reader.ReadText | src/invite.rs:645-653 | a run is text exactly when it is UTF-8 |
| Utf8Texts.TextExactlyWhen | src/invite.rs:650-653 | bytes are text if and only if they are the UTF-8 of some characters (section 3 of RFC 3629) |
| Octets.HexInverse | src/invite.rs:560-580 | `hex::decode` inverts `hex::encode` on all bytes |
| Octets.HexReadsExactlyWhen | src/identity.rs:474-484 | text is hex if and only if it is digits, evenly many, and each pair gives the byte it spells |
| Octets.DigitValue | src/identity.rs:474-484 | a hex digit in either case has the value of its place among the sixteen |
| Octets.SameBytesExactlyWhen | src/identity.rs:474-484 | two hex texts decode alike if and only if they differ at most in the case of letters |
| Invite.FlagsRead | src/invite.rs:505-529 | each flag bit reads back as the condition it was set on, an address winning over its default |
| Invite.EncodeWith | src/invite.rs:493-595 | an encodable payload becomes head, fields, grant and relays in that order; any other gives the first reason the encoder meets |
| InviteLayouts.CarriedExactlyWhen | src/invite.rs:493-595 | a payload is carried if and only if its circle id is a UUID, its expiry fits 32 bits, its grant's fields are hex and, in v3, its relays are at most 255 |
| InviteLayouts.EncodedIsLaidOut | src/invite.rs:493-595 | an encoding is flags, in v3 the second flags, 16 bytes of id, 32 of key, 4 of expiry, name, peer, admin key, relay, rendezvous, grant and in v3 relays, each with the tags and numbers of the format |
| Invite.PutAddr | src/invite.rs:463-474 | an address is a tag and its binary form, or its text when it does not parse |
| Invite.PutGrant | src/invite.rs:560-581 | a grant is its raw key, tagged nonce and raw signature, or the field that is not hex |
| Invite.ReadAddr | src/invite.rs:655-666 | an address field is read by its tag, and unknown tags are refused |
| Invite.Decode | src/invite.rs:686-786 | the cursor reads the payload the bytes spell, or the first reason they spell none |
| InviteLayouts.TooShortExactlyWhen | src/invite.rs:691-698 | bytes are refused as too short if and only if they are fewer than 53, in v3 54 |
| InviteLayouts.AcceptedIsAsFlagged | src/invite.rs:700-810 | whatever bytes are accepted, the header stands at its offsets, each field is there if and only if its flag is, a default only without an address, no grant with an empty field, and relays only in v3 |
| InviteLayouts.TagsDecide | src/invite.rs:655-750 | an address or a nonce is binary under 0, text under 1, and refused under any other tag |
| Invite.DecodeInvertsEncode | src/invite.rs:493-786 | decoding any encoding, with anything after it, gives the normal form of the payload and leaves exactly the rest |
| Invite.DecodedStable | src/invite.rs:686-786 | more bytes after a payload never change what was read |
| Invite.StrictPrefixesAreRefused | src/invite.rs:686-786 | no strict prefix of an encoding decodes |
| Invite.EncodingsDetermineThePayload | src/invite.rs:493-595 | payloads with one encoding have one normal form |
| Invite.NormalIsIdempotent | src/invite.rs:493-786 | a decoded payload is encodable and already normal |
| Base64.DecodeInvertsEncode | src/invite.rs:583-594 | base64url without padding reads back all bytes |
| Base64.DecodeIsCanonical | src/invite.rs:686-689 | text decodes only if it is the encoding of the bytes it decodes to |
| Base64.SymbolIs | src/invite.rs:583-594 | the alphabet is the URL-safe one of section 5 of RFC 4648 |
| Base64.StrictPrefixesLoseBytes | src/invite.rs:686-689 | a cut base64 text that still decodes gives strictly fewer bytes |
| InviteUri.EncodeUri | src/invite.rs:483-595 | a link is the version's scheme and the payload in base64url |
| InviteUri.DecodeUri | src/invite.rs:669-683 | the query string is dropped and the scheme chooses the decoder |
| InviteUri.SchemeDecides | src/invite.rs:669-683 | what follows each scheme is read as that version's payload |
| InviteUri.QueryIsIgnored | src/invite.rs:669-672 | only what stands before the first question mark is read |
| InviteUri.OtherLinksAreRefused | src/invite.rs:669-683 | text under none of the three schemes is refused |
| InviteUri.LinksRoundTrip | src/invite.rs:484-786 | a minted link, with or without a query string, decodes to the payload's normal form |
| InviteUri.CutLinksAreRefused | src/invite.rs:669-786 | a link cut short anywhere, in the scheme or within a base64 group, is refused |
| InviteUri.LegacyLinksRead | src/invite.rs:669-683 | a v1 link of any generation decodes to what its generation carried |
| LegacyInvite.DecodeV1 | src/invite.rs:812-960 | the offset arithmetic reads the v1 payload the bytes spell, or the first reason they spell none |
| LegacyInvite.AcceptedV1IsLaidOut | src/invite.rs:812-960 | whatever v1 bytes are accepted, id, key, time, name and peer stand at their offsets, nothing is a default and no grant has an empty field; exactly fewer than 58 bytes are too short |
| LegacyInvite.TimesAreSigned | src/invite.rs:829-830 | the time is big-endian and signed |
| LegacyInvite.ReadExt | src/invite.rs:858-871 | an extension is read if and only if it is not empty and does not overrun; otherwise it is absent and only its length is passed |
| LegacyInvite.ReadFields | src/invite.rs:913-937 | grant fields are read up to the first that is not all there |
| LegacyInvite.EveryGenerationReads | src/invite.rs:812-960 | v1 bytes with none, one, two, three or all extensions decode to exactly the fields written, empty ones absent |
| Deletions.WalkStep | src/deletions.rs:90-126 | one step of an ancestor walk loses exactly the nearest folder from what covers a path |
| Deletions.WalksAgreeExactlyWhen | src/deletions.rs:90-126 | the two ancestor walks agree if and only if some covering entry is readable whenever a folder above has an entry |
| Deletions.WalksDisagree | src/deletions.rs:90-126 | an unreadable entry on a folder counts as deleting what is in it, yet gives no time |
| Deletions.Workspace.IsDeleted | src/deletions.rs:90-108 | true exactly when the path's own entry is readable or a folder above it has any entry |
| Deletions.Workspace.CoveringTs | src/deletions.rs:112-126 | the newest readable timestamp among the entries covering the path |
| Deletions.Workspace.DocsUnder | src/deletions.rs:132-140 | exactly the documents at or beneath the path |
| Deletions.Workspace.Prune | src/deletions.rs:160-178 | removes exactly the paths that readable tombstones more than 90 days old name, and counts those tombstones |
| Deletions.Workspace.PruneEmptyParents | src/deletions.rs:257-271 | removes only folders above the path with no file beneath, and every one left above it holds something |
| Deletions.Workspace.Apply | src/deletions.rs:215-249 | one tombstone removes a file not newer than it with its document and the folders that leaves empty, spares a newer one and retires its entry, and leaves the rest of the disk alone |
| Deletions.Workspace.Reconcile | src/deletions.rs:184-208 | files and documents go exactly when some visited tombstone reaches them and is not older; a file's entry goes exactly when the first that reaches it is older, a missing path's stays; no file that goes leaves an empty folder above it; the count is of what went |
| Deletions.LeftExactlyWhen | src/deletions.rs:184-249 | what is left is a tracked file newer than every tombstone naming it or a folder above it, an untracked one newer than every one naming it, and a document whose file is left or that nothing names |
| Deletions.SurvivalIsByCoveringTs | src/deletions.rs:112-249 | with entries filed under their own paths a tracked file survives if and only if nothing covers it or it is newer than `covering_ts`, in every order |
| Deletions.SurvivalMatchesCoveringTsExactlyWhen | src/deletions.rs:112-249 | reconciling a tracked file agrees with `covering_ts` if and only if some entry not older than the file covers it by key just when one does by path |
| Deletions.MisfiledEntryRemoves | src/deletions.rs:112-249 | an entry filed under another key removes a file that `covering_ts` reports as uncovered |
| Deletions.SurvivalIsOrderIndependent | src/deletions.rs:184-208 | what goes does not depend on the order of the visit |
| Deletions.ReconcileIsIdempotent | src/deletions.rs:184-208 | reconciling again, with the tombstones left, changes no file and, with no document named like a folder, reports nothing applied |
| Deletions.TombstoneIsOrderIndependentExactlyWhen | src/deletions.rs:215-249 | whether a file's entry is retired is the same in every order if and only if its covering tombstones are all older or all not |
| Deletions.OrderCanMatter | src/deletions.rs:215-249 | a file under an older and a newer tombstone, whose entry depends on the order |
| RateLimit.Limiter.Expire | src/rate_limit.rs:61-65 | exactly the entries whose window is over are dropped |
| RateLimit.Limiter.Allow | src/rate_limit.rs:68-83 | the answer and the new table, 32-bit wrap-around included |
| RateLimit.BudgetHolds | src/rate_limit.rs:68-83 | after any run the counter is the requests charged to the window modulo 2^32, the window granted `WindowGrants` of them, and what the window before can still have granted is bounded likewise |
| RateLimit.SlidingWindowBound | src/rate_limit.rs:59-83 | in any half-open interval one window long a source is allowed at most 2 * max requests, in every interleaving, if it makes fewer than 2^32 + max from one window before it to its end |
| RateLimit.BurstGrants | src/rate_limit.rs:68-83 | of n requests at one instant exactly `WindowGrants` are allowed, so 2 * max + 1 of 2^32 + max |
| RateLimit.BoundHoldsExactlyWhen | src/rate_limit.rs:59-83 | the bound holds for all runs of at most n requests around the interval if and only if n is below 2^32 + max |
| RateLimit.TableIsBounded | src/rate_limit.rs:59-83 | the table never exceeds its cap |
| RateLimit.OthersHaveNoEffect | src/rate_limit.rs:59-83 | a source's open window is that of its own requests alone, whatever others do and whenever expiry runs, unless it was turned away for want of room |
| RateLimit.AnswersAreOwn | src/rate_limit.rs:68-83 | and so is the answer to its next request |
| PairMailbox.MailboxState.PutSlot | src/pair_mailbox.rs:157-196 | the status and the new state of a write, for every refusal |
| PairMailbox.MailboxState.GetSlot | src/pair_mailbox.rs:203-228 | the status, bytes and new state of a read |
| PairMailbox.MailboxState.Expire | src/pair_mailbox.rs:117-123 | exactly the mailboxes past their lifetime go |
| PairMailbox.TableIsFaithful | src/pair_mailbox.rs:117-228 | after every run the table agrees with the history of accepted writes |
| PairMailbox.ReadsRefineHistory | src/pair_mailbox.rs:203-228 | every admitted read returns the one accepted write to that slot in the mailbox's current lifetime, and nothing past it |
| PairMailbox.WritesAnswerExactlyWhen | src/pair_mailbox.rs:157-196 | every answer to a write follows from the history: refused in order for a bad id, slot or size or a spent budget, else accepted if and only if the slot is free in the mailbox's lifetime, or the mailbox is new and fewer than 1024 are live |
| PairMailbox.ReadsAnswerExactlyWhen | src/pair_mailbox.rs:203-228 | so does every answer to a read |
| PairMailbox.LimiterSeesCharges | src/pair_mailbox.rs:117-228 | the limiter behind the mailboxes is one of 60 requests in ten seconds over 8192 sources, charged once per well-formed request |
| PairMailbox.OneWritePerLifetime | src/pair_mailbox.rs:157-196 | two accepted writes to one slot lie in different lifetimes |
| PairMailbox.CapSparesLiveMailboxes | src/pair_mailbox.rs:157-196 | the cap never refuses a mailbox whose lifetime is running |
| PairMailbox.MailboxesAreBounded | src/pair_mailbox.rs:38-64 | at most 1024 mailboxes, none empty, no slot over 64 KiB, never more than 1024 * 3 * 64 KiB in all |
| AcpSession.Session.ReaderStep | src/agent/acp.rs:317-346 | one frame is read and routed to its queue exactly when it is short enough, valid, and has room in buffer and queue; otherwise the first bound it breaks is the error |
| AcpSession.Session.ServiceNext | src/agent/acp.rs:627-727 | the next message is serviced: an update is counted, and a request with an id gets exactly one reply of its own kind, a permission refused exactly while stopping |
| AcpSession.Session.Drain | src/agent/acp.rs:598-600 | the queue is emptied while the reader goes on, or the turn's output was too long |
| AcpSession.Session.ResponseTurn | src/agent/acp.rs:590-616 | the next response is taken; one to another request is passed over, and a matching one ends the exchange with what it carries, every message before it serviced, unless those were too much or the transport failed |
| AcpSession.Session.Turn | src/agent/acp.rs:576-622 | each move of the loop has exactly its effect: a read, a cancel, the end of grace, a response taken or a message serviced |
| AcpSession.Session.Exchange | src/agent/acp.rs:553-624 | for every interleaving: an answer taken is never dropped but ends the exchange as it says; it is the stream's own response with all earlier messages serviced once and in order; every request serviced has exactly its own reply; at most one cancel is sent; every other ending has its cause; and while it waits every move has had its effect |
| AcpSession.Session.PromptUntil | src/agent/acp.rs:472-502 | within a prompt at most one `session/cancel` is sent, a reply counts as stopping exactly after it, output is counted from the prompt on, and it is too much exactly when over 16 MiB |
| AcpSession.ServicedIsPrefix | src/agent/acp.rs:553-624 | what has been serviced is at every moment a prefix of the agent's messages |
| AsciiJson.ToAsciiJson | src/agent/acp.rs:871-890 | the loop computes the escaped text |
| AsciiJson.EscapingKeepsMeaning | src/agent/acp.rs:871-890 | every text with a meaning, escaped, spells the same structure and strings |
| AsciiJson.EscapedIsAscii | src/agent/acp.rs:871-890 | escaped text is ASCII |
| AsciiJson.AsciiUnchanged | src/agent/acp.rs:871-890 | ASCII text is unchanged |
| AsciiJson.Utf16ReadsBack | src/agent/acp.rs:871-890 | surrogate pairs read back as the characters they came from |
| JsonValues.SerializedSpells | src/agent/acp.rs:871-873 | the text written for any JSON value spells exactly that value, its strings as UTF-16 |
| JsonValues.SentTextMeansTheValue | src/agent/acp.rs:871-890 | what is sent for any JSON value is ASCII and means that value |
| WorkspacePaths.Normalize | src/agent/acp.rs:841-853 | the loop walks the components, `..` dropping a name and stopping at the root |
| WorkspacePaths.TripsReduce | src/agent/acp.rs:841-853 | in a relative path `.` is nothing, a name and the `..` after it are nothing, and what is left is climbs and then names |
| WorkspacePaths.Resolve | src/agent/acp.rs:775-790 | a path is allowed exactly when it is given, its normal form continues the workspace's, and resolving links does not refuse it |
| WorkspacePaths.NormalizeIsIdempotent | src/agent/acp.rs:841-853 | a normal form has no `.` or `..` and is its own normal form |
| WorkspacePaths.RelativeStaysExactlyWhen | src/agent/acp.rs:775-790 | a relative path stays inside if and only if it descends again into what it climbed out of |
| WorkspacePaths.AbsoluteStaysExactlyWhen | src/agent/acp.rs:775-790 | an absolute path is inside if and only if its names, climbs stopping at the root, continue the workspace's |
| WorkspacePaths.PlainPathsLandInside | src/agent/acp.rs:775-790 | a path that never climbs is allowed and lands at that place inside |
| Attestation.VerifyChain | src/identity.rs:493-521 | the loop returns the specified verdict, and the specified error |
| Attestation.VerifyAcceptsExactly | src/identity.rs:474-521 | accepted are exactly the chains of one to four links forming a path from the user to the device, each link's texts hex, its signer and subject keys, and its signature one its signer's key verifies over the subject's message, with no subject text repeated and none equal to its signer's |
| Attestation.ValidExactlyWhen | src/identity.rs:474-484 | a link is valid if and only if it is readable and so signed, and an error if and only if it is not readable |
| Attestation.AcceptedChainsAreSigned | src/identity.rs:474-521 | every link of an accepted chain carries a signature that the key before it, the root's for the first, made over the next key |
| Attestation.VerifyErrsExactlyWhen | src/identity.rs:493-521 | the check is an error if and only if, all before being in order, it meets a link it cannot read |
| Attestation.AcceptedKeysDifferExactlyWhen | src/identity.rs:474-521 | an accepted chain is a path of distinct keys with none vouching for itself if and only if its texts differ by more than the case of letters |
| Attestation.LowercaseChainsAreKeyPaths | src/identity.rs:474-521 | so it is when every key is written in lowercase hex |
| Attestation.RespelledKeyIsAccepted | src/identity.rs:493-521 | an accepted chain in which one key is a subject twice and signs for itself, spelled in two cases |
| Attestation.PrefixesVerify | src/identity.rs:493-521 | every non-empty prefix of an accepted chain verifies for its own last subject |
| Attestation.DeviceIdentity.AdoptChain | src/identity.rs:243-260 | a chain is adopted exactly when it verifies for this device, and nothing changes otherwise |
| Attestation.DeviceIdentity.AttestationIsValid | src/identity.rs:270-277 | true exactly when the held chain verifies for this device |
| Attestation.DeviceIdentity.Attest | src/identity.rs:286-311 | exactly a device with a valid chain shorter than four, given a subject that is a key, hands out that chain and one link more, signed over that key |
| Attestation.AttestExtendsExactlyWhen | src/identity.rs:286-311 | the chain extended by a device whose signatures verify is accepted for the subject if and only if the subject is not already in it |
| Attestation.MigrationVerifiesExactlyWhen | src/identity.rs:528-543 | a stored chain is kept; an old attestation becomes a chain that verifies if and only if it is the user's signature over this device and the user is not the device |
| Attestation.AttestationMessageInjective | src/identity.rs:448-461 | an attestation message determines the key |
| Attestation.MessageLayouts | src/identity.rs:448-651 | each signed message is its domain's name and then its parts, behind four-byte lengths or, for key packages, NULs |
| Attestation.BindingMessageInjective | src/identity.rs:582-591 | a binding message determines circle and key |
| Attestation.KeyPackageMessageInjective | src/identity.rs:643-651 | a key-package message determines circle and key |
| Attestation.DomainsAreSeparate | src/identity.rs:448-651 | messages of the three domains never coincide |
| Pairing.Display | src/pairing.rs:192-202 | the array loop spells the base-1296 digits as words |
| Pairing.ShownSpells | src/pairing.rs:192-202 | the four words are the code's base-1296 digits, most significant first, single-spaced |
| Pairing.SeparatorsEndWords | src/pairing.rs:216-223 | white space, dots and commas end a word; nothing else does, hyphens included |
| Pairing.Parse | src/pairing.rs:216-241 | exactly four known words parse, to the number they spell; otherwise the count or the first unknown word is reported |
| Pairing.ParseInvertsDisplay | src/pairing.rs:192-241 | parsing a shown code gives it back, for every code and every list of distinct lowercase words |
| Pairing.DisplayNormalisesInput | src/pairing.rs:192-241 | a parsed code is in range and shows as the words typed, lowercased and single-spaced |
| Pairing.Generate | src/pairing.rs:174-189 | the first draw below the bound decides |
| Pairing.DrawsCount | src/pairing.rs:174-189 | how many 64-bit draws below a bound give one code |
| Pairing.EveryCodeIsEquallyLikely | src/pairing.rs:148-189 | every code has the same number of accepted draws |
| Pairing.FewDrawsAreRejected | src/pairing.rs:174-189 | fewer 64-bit draws are rejected than there are codes |

## Left out

- Cryptography and libraries: Ed25519, X25519, HKDF, AEAD, hashing, OpenMLS and yrs are predicates and parameters; `Session::agree`, `transcript_hash` and key derivations are not modelled.
- Membership and admission: "document busy" retries are not modelled, and `src/network`, `src/mls` and `src/control` appear only through the small interfaces the core calls; removals through the API do not occur in the runs of the commit log.
- Admission.CatchUp: an entry sealed to an epoch the member is not at is passed over, as in the code; how the network refetches one is not part of this model.
- EventStores.EventStore.List: supposes every file is named after the event in it, as appending leaves them; files whose event does not validate are skipped. `AppendLocal` and `Backfill` suppose there are none of those either.
- Rejoin.RunsSettleExactlyWhen: a control document too busy to be read when an admission is noted, which then counts as under no readmission, is not modelled.
- Deletions.Workspace.Reconcile: files are a map from path to modification time and folders a set; removing a regular file succeeds, and permissions, links and canonicalisation are absent. A folder's own modification time is arbitrary, so whether a folder's tombstone entry is retired is left open.
- Deletions.ReconcileIsIdempotent: a document named like an existing folder may be dropped again, which is why the count is zero only without one.
- RateLimit.OthersHaveNoEffect: supposes the source was never turned away because the table was full, which depends on other sources by design. Bucketing an IPv6 address by its /64 happens before the limiter and is not modelled.
- PairMailbox.MailboxState.PutSlot: the clock is read once per request; `src/invite_blobs.rs`, which has the same shape, is not modelled.
- AcpSession.Session.Exchange: writes to the agent's stdin succeed, file contents and permission choices are the driver's hooks, and a message's share of the buffer is released when it is dequeued rather than when it has been serviced. Schedules are finite, so an exchange may still be waiting at the end of one.
- AsciiJson.EscapingKeepsMeaning: meaning is given by a scanner of strings and the text between them; `JsonValues` shows that whatever is written for a value has one.
- WorkspacePaths.Resolve: works on path components as text; resolving links on disk is a parameter, and Windows prefixes are absent.
- Invite.DecodeInvertsEncode: UUID and multiaddr text are codecs with stated laws; expiry is in whole seconds, as on the wire; every field is shorter than 2^35 bytes, the most five length groups can say.
- LegacyInvite.EveryGenerationReads: the v1 layout is that of the repository's compatibility tests, the encoder itself having been removed.
- Wire.Reader.ReadLen: lengths are natural numbers, a 64-bit `usize` holding every value five groups can spell.
- `parse_ttl`, `check_expiry`, `resolve_defaults`, grant signing and short links of `src/invite.rs`; `pick_option`, `fs_read` windowing, subprocess spawning and authentication of `src/agent/acp.rs`.
- Pairing.Generate: that rejection sampling ends is probabilistic; only the counting statement is proved.
- HTTP handlers, command line, bootstrap server, relay, frontend, updater, presence, actor tokens, version and ignore rules.
