# Ringpop membership, dissemination and flap damping in Dafny

This project models the core of ringpop, a SWIM-style gossip membership
library. Each part of the core is a pure state-transition function over
immutable maps, sequences and datatypes:

- **SWIM membership** (`swim_member.dfy`, `swim_membership.dfy`,
  `swim_membership_facts.dfy`). These model the rewrite under
  `lib/swim-next`. Members are keyed by address and reconciled by
  incarnation number. Around them sit a sticky side-table of faulty members,
  a table of suspicion timers and a probe rotation. An update about the local
  node is never applied: the node refutes it by bumping its own incarnation.
- **Bucketed dissemination index** (`swim_disseminator.dfy`). Pending
  updates are filed by attempt count, with a reverse map from address to
  attempts. The two maps must stay consistent.
- **Dissemination buffer** (`dissemination.dfy`). This holds one pending
  change per address, each with a piggyback counter. A change is dropped
  once its counter passes a maximum that grows with the cluster size. When
  nothing is pending and the checksums differ, a full sync is sent instead.
- **Membership update handler** (`update_handler.dfy`). It routes every
  update to the dissemination buffer, the hash ring and the suspicion timers.
  It then announces the batch.
- **Flap damping** (`flap_config.dfy`, `flap_history.dfy`,
  `flappiness.dfy`, `scoring.dfy`, `subprotocol.dfy`,
  `damp_req_sender.dfy`, `decayer.dfy`, `flap_damping.dfy`). A member that
  flips state too often gets a decaying damp score. A score at or above the
  suppress limit starts a damp-req round, which asks a few peers to confirm
  the score before the member is damped.
- **Admin leave** (`admin_leave.dfy`).

Several JavaScript details are modelled explicitly:

- A damp score is `Unscored` (the property is absent), a number, or
  `NotANumber`. This is what arithmetic on an absent score produces.
  Comparisons with either of the non-numbers are false.
- `opts.x || default` replaces an explicit zero by the default.
- Object key order is modelled by sequences for the dissemination buffer and the update batch. The membership tables are maps, so the order in which `all()` lists members, and the order of the table sent back by onSync, is not modelled.

Randomness, clocks and calls into code outside the core become parameters:

- the address `next()` picks;
- the damp-req targets;
- the decay factor, a function of the newest history entry;
- the checksum and the server count.

Effects on collaborators come back as logs of events, in order. Examples
are `Change`, `Drop` and `Updated` from the membership, the ring and
suspicion effects of the update handler, and `MakeDamped` and `MakeLeave`.

The repository holds two generations of the protocol, and they are kept
apart:

- The rewrite uses numeric states and an `incarnation` field. The model
  uses a single `incarnation` field, although the source also reads and
  writes `incarnationNumber` (lib/swim-next/member.js:26, 34). It models
  the `local.incarnate(...)` calls in lib/swim-next/membership.js:166,
  203 and 237 as `bumpIncarnationNumber`, the only method of that kind that
  `Member` defines.
- The mature library uses status strings, `incarnationNumber` and damp
  scores.

lib/swim-next/disseminator.js:75 has a syntax error: a `;` inside the
object literal. The model uses the literal as evidently meant.

An update about another node is reconciled by a rule per state:

- An alive update needs a strictly higher incarnation.
- A suspect update also wins on a tie, but only against a stored Alive
  record.
- A faulty update wins on a tie against any state. It is dropped for an
  address not held as live.

## Model

| member | source | states |
|---|---|---|
| `SwimMember.Code` | lib/swim-next/member.js:60-64 | Each state carries a numeric code from 1 to 3. |
| `SwimMember.StateOrder` | lib/swim-next/member.js:60-64 | The state order is Alive(1) < Suspect(2) < Faulty(3), and no two states share a code. |
| `SwimMember.NewMember` | lib/swim-next/member.js:22-27 | A new member copies address and meta. A missing state defaults to Alive and a missing incarnation to 0. |
| `SwimMember.BumpIncarnation` | lib/swim-next/member.js:38-58 | Returns true exactly when there is no data, the remote incarnation is higher, or it is equal and forced. A false return leaves the member unchanged. A true return ends strictly above the old value, at remote+1 when data is given and at old+1 otherwise. Meta changes only when the local incarnation was 0, and then to the remote meta. A member that has never incarnated adopts the meta of higher remote data. |
| `SwimMember.BumpNeverLowers` | lib/swim-next/member.js:38-58 | The incarnation never decreases, and a bump always passes the remote incarnation. |
| `SwimMember.BumpIsIdempotent` | lib/swim-next/member.js:44-57 | Refuting the same remote data a second time is refused, so one rumour costs one bump. |
| `SwimMembership.Init` | lib/swim-next/membership.js:30-44 | A new membership has empty tables and satisfies the table invariant. |
| `SwimMembership.Refute` | lib/swim-next/membership.js:165-171 | A rumour about the local node changes no table. The local member becomes the result of bumping against the rumour. |
| `SwimMembership.UpdateAlive` | lib/swim-next/membership.js:164-198 | A local address means refute without force. An update that loses the conflict rule is dropped with the tables unchanged. An accepted update stores the record, clears the faulty record and the suspicion timer, joins the rotation only when new, and emits Change (new address) then Updated. |
| `SwimMembership.UpdateSuspect` | lib/swim-next/membership.js:200-232 | The same as alive, except that refutation is forced, a tie wins over a stored Alive record, and suspicion timers are untouched. |
| `SwimMembership.UpdateFaultyAsWritten` | lib/swim-next/membership.js:234-257 | As written: an accepted faulty update leaves the live table and enters the faulty table. The rotation keeps the address and only Updated is emitted. The suspicion timers and the local member are unchanged. |
| `SwimMembership.UpdateFaulty` | lib/swim-next/membership.js:234-257 | As intended: an accepted faulty update also leaves the rotation and emits Change then Updated. A faulty update for an address not held live is dropped. |
| `SwimMembership.OnUpdate` | lib/swim-next/membership.js:150-162 | Dispatches on the update's state and uses the corrected faulty path. A rumour about the local node changes only the local member, and never lowers its incarnation. For another node, a losing update leaves the tables unchanged. A winning faulty update ends in the faulty table only, and a winning alive or suspect update ends in the live table only. |
| `SwimMembership.OnSuspect` | lib/swim-next/membership.js:83-103 | Arming a suspicion replaces any timer already pending for the address, so there is at most one per address. The timer holds the faulty update at the same incarnation. Apart from the timer, the member is applied as Suspect through onUpdate: the same events and the same tables. |
| `SwimMembership.ExpireSuspicion` | lib/swim-next/membership.js:83-103 | With the corrected faulty path: a cleared timer never fires, and an expiring timer is always forgotten. A timer about the local node only refutes. For another node, a faulty record at least as recent as the live one moves the member from the live table and the rotation to the faulty table and emits Change then Updated. As written, the rotation keeps the address and only Updated is emitted (see Findings). Otherwise the update is dropped and only the timer goes. |
| `SwimMembership.OnSync` | lib/swim-next/membership.js:105-129 | A record about an address other than the sender is dropped. Otherwise it overwrites the live table and rotation whatever its incarnation and clears the faulty record. The stored record is sent back first when it is at least as recent, then Updated, then the whole table including the local member. |
| `SwimMembership.OnAck` | lib/swim-next/membership.js:74-81 | Only an ack from a member stored as Suspect is answered, and the answer is its stored record. |
| `SwimMembershipFacts.AckLeadsToRefutation` | lib/swim-next/membership.js:74-81 | The ack reply lets a live suspect refute. Receiving its own stored record, the suspect ends alive above that incarnation, and its announcement then wins over the suspicion at the acking node. |
| `SwimMembership.Next` | lib/swim-next/membership.js:259-274 | The pick is removed from the rotation. The rotation is refilled from the live table only when empty. A member is returned exactly when the rotation or table is non-empty, and nothing else changes. |
| `SwimMembership.Shuffle` | lib/swim-next/membership.js:291-299 | The rotation restarts with exactly the live members and their records. Nothing else changes, and the table invariant is kept. |
| `SwimMembership.All` | lib/swim-next/membership.js:309-320 | Returns size(hasLocal) records, which is the live member count plus one for the local node when asked. Every live member is included, and the local node comes last when asked. |
| `SwimMembership.Random` | lib/swim-next/membership.js:276-289 | Returns min(n, size) distinct live members, none for n <= 0. |
| `SwimMembershipFacts.SizeCountsLiveMembers` | lib/swim-next/membership.js:305-307 | For tables satisfying the invariant, size(hasLocal) is the number of distinct live member records, plus one for the local node when asked. |
| `SwimMembershipFacts.OnUpdateAcceptsIff` | lib/swim-next/membership.js:150-162 | For another node, onUpdate drops an update exactly when the per-state conflict rule rejects it. An accepted one emits Updated. |
| `SwimMembershipFacts.OnUpdateKeepsValid` | lib/swim-next/membership.js:164-257 | onUpdate, with the corrected faulty path, preserves the table invariant: keyed records, live and faulty disjoint, rotation within the live table, timers holding faulty updates. The faulty path as written breaks it (see Findings). |
| `SwimMembershipFacts.SuspicionKeepsValid` | lib/swim-next/membership.js:83-103 | onSuspect and timer expiry, with the corrected faulty path, preserve the table invariant. |
| `SwimMembershipFacts.SyncAndNextKeepValid` | lib/swim-next/membership.js:105-129 | onSync and next() preserve the table invariant. |
| `SwimMembershipFacts.OnUpdateNeverLowersIncarnation` | lib/swim-next/membership.js:164-257 | Along onUpdate, a known non-local address stays known and its stored incarnation (live or faulty) never decreases. |
| `SwimMembershipFacts.LocalUpdateOnlyRefutes` | lib/swim-next/membership.js:165-239 | Updates about the local address never modify the tables. Alive raises the local incarnation exactly when the update's is higher. Suspect and faulty force remote+1 once they reach the local incarnation. |
| `SwimMembershipFacts.FaultyIsSticky` | lib/swim-next/membership.js:174-218 | Alive or suspect updates no newer than the faulty record are dropped. A newer one revives the member and erases the faulty record. |
| `SwimMembershipFacts.FaultyForUnknownIsDropped` | lib/swim-next/membership.js:242-256 | A faulty update for an address not in the live table is dropped. |
| `SwimMembershipFacts.OnUpdateIdempotent` | lib/swim-next/membership.js:150-257 | Applying the same update twice leaves the tables as applying it once. |
| `SwimMembershipFacts.SyncCanLowerIncarnation` | lib/swim-next/membership.js:111-121 | onSync is the exception: a stale self-record replaces a newer stored one. |
| `SwimMembershipFacts.SuspicionEscalates` | lib/swim-next/membership.js:91-100 | An unrefuted suspicion ends with the member in the faulty table at the suspected incarnation, out of the live table, with no timer left. |
| `SwimMembershipFacts.AliveCancelsSuspicion` | lib/swim-next/membership.js:179-184 | An accepted alive update cancels the address's pending suspicion. |
| `SwimMembershipFacts.UpdateFaultyAsWrittenKeepsRotation` | lib/swim-next/membership.js:245-251 | As written, a faulty update about a live peer leaves it in the rotation but not in the table (the invariant breaks), and no Change is emitted. |
| `SwimMembershipFacts.RotationPicksDistinct` | lib/swim-next/membership.js:259-274 | Within a rotation every pick is a different member taken from the rotation, returned in pick order. |
| `SwimMembershipFacts.FullRotationVisitsEachOnce` | lib/swim-next/membership.js:259-299 | Starting from an exhausted rotation, one next() per live member visits every live member exactly once. |
| `SwimDisseminator.Init` | lib/swim-next/disseminator.js:31-37 | The initial limit is 3, nothing is pending, and the two maps agree. |
| `SwimDisseminator.AddUpdate` | lib/swim-next/disseminator.js:86-97 | At or above the limit this is a no-op. Otherwise bucket[attempts] is the old bucket (or a new empty one) with the update filed under its address, so the other records there are kept. The reverse map records the attempts, and other buckets are untouched. Consistency is kept for an address not already filed. |
| `SwimDisseminator.RemoveUpdate` | lib/swim-next/disseminator.js:99-105 | The address leaves the reverse map and its bucket, and consistency is kept. |
| `SwimDisseminator.OnUpdate` | lib/swim-next/disseminator.js:73-84 | Any pending entry for the address is replaced by the member with attempts 0. Every pending record for another address stays where it was, and consistency is kept. |
| `SwimDisseminator.UpdateLimit` | lib/swim-next/disseminator.js:57-71 | The new limit is adopted. Buckets at or above it are purged, lower buckets are untouched, and no address gains or changes attempts. |
| `SwimDisseminator.UpdateLimitKeepsConsistent` | lib/swim-next/disseminator.js:62-70 | Purging keeps both maps in agreement, and an address survives exactly when its attempts are below the limit. |
| `Dissemination.Init` | lib/dissemination.js:27-34 | Starts with no changes, maximum 1 and factor 15. |
| `Dissemination.RecordChange` | lib/dissemination.js:138-140 | One pending change per address, and the latest call wins as a change not yet sent. Other addresses are unaffected. |
| `Dissemination.Survivors` | lib/dissemination.js:82-91 | After an issue, every kept change has a counter between 1 and the maximum. |
| `Dissemination.SurvivorsDistinct` | lib/dissemination.js:82-91 | An issue only keeps changes that were pending and never creates a duplicate address. |
| `Dissemination.SurvivorsEntry` | lib/dissemination.js:82-91 | Each change's counter is bumped by exactly 1 (absent counts as 0), and the change is dropped once the counter exceeds the maximum. |
| `Dissemination.Project` | lib/dissemination.js:93-105 | The wire form keeps source, address, status and incarnation. It carries dampScore and timestamp exactly when the status is damped. |
| `Dissemination.FullSync` | lib/dissemination.js:53-68 | One change per member, in order, each with the local node as source. |
| `Dissemination.IssueChanges` | lib/dissemination.js:70-132 | If any change survives, the payload is exactly the survivors whatever the checksum. Otherwise it is the full sync when a truthy checksum differs from the local one, and empty when not. |
| `Dissemination.PayloadIsProjection` | lib/dissemination.js:93-107 | Every carried change was pending and goes out in its wire form. |
| `Dissemination.CeilLog10IsLeast` | lib/dissemination.js:39 | The integer digit count is the least k with 10^k >= n, which is ceil(log10 n). |
| `Dissemination.AdjustMaxPiggybackCount` | lib/dissemination.js:36-51 | The maximum becomes factor * ceil(log10(serverCount+1)), and the buffer is untouched. |
| `Dissemination.MaxPiggybackExamples` | lib/dissemination.js:36-42 | With factor 15: 9 servers give 15, 10 give 30, 99 give 30, 100 give 45, and 0 give 0. |
| `Dissemination.RoundsCount` | lib/dissemination.js:82-91 | A freshly recorded change carries counter k after the k-th issue while k <= maximum, and is gone after that. |
| `Dissemination.EmittedAtMostMax` | lib/dissemination.js:82-91 | A recorded change is carried by exactly min(k, maximum) of the next k issues, so never more than the maximum. |
| `UpdateHandler.MemberEffectsByStatus` | lib/membership-update-handler.js:24-91 | Alive records, adds to the ring and stops suspicion. Suspect starts suspicion and records but leaves the ring alone. Faulty and leave record, remove from the ring and stop suspicion. Damped and unrecognised statuses ask for nothing. |
| `UpdateHandler.MemberEffects` | lib/membership-update-handler.js:24-91 | Every effect an update asks for concerns that update or its address. There are at most three. None are asked exactly for damped or unrecognised statuses. |
| `UpdateHandler.HandleMembershipUpdates` | lib/membership-update-handler.js:93-132 | The per-update effects come first, in batch order. The roll-up receives the whole batch last. |
| `UpdateHandler.DispatchIsConcatenation` | lib/membership-update-handler.js:100-117 | The effects of a batch are the effects of its updates concatenated in order. |
| `UpdateHandler.FlagsMeaning` | lib/membership-update-handler.js:97-117 | membershipChanged is set iff some status is recognised. ringChanged is set iff some recognised status is not suspect. |
| `UpdateHandler.Flags` | lib/membership-update-handler.js:97-117 | Whenever the ring is flagged as changed, membership is flagged as changed too. |
| `UpdateHandler.HandleAnnouncements` | lib/membership-update-handler.js:119-126 | membershipChanged is emitted once if some status is recognised and never otherwise. ringChanged is emitted once if a recognised non-suspect status occurs and never otherwise. |
| `FlapConfig.OrDefault` | lib/flap-damping/index.js:30-37 | A present non-zero option wins. A missing or zero option gives the default. |
| `FlapConfig.OrDefaultInt` | lib/flap-damping/index.js:43-45 | The same for the integer options. |
| `FlapConfig.ToScoringConfig` | lib/flap-damping/index.js:28-39 | Each scoring field is its option or its default. |
| `FlapConfig.ToSubprotocolConfig` | lib/flap-damping/index.js:41-47 | Each subprotocol field is its option or its default. |
| `FlapConfig.Defaults` | lib/flap-damping/index.js:28-47 | Scoring defaults are penalty 500, initial 0, max 10000, min 0, half life 1800, reuse 2500, suppression 3600000 ms and suppress limit 5000. Subprotocol defaults are fanout 3, timeout 1000 and value 1. |
| `FlapConfig.ZeroIsMissing` | lib/flap-damping/index.js:28-47 | An option set to zero gives the same configuration as a missing one. |
| `FlapHistory.Track` | lib/flap-damping/index.js:49-58 | The update becomes the newest entry, with its own score or else the member's, stamped with the clock. The previous newest entry is kept just before it, at most two entries are kept, and other addresses are untouched. |
| `FlapHistory.TrackKeepsBounded` | lib/flap-damping/index.js:56-57 | Every address keeps at most two entries. |
| `Flappiness.EvaluateFlappiness` | lib/flap-damping/flappiness.js:27-48 | No history means no flap. Suspect then faulty is not a flap. A flap implies the status or incarnation differs from the newest entry. |
| `Flappiness.ChangeIsFlap` | lib/flap-damping/flappiness.js:36-47 | Conversely, with history, any status or incarnation change other than suspect then faulty is a flap. |
| `Flappiness.RepeatIsNotFlap` | lib/flap-damping/flappiness.js:46-47 | An exact repeat of the newest entry is not a flap. |
| `Flappiness.OnlyNewestCounts` | lib/flap-damping/flappiness.js:29-36 | Histories that agree on the newest entry judge every update alike. |
| `Flappiness.TrackedUpdateIsNotFlap` | lib/flap-damping/index.js:110-114 | An update judged after it was tracked would never be a flap, which is why judging precedes tracking. |
| `Scoring.ApplyDecay` | lib/flap-damping/scoring.js:38-57 | Unscored becomes the initial score with no decay. With no history the score is unchanged. Otherwise the result is the newest tracked score times the factor, and NaN when that entry has no score. |
| `Scoring.ClampMax` | lib/flap-damping/scoring.js:27-30 | A number above the maximum becomes the maximum. NaN passes through. |
| `Scoring.ClampMin` | lib/flap-damping/scoring.js:32-35 | A number below the minimum is deleted. Everything else passes through. |
| `Scoring.AdjustDampScore` | lib/flap-damping/scoring.js:22-36 | A numeric result lies in [min, max] and comes from a numeric decayed score. The result is NaN exactly when the decayed score is not a number. A numeric result from a numeric decayed score d is d + penalty, capped at the maximum. |
| `Scoring.AdjustBounds` | lib/flap-damping/scoring.js:22-36 | After adjustDampScore the score is absent or a number in [min, max]. NaN results exactly from a NaN source. The score is deleted exactly when the penalised score is below the minimum. From a numeric decayed score d, the result is min(d + penalty, max), or deleted when that is below the minimum. |
| `Scoring.FirstFlap` | lib/flap-damping/scoring.js:22-42 | The first flap of an unscored member gives min(initial+penalty, max), or no score if that is below min. |
| `Scoring.DefaultFlaps` | lib/flap-damping/scoring.js:22-36 | With default scoring, a first flap gives 500, and 4500 without decay reaches 5000. |
| `Scoring.DecayIgnoresCurrentScore` | lib/flap-damping/scoring.js:52-56 | Decay starts from the newest tracked score, never from the member's current one. |
| `Scoring.DecayNeverRaises` | lib/flap-damping/scoring.js:52-56 | With a factor in (0, 1] and a non-negative tracked score, decay never raises the score. |
| `Subprotocol.InitiateSubprotocol` | lib/flap-damping/subprotocol.js:34-70 | A pending address means a no-op. A damped member means a no-op. Otherwise the address is marked pending and a round starts for the member. |
| `Subprotocol.OnDampReq` | lib/flap-damping/subprotocol.js:72-97 | An error changes nothing and keeps the address pending. A confirmation calls makeDamped with the address, incarnation and score. Either non-error outcome clears the pending mark, and a non-confirmation damps nobody. |
| `Subprotocol.OneRoundPerAddress` | lib/flap-damping/subprotocol.js:42-54 | A round starts iff the address is not pending and the member is not damped. A second start is refused while one is pending. |
| `Subprotocol.CompletedRoundFreesAddress` | lib/flap-damping/subprotocol.js:80-95 | After a completed round the address is free again for a non-damped member. |
| `Subprotocol.ErrorLeavesAddressPending` | lib/flap-damping/subprotocol.js:74-78 | After an error the address stays pending, so every later start for it is refused. |
| `DampReqSender.TargetSelection` | lib/flap-damping/damp-req-sender.js:33-34 | Targets are requested with the fanout size, excluding the flappy member. |
| `DampReqSender.SelectedTargetsHonourFanout` | lib/flap-damping/damp-req-sender.js:33-73 | Targets that honour the selection give at most fanout requests, and none goes to the flappy member. |
| `DampReqSender.SendDampReq` | lib/flap-damping/damp-req-sender.js:33-73 | Zero targets give the "No selectable damp-req members" error and no sends. Otherwise there is one send per target naming the flappy member, and a fresh round. |
| `DampReqSender.Confirmations` | lib/flap-damping/damp-req-sender.js:87-93 | Confirmations never exceed the results. |
| `DampReqSender.Decision` | lib/flap-damping/damp-req-sender.js:79-152 | There is no decision once called back. The result is true iff confirmations reach the required value, which is checked first. Otherwise it is false iff all targets have completed or the missing confirmations exceed the outstanding requests (the early failure). Waiting implies requests are outstanding. |
| `DampReqSender.OnComplete` | lib/flap-damping/damp-req-sender.js:79-152 | The callback receives the round's decision. The round is marked called back exactly when a decision is made, and nothing else in it changes. Once a decision is made, no later decision is possible. |
| `DampReqSender.RunCounts` | lib/flap-damping/damp-req-sender.js:154-191 | Each response completes exactly one request. Only parsed results at or above the limit confirm, never transport errors or unparseable bodies. |
| `DampReqSender.AtMostOnce` | lib/flap-damping/damp-req-sender.js:75-149 | The callback fires at most once over any response sequence, and never after it has fired. |
| `DampReqSender.EventualDecision` | lib/flap-damping/damp-req-sender.js:114-130 | Once every target has answered, the callback has fired exactly once. |
| `DampReqSender.EarlyFailureIsSound` | lib/flap-damping/damp-req-sender.js:132-149 | When the missing confirmations exceed the outstanding requests, no continuation reaches the quorum. |
| `DampReqSender.QuorumExamples` | lib/flap-damping/damp-req-sender.js:79-152 | With fanout 3 and value 1: one confirming answer decides true at once. Three non-confirming answers decide false at the third and not before. With value 3, one error decides false early. |
| `Decayer.StartDecayer` | lib/flap-damping/decayer.js:46-63 | The first call schedules the tick, later calls do nothing, and the flag ends up set. |
| `Decayer.StartsOnce` | lib/flap-damping/decayer.js:24-63 | Started twice, the decayer is scheduled once. |
| `Decayer.DecayTick` | lib/flap-damping/decayer.js:65-79 | Exactly the members with a defined score are decayed. Unscored members are unchanged, only score fields change, and no member is added or removed. |
| `Decayer.TickKeepsScoredness` | lib/flap-damping/decayer.js:70-76 | A tick never deletes a score. |
| `FlapDamping.Escalate` | lib/flap-damping/index.js:130-136 | Starts the subprotocol for the scored member exactly when initiateSubprotocol would, marking it pending. |
| `FlapDamping.OnMemberUpdatedAsWritten` | lib/flap-damping/index.js:118-144 | As written, a round is started only after a flap, for a score that is not a number below the suppress limit. |
| `FlapDamping.OnMemberUpdated` | lib/flap-damping/index.js:118-144 | A non-flap changes nothing. A flap sets the adjusted score. A round starts iff the update is a flap, the score is at least the suppress limit, and the member is neither pending nor damped. |
| `FlapDamping.DeletedScoreStartsRound` | lib/flap-damping/index.js:126-136 | As written, a score deleted by the minimum still starts a round; the corrected check does not. |
| `FlapDamping.Step` | lib/flap-damping/index.js:88-115 | With the corrected suppress-limit check (see Findings): updates about the local node, relayed by third parties, or about unknown members change nothing. Otherwise only the matching member's score and that address's history change. |
| `FlapDamping.Apply` | lib/flap-damping/index.js:103-114 | With the corrected suppress-limit check (see Findings): only the member at the found position changes, and only in its score. History changes only at the update's address. |
| `FlapDamping.StepTracksUpdate` | lib/flap-damping/index.js:110-114 | With the corrected suppress-limit check (see Findings): a processed update becomes the newest history entry, with the member's adjusted score unless it carries its own, after being judged against the earlier history. |
| `FlapDamping.StepStartsOnlyWhenSuppressed` | lib/flap-damping/index.js:118-136 | With the corrected suppress-limit check (see Findings): a round starts only for a processed flap with score at least the suppress limit, for a member neither pending nor damped. That address becomes pending, and otherwise the pending set is unchanged. |
| `FlapDamping.OnMembershipUpdated` | lib/flap-damping/index.js:86-116 | With the corrected suppress-limit check (see Findings): a batch adds or removes no members. The history keeps at most two entries per address, and the pending set only grows. Every member a round was started for was not pending before and is pending afterwards, and no address gets two rounds. |
| `AdminLeave.RecvAdminLeave` | lib/admin-leave-recvr.js:30-57 | No local member gives InvalidLocalMemberError. An already-left local member gives RedundantLeaveError. Otherwise the handler calls makeLeave with this node's address and the local incarnation, stops gossip and all suspicion, then replies ok. |
| `AdminLeave.SecondLeaveIsRedundant` | lib/admin-leave-recvr.js:40-49 | After a successful leave, assuming makeLeave sets status leave, a second leave is refused as redundant. |

## Left out

- The membership checksum (lib/swim-next/membership.js:322-331) hashes with the foreign `farmhash`. The dissemination buffer takes the local checksum as a parameter.
- Randomness is a parameter. The address `next()` picks is an argument, `random(n)` chooses with `:|`, and the damp-req targets come from getRandomPingableMembers, which is not part of this model.
- SwimMembership.All: `all()` lists members in the table's key order. The model's table is a map, so `All` promises every live member and the local node last but not the order of the others. For the same reason onSync's reply is modelled as a set of records.
- Timers are replaced by explicit steps. A suspicion timer is the faulty update it will fire, and `ExpireSuspicion` is its expiry. The decay tick and the damp-req timeout are passed in, not scheduled. The `destroyed` listener is not modelled.
- `start()` and `stop()` of the membership are not modelled. They attach listeners, and `start()` re-arms the stored suspicions.
- `sync()` of the rewrite only builds messages for the network and is not modelled.
- lib/swim-next/net.js, lib/swim-next/failure-detector.js and lib/tchannel.js are transport and timer glue, largely stubs, and are not part of this model.
- Logging, stats gauges and the deprecated event wiring are not modelled.
- The decay factor is computed with `Math.pow`, `Date.now` and the half life. It is a parameter here, a function of the newest history entry.
- `adjustMaxPiggybackCount` uses `Math.log`. It is modelled as an exact integer digit count, ignoring floating-point rounding.
- The dissemination formula of the rewrite is a parameter: `UpdateLimit` receives the new limit.
- `getUpdatesUpTo` in lib/swim-next/disseminator.js is an empty stub and is not modelled.
- The rewrite's states are a three-valued datatype. Updates with any other numeric state, which onUpdate ignores, and a state code of 0, which the constructor replaces by Alive, cannot be expressed.
- The `source` argument of `issueChanges` is only logged and is not modelled.
- An update's own `ts` property would override the tracked time. Changes carry no `ts`, so the clock reading is always used.
- The damp-req handler closes over the mutable member object. The model hands makeDamped the member as it was when the round started.
- `makeDamped`, `makeLeave`, `findMemberByAddress`, the hash ring, the suspicion service and the update roll-up belong to code outside this model. The model records the calls made to them. `AdminLeave.AfterMakeLeave` states the one assumption made about `makeLeave`.
- Options that are not numbers, or that are NaN, are not modelled. The `||` default is modelled for zero.
- SwimDisseminator.RemoveUpdate: the source would throw if the reverse map named a missing bucket. The model deletes nothing in that case; the consistency invariant rules it out.
- Dissemination.RecordChange: the source stores the change object itself, and issueChanges keeps its piggyback counter on that object. Re-recording an object that has already been sent therefore keeps its count. The model's change carries no counter and always starts a fresh count, which matches a change object that is recorded only once.
- Dissemination.RecordChange: pending changes are kept in first-recorded order, which is JavaScript's key order for non-numeric keys such as `host:port` addresses. Integer-like keys, which JavaScript orders numerically, are not modelled.

## Findings

| source | as written | input that shows it | evidently intended | confidence | as-written member | corrected member |
|---|---|---|---|---|---|---|
| lib/swim-next/membership.js:245-251 | The member is deleted from the live table at line 246, and line 248 then tests whether it is still there, so the rotation clean-up and the Change event never happen. | Live peer `10.0.0.2:3000` at incarnation 3, in the rotation; faulty update at incarnation 3. | An accepted faulty member leaves the rotation as well, and Change is emitted because the member set shrank. | high; not executed | `SwimMembership.UpdateFaultyAsWritten`, `SwimMembershipFacts.UpdateFaultyAsWrittenKeepsRotation` | `SwimMembership.UpdateFaulty`, `SwimMembershipFacts.OnUpdateKeepsValid` |
| lib/flap-damping/index.js:126-136 | The subprotocol is skipped only when `dampScore < suppressLimit`. For a score deleted by the minimum clamp (undefined) or a NaN score, that comparison is false, so a round starts for a member with no score. | `dampScoreMin` 1000, other options default: an unscored member's first flap scores 500, which is deleted, and a round starts. | Start a round only for scores at or above the suppress limit, as the loop's comment says. | medium; not executed | `FlapDamping.OnMemberUpdatedAsWritten`, `FlapDamping.DeletedScoreStartsRound` | `FlapDamping.OnMemberUpdated`, `FlapDamping.StepStartsOnlyWhenSuppressed` |
