/**
 * Flap damping driven by membership updates (onMembershipUpdated and
 * onMemberUpdated in lib/flap-damping/index.js).
 *
 * Each update about another member that was reported by this node or by
 * the member itself is judged against the history, may raise the member's
 * score and start the subprotocol, and is then added to the history. The
 * membership list is shared with the rest of ringpop; here it is passed in
 * and handed back with the adjusted score.
 */
module FlapDamping {
  import opened Wrappers
  import opened RingpopTypes
  import opened FlapConfig
  import opened FlapHistory
  import opened Flappiness
  import opened Scoring
  import opened Subprotocol

  /** What flap damping owns: the update history and the addresses with a round pending. */
  datatype FlapState = FlapState(history: History, pending: set<Address>)

  /** The member after onMemberUpdated, the pending set, and the member a round was started for, if any. */
  datatype MemberOutcome = MemberOutcome(member: MemberRecord, pending: set<Address>, started: Option<MemberRecord>)

  /** The subprotocol start, once the score has been judged high enough. */
  function Escalate(pending: set<Address>, m: MemberRecord): (o: MemberOutcome)
    ensures o.member == m
    ensures o.started.Some? <==> InitiateSubprotocol(pending, m).Started?
    ensures o.started.Some? ==> o.started.value == m && o.pending == pending + {m.address}
    ensures o.started.None? ==> o.pending == pending
  {
    match InitiateSubprotocol(pending, m)
    case Started(p, started) => MemberOutcome(m, p, Some(started))
    case _ => MemberOutcome(m, pending, None)
  }

  /**
   * onMemberUpdated as the source writes it: the subprotocol is skipped
   * only when `dampScore < suppressLimit`, which is false for a deleted or
   * NaN score, so such a member goes on to the subprotocol.
   */
  function OnMemberUpdatedAsWritten(cfg: ScoringConfig, st: FlapState, m: MemberRecord, u: Change, decay: HistoryEntry -> real): (o: MemberOutcome)
    ensures o.started.Some? ==> EvaluateFlappiness(st.history, u) && !Below(o.member.dampScore, cfg.suppressLimit)
  {
    if !EvaluateFlappiness(st.history, u) then MemberOutcome(m, st.pending, None)
    else
      var scored := m.(dampScore := AdjustDampScore(cfg, st.history, m.address, m.dampScore, decay));
      if Below(scored.dampScore, cfg.suppressLimit) then MemberOutcome(scored, st.pending, None)
      else Escalate(st.pending, scored)
  }

  /**
   * onMemberUpdated as intended (the loop's own comment asks for members
   * "above or at suppress limit"): a non-flap changes nothing; a flap
   * adjusts the score, and the subprotocol starts only for a score at or
   * above the suppress limit.
   */
  function OnMemberUpdated(cfg: ScoringConfig, st: FlapState, m: MemberRecord, u: Change, decay: HistoryEntry -> real): (o: MemberOutcome)
    ensures o.member == m.(dampScore := o.member.dampScore)
    ensures !EvaluateFlappiness(st.history, u) ==> o == MemberOutcome(m, st.pending, None)
    ensures EvaluateFlappiness(st.history, u) ==>
              o.member == m.(dampScore := AdjustDampScore(cfg, st.history, m.address, m.dampScore, decay))
    ensures o.started.Some? <==> EvaluateFlappiness(st.history, u) && AtLeast(o.member.dampScore, cfg.suppressLimit)
                                 && m.address !in st.pending && m.status != DAMPED
    ensures o.started.Some? ==> o.started.value == o.member && o.pending == st.pending + {m.address}
    ensures o.started.None? ==> o.pending == st.pending
  {
    if !EvaluateFlappiness(st.history, u) then MemberOutcome(m, st.pending, None)
    else
      var scored := m.(dampScore := AdjustDampScore(cfg, st.history, m.address, m.dampScore, decay));
      if !AtLeast(scored.dampScore, cfg.suppressLimit) then MemberOutcome(scored, st.pending, None)
      else Escalate(st.pending, scored)
  }

  /**
   * With a minimum of 1000 and otherwise default scoring, the first flap
   * of a member scores 500, which is below the minimum, so the score is
   * deleted; `undefined < 5000` is false, and the code as written starts a
   * round for a member without a score. The corrected check does not.
   */
  lemma DeletedScoreStartsRound()
    ensures var cfg := ToScoringConfig(NoOpts().(dampScoreMin := Some(1000.0)));
            var m := MemberRecord("10.0.0.2:3000", ALIVE, 1, Unscored);
            var prior := Change("10.0.0.2:3000", "10.0.0.2:3000", ALIVE, 1, Unscored, None);
            var u := Change("10.0.0.2:3000", "10.0.0.2:3000", SUSPECT, 1, Unscored, None);
            var st := FlapState(map["10.0.0.2:3000" := [HistoryEntry(prior, Unscored, 0)]], {});
            var decay := (e: HistoryEntry) => 1.0;
            OnMemberUpdatedAsWritten(cfg, st, m, u, decay).started == Some(m)
            && OnMemberUpdated(cfg, st, m, u, decay).started.None?
  {
    var cfg := ToScoringConfig(NoOpts().(dampScoreMin := Some(1000.0)));
    var m := MemberRecord("10.0.0.2:3000", ALIVE, 1, Unscored);
    var u := Change("10.0.0.2:3000", "10.0.0.2:3000", SUSPECT, 1, Unscored, None);
    var prior := Change("10.0.0.2:3000", "10.0.0.2:3000", ALIVE, 1, Unscored, None);
    var st := FlapState(map["10.0.0.2:3000" := [HistoryEntry(prior, Unscored, 0)]], {});
    var decay := (e: HistoryEntry) => 1.0;
    assert ALIVE != SUSPECT;
    assert EvaluateFlappiness(st.history, u);
    FirstFlap(cfg, st.history, m.address, decay);
    assert AdjustDampScore(cfg, st.history, m.address, Unscored, decay) == Unscored;
  }

  /** The outcome of one update, as the loop body leaves it. */
  datatype StepResult = StepResult(state: FlapState, members: seq<MemberRecord>, started: Option<MemberRecord>)

  /** Why the loop passes over an update without touching anything. */
  predicate Skipped(whoami: Address, members: seq<MemberRecord>, u: Change)
  {
    u.address == whoami
    || (u.source != whoami && u.source != u.address)
    || FindMember(members, u.address).None?
  }

  /**
   * One iteration: skip updates about this node, updates relayed by a third
   * party and updates about unknown members; otherwise judge the update
   * against the history as it was, apply the outcome to the member, then
   * track the update with the member's (new) score.
   */
  function Step(cfg: ScoringConfig, whoami: Address, st: FlapState, members: seq<MemberRecord>, u: Change, now: int, decay: HistoryEntry -> real): (r: StepResult)
    ensures Skipped(whoami, members, u) ==> r == StepResult(st, members, None)
    ensures |r.members| == |members|
    ensures forall j :: 0 <= j < |members| ==> r.members[j] == members[j].(dampScore := r.members[j].dampScore)
    ensures forall j :: 0 <= j < |members| && members[j].address != u.address ==> r.members[j] == members[j]
    ensures forall a :: a != u.address ==> EntriesOf(r.state.history, a) == EntriesOf(st.history, a)
  {
    if Skipped(whoami, members, u) then StepResult(st, members, None)
    else Apply(cfg, st, members, FindMember(members, u.address).value, u, now, decay)
  }

  /** The loop body for the member at position i, the one the update is about. */
  function Apply(cfg: ScoringConfig, st: FlapState, members: seq<MemberRecord>, i: nat, u: Change, now: int, decay: HistoryEntry -> real): (r: StepResult)
    requires i < |members| && members[i].address == u.address
    ensures |r.members| == |members|
    ensures forall j :: 0 <= j < |members| ==> r.members[j] == members[j].(dampScore := r.members[j].dampScore)
    ensures forall j :: 0 <= j < |members| && j != i ==> r.members[j] == members[j]
    ensures forall a :: a != u.address ==> EntriesOf(r.state.history, a) == EntriesOf(st.history, a)
  {
    var o := OnMemberUpdated(cfg, st, members[i], u, decay);
    StepResult(FlapState(Track(st.history, u, o.member.dampScore, now), o.pending), members[i := o.member], o.started)
  }

  /**
   * An update that is not skipped becomes the newest history entry for its
   * address, carrying the member's adjusted score unless it brought its own;
   * it was judged against the history from before it was added.
   */
  lemma StepTracksUpdate(cfg: ScoringConfig, whoami: Address, st: FlapState, members: seq<MemberRecord>, u: Change, now: int, decay: HistoryEntry -> real)
    requires !Skipped(whoami, members, u)
    ensures var r := Step(cfg, whoami, st, members, u, now, decay);
            var i := FindMember(members, u.address).value;
            |EntriesOf(r.state.history, u.address)| > 0
            && Last(r.state.history, u.address).change == u
            && Last(r.state.history, u.address).ts == now
            && Last(r.state.history, u.address).dampScore == (if u.dampScore.Unscored? then r.members[i].dampScore else u.dampScore)
  {
  }

  /** What a whole batch leaves behind, and the members rounds were started for, in order. */
  datatype BatchResult = BatchResult(state: FlapState, members: seq<MemberRecord>, started: seq<MemberRecord>)

  /**
   * onMembershipUpdated: the loop over a batch of updates. Over the batch the
   * history keeps at most two entries per address, the pending set only
   * grows, every member a round was started for was not pending before and
   * is pending afterwards, no address gets two rounds, and members are never
   * added or removed.
   */
  function OnMembershipUpdated(cfg: ScoringConfig, whoami: Address, st: FlapState, members: seq<MemberRecord>, us: seq<Change>, now: int, decay: HistoryEntry -> real): (r: BatchResult)
    ensures |r.members| == |members|
    ensures Bounded(st.history) ==> Bounded(r.state.history)
    ensures st.pending <= r.state.pending
    ensures forall k :: 0 <= k < |r.started| ==> r.started[k].address in r.state.pending && r.started[k].address !in st.pending
    ensures forall k, l :: 0 <= k < l < |r.started| ==> r.started[k].address != r.started[l].address
    decreases |us|
  {
    if |us| == 0 then BatchResult(st, members, [])
    else
      var s := Step(cfg, whoami, st, members, us[0], now, decay);
      var rest := OnMembershipUpdated(cfg, whoami, s.state, s.members, us[1..], now, decay);
      StepStartsOnlyWhenSuppressed(cfg, whoami, st, members, us[0], now, decay);
      StepKeepsBounded(cfg, whoami, st, members, us[0], now, decay);
      CombineStarted(st.pending, s.state.pending, s.started, rest.state.pending, rest.started);
      BatchResult(rest.state, rest.members, (if s.started.Some? then [s.started.value] else []) + rest.started)
  }

  /** A round is started only for a flap whose adjusted score is at or above the suppress limit, and never for a damped or already pending member. */
  lemma StepStartsOnlyWhenSuppressed(cfg: ScoringConfig, whoami: Address, st: FlapState, members: seq<MemberRecord>, u: Change, now: int, decay: HistoryEntry -> real)
    ensures var r := Step(cfg, whoami, st, members, u, now, decay);
            r.started.Some? ==>
              !Skipped(whoami, members, u) && EvaluateFlappiness(st.history, u)
              && AtLeast(r.started.value.dampScore, cfg.suppressLimit)
              && r.started.value.address == u.address && u.address !in st.pending
              && r.started.value.status != DAMPED
              && r.state.pending == st.pending + {u.address}
    ensures var r := Step(cfg, whoami, st, members, u, now, decay);
            r.started.None? ==> r.state.pending == st.pending
  {
  }

  /**
   * The pending-set bookkeeping of one step followed by the rest of the
   * batch: a round started now and the rounds started later are all fresh,
   * all pending at the end, and all for different addresses.
   */
  lemma CombineStarted(p0: set<Address>, p1: set<Address>, first: Option<MemberRecord>, p2: set<Address>, later: seq<MemberRecord>)
    requires first.Some? ==> first.value.address !in p0 && p1 == p0 + {first.value.address}
    requires first.None? ==> p1 == p0
    requires p1 <= p2
    requires forall k :: 0 <= k < |later| ==> later[k].address in p2 && later[k].address !in p1
    requires forall k, l :: 0 <= k < l < |later| ==> later[k].address != later[l].address
    ensures p0 <= p2
    ensures var all := (if first.Some? then [first.value] else []) + later;
            forall k :: 0 <= k < |all| ==> all[k].address in p2 && all[k].address !in p0
    ensures var all := (if first.Some? then [first.value] else []) + later;
            forall k, l :: 0 <= k < l < |all| ==> all[k].address != all[l].address
  {
  }

  /** One step keeps the history at two entries per address. */
  lemma StepKeepsBounded(cfg: ScoringConfig, whoami: Address, st: FlapState, members: seq<MemberRecord>, u: Change, now: int, decay: HistoryEntry -> real)
    ensures Bounded(st.history) ==> Bounded(Step(cfg, whoami, st, members, u, now, decay).state.history)
  {
    if Bounded(st.history) && !Skipped(whoami, members, u) {
      var i := FindMember(members, u.address).value;
      var o := OnMemberUpdated(cfg, st, members[i], u, decay);
      TrackKeepsBounded(st.history, u, o.member.dampScore, now);
    }
  }
}
