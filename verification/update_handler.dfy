/**
 * The membership update handler (lib/membership-update-handler.js).
 *
 * Each update in a batch is routed by status to its effects on the
 * dissemination buffer, the hash ring and the suspicion timers; the batch
 * then announces, at most once each, that membership changed and that the
 * ring changed, and hands the whole batch to the update roll-up. The
 * collaborators are out of reach, so the handler returns the effects it
 * asks of them, in order.
 */
module UpdateHandler {
  import opened RingpopTypes

  datatype Effect =
    | RecordChange(change: Change)   // dissemination.recordChange
    | RingAdd(address: Address)      // ring.addServer
    | RingRemove(address: Address)   // ring.removeServer
    | SuspicionStart(change: Change) // suspicion.start
    | SuspicionStop(change: Change)  // suspicion.stop
    | MembershipChanged              // the 'membershipChanged' event
    | Changed                        // the deprecated 'changed' event
    | RingChanged                    // the 'ringChanged' event
    | TrackUpdates(updates: seq<Change>) // membershipUpdateRollup.trackUpdates

  /** The statuses the handler acts on; any other status is ignored. */
  predicate Recognised(s: Status)
  {
    s == ALIVE || s == DAMPED || s == FAULTY || s == LEAVE || s == SUSPECT
  }

  /** An effect a single update asks for, about that very update. */
  predicate Concerns(e: Effect, c: Change)
  {
    match e
    case RecordChange(x) => x == c
    case RingAdd(a) => a == c.address
    case RingRemove(a) => a == c.address
    case SuspicionStart(x) => x == c
    case SuspicionStop(x) => x == c
    case _ => false
  }

  /** The per-status handlers onMemberAlive, onMemberDamped, onMemberFaulty, onMemberLeave and onMemberSuspect. */
  function MemberEffects(c: Change): (r: seq<Effect>)
    ensures forall e :: e in r ==> Concerns(e, c)
    ensures r == [] <==> !Recognised(c.status) || c.status == DAMPED
    ensures |r| <= 3
  {
    if c.status == ALIVE then [RecordChange(c), RingAdd(c.address), SuspicionStop(c)]
    else if c.status == DAMPED then []
    else if c.status == FAULTY || c.status == LEAVE then [RecordChange(c), RingRemove(c.address), SuspicionStop(c)]
    else if c.status == SUSPECT then [SuspicionStart(c), RecordChange(c)]
    else []
  }

  /** The effects of the per-update handlers over a batch, in batch order. */
  function Dispatch(us: seq<Change>): (r: seq<Effect>)
    decreases |us|
  {
    if |us| == 0 then [] else Dispatch(us[..|us| - 1]) + MemberEffects(us[|us| - 1])
  }

  /** The two batch flags as the loop accumulates them: (membershipChanged, ringChanged). */
  function Flags(us: seq<Change>): (r: (bool, bool))
    ensures r.1 ==> r.0
    decreases |us|
  {
    if |us| == 0 then (false, false)
    else
      var (m, r) := Flags(us[..|us| - 1]);
      var s := us[|us| - 1].status;
      if s == ALIVE || s == DAMPED || s == FAULTY || s == LEAVE then (true, true)
      else if s == SUSPECT then (true, r)
      else (m, r)
  }

  /**
   * handleMembershipUpdates: the per-update effects, then the announcements
   * the flags call for, then the roll-up of the whole batch.
   */
  function HandleMembershipUpdates(us: seq<Change>): (r: seq<Effect>)
    ensures |r| > 0 && r[|r| - 1] == TrackUpdates(us)
    ensures |Dispatch(us)| <= |r| && r[..|Dispatch(us)|] == Dispatch(us)
  {
    var (m, g) := Flags(us);
    Dispatch(us)
      + (if m then [MembershipChanged, Changed] else [])
      + (if g then [RingChanged] else [])
      + [TrackUpdates(us)]
  }

  /**
   * The flags the loop computes are the batch-level facts they stand for:
   * membership changed iff some status was recognised, and the ring changed
   * iff some recognised status other than suspect occurred.
   */
  lemma {:induction false} FlagsMeaning(us: seq<Change>)
    ensures Flags(us).0 <==> exists i :: 0 <= i < |us| && Recognised(us[i].status)
    ensures Flags(us).1 <==> exists i :: 0 <= i < |us| && Recognised(us[i].status) && us[i].status != SUSPECT
    decreases |us|
  {
    if |us| > 0 {
      var init := us[..|us| - 1];
      FlagsMeaning(init);
      assert forall i :: 0 <= i < |init| ==> us[i] == init[i];
      if exists i :: 0 <= i < |init| && Recognised(init[i].status) {
        var i :| 0 <= i < |init| && Recognised(init[i].status);
        assert us[i] == init[i];
      }
      if exists i :: 0 <= i < |init| && Recognised(init[i].status) && init[i].status != SUSPECT {
        var i :| 0 <= i < |init| && Recognised(init[i].status) && init[i].status != SUSPECT;
        assert us[i] == init[i];
      }
    }
  }

  /** The effects a single update can ask for. */
  predicate PerMember(e: Effect)
  {
    e.RecordChange? || e.RingAdd? || e.RingRemove? || e.SuspicionStart? || e.SuspicionStop?
  }

  /** Dispatch itself never announces anything; announcements are batch-level. */
  lemma {:induction false} DispatchHasNoAnnouncements(us: seq<Change>)
    ensures forall e :: e in Dispatch(us) ==> PerMember(e)
    decreases |us|
  {
    if |us| > 0 {
      DispatchHasNoAnnouncements(us[..|us| - 1]);
    }
  }

  /** The announcements that follow the per-update effects. */
  function Announcements(us: seq<Change>): (r: seq<Effect>)
  {
    (if Flags(us).0 then [MembershipChanged, Changed] else [])
      + (if Flags(us).1 then [RingChanged] else [])
      + [TrackUpdates(us)]
  }

  lemma SplitAtAnnouncements(us: seq<Change>)
    ensures HandleMembershipUpdates(us) == Dispatch(us) + Announcements(us)
  {
  }

  /** The tail holds each announcement at most once, and exactly when its flag is set. */
  lemma AnnouncementsOnce(us: seq<Change>)
    ensures multiset(Announcements(us))[MembershipChanged] == (if Flags(us).0 then 1 else 0)
    ensures multiset(Announcements(us))[RingChanged] == (if Flags(us).1 then 1 else 0)
  {
    var a: seq<Effect> := if Flags(us).0 then [MembershipChanged, Changed] else [];
    var b: seq<Effect> := if Flags(us).1 then [RingChanged] else [];
    assert Announcements(us) == a + b + [TrackUpdates(us)];
    assert multiset(Announcements(us)) == multiset(a) + multiset(b) + multiset{TrackUpdates(us)};
  }

  /** Counted over the whole batch, each announcement occurs exactly when its flag is set. */
  lemma HandleCounts(us: seq<Change>)
    ensures multiset(HandleMembershipUpdates(us))[MembershipChanged] == (if Flags(us).0 then 1 else 0)
    ensures multiset(HandleMembershipUpdates(us))[RingChanged] == (if Flags(us).1 then 1 else 0)
  {
    DispatchHasNoAnnouncements(us);
    SplitAtAnnouncements(us);
    AnnouncementsOnce(us);
    var d := Dispatch(us);
    assert !PerMember(MembershipChanged) && !PerMember(RingChanged);
    assert multiset(d)[MembershipChanged] == 0 && multiset(d)[RingChanged] == 0;
    assert multiset(d + Announcements(us)) == multiset(d) + multiset(Announcements(us));
  }

  /**
   * Each announcement occurs at most once per batch: membershipChanged
   * exactly when some status was recognised, ringChanged exactly when some
   * recognised status other than suspect occurred.
   */
  lemma HandleAnnouncements(us: seq<Change>)
    ensures var r := HandleMembershipUpdates(us);
            multiset(r)[MembershipChanged] == (if exists i :: 0 <= i < |us| && Recognised(us[i].status) then 1 else 0)
    ensures var r := HandleMembershipUpdates(us);
            multiset(r)[RingChanged] == (if exists i :: 0 <= i < |us| && Recognised(us[i].status) && us[i].status != SUSPECT then 1 else 0)
  {
    FlagsMeaning(us);
    HandleCounts(us);
  }

  /**
   * What an update asks of the dissemination buffer, the ring and the
   * suspicion timers: every recognised status but damped records the change;
   * alive joins the ring and stops suspicion; faulty and leave leave the ring
   * and stop suspicion; suspect starts suspicion and leaves the ring alone;
   * damped and unrecognised statuses ask nothing.
   */
  lemma MemberEffectsByStatus(c: Change)
    ensures RecordChange(c) in MemberEffects(c) <==> Recognised(c.status) && c.status != DAMPED
    ensures RingAdd(c.address) in MemberEffects(c) <==> c.status == ALIVE
    ensures RingRemove(c.address) in MemberEffects(c) <==> c.status == FAULTY || c.status == LEAVE
    ensures SuspicionStop(c) in MemberEffects(c) <==> c.status == ALIVE || c.status == FAULTY || c.status == LEAVE
    ensures SuspicionStart(c) in MemberEffects(c) <==> c.status == SUSPECT
    ensures !Recognised(c.status) || c.status == DAMPED ==> MemberEffects(c) == []
  {
  }

  /** The handler's effects for a batch are the per-update effects of each update, in batch order. */
  lemma {:induction false} DispatchIsConcatenation(us: seq<Change>, vs: seq<Change>)
    ensures Dispatch(us + vs) == Dispatch(us) + Dispatch(vs)
    decreases |vs|
  {
    if |vs| == 0 {
      assert us + vs == us;
    } else {
      var init := vs[..|vs| - 1];
      assert (us + vs)[..|us + vs| - 1] == us + init;
      assert (us + vs)[|us + vs| - 1] == vs[|vs| - 1];
      DispatchIsConcatenation(us, init);
    }
  }
}
