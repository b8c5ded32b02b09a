/**
 * The periodic decayer (lib/flap-damping/decayer.js).
 *
 * A process-wide flag makes starting it a one-time event; each tick then
 * re-applies decay to every member that has a score. The timer itself is
 * not modelled: a tick is an explicit step.
 */
module Decayer {
  import opened RingpopTypes
  import opened FlapConfig
  import opened FlapHistory
  import opened Scoring

  /** What a call to startDecayer did: whether it scheduled the first tick, and the flag afterwards. */
  datatype Start = Start(scheduled: bool, isStarted: bool)

  /** startDecayer: the first call schedules the tick and sets the flag; later calls do nothing. */
  function StartDecayer(isStarted: bool): (s: Start)
    ensures s.isStarted
    ensures s.scheduled <==> !isStarted
  {
    if isStarted then Start(false, true) else Start(true, true)
  }

  /** However many times it is called, the decayer is scheduled once. */
  lemma StartsOnce()
    ensures StartDecayer(false).scheduled
    ensures !StartDecayer(StartDecayer(false).isStarted).scheduled
  {
  }

  /**
   * onTimeout: decay every member whose score is defined. Members without
   * a score stay without one, nothing but scores changes, and no member is
   * added or removed.
   */
  method DecayTick(cfg: ScoringConfig, h: History, members: seq<MemberRecord>, decay: HistoryEntry -> real)
    returns (after: seq<MemberRecord>)
    ensures |after| == |members|
    ensures forall i :: 0 <= i < |members| ==>
              after[i] == members[i].(dampScore := after[i].dampScore)
    ensures forall i :: 0 <= i < |members| && members[i].dampScore.Unscored? ==> after[i] == members[i]
    ensures forall i :: 0 <= i < |members| && !members[i].dampScore.Unscored? ==>
              after[i].dampScore == ApplyDecay(cfg, h, members[i].address, members[i].dampScore, decay)
  {
    after := members;
    var i := 0;
    while i < |members|
      invariant 0 <= i <= |members| && |after| == |members|
      invariant forall j :: i <= j < |members| ==> after[j] == members[j]
      invariant forall j :: 0 <= j < i && members[j].dampScore.Unscored? ==> after[j] == members[j]
      invariant forall j :: 0 <= j < i && !members[j].dampScore.Unscored? ==>
                  after[j] == members[j].(dampScore := ApplyDecay(cfg, h, members[j].address, members[j].dampScore, decay))
    {
      var m := members[i];
      if !m.dampScore.Unscored? {
        after := after[i := m.(dampScore := ApplyDecay(cfg, h, m.address, m.dampScore, decay))];
      }
      i := i + 1;
    }
  }

  /**
   * A tick never gives a score to a member that has none, and never takes
   * one away: a scored member stays scored or becomes NaN.
   */
  lemma TickKeepsScoredness(cfg: ScoringConfig, h: History, m: MemberRecord, decay: HistoryEntry -> real)
    requires !m.dampScore.Unscored?
    ensures !ApplyDecay(cfg, h, m.address, m.dampScore, decay).Unscored?
  {
  }
}
