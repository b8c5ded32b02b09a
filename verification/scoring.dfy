/**
 * Damp scores (lib/flap-damping/scoring.js).
 *
 * A flap first decays the member's score from the newest tracked one, then
 * adds the penalty and clamps the result: above the maximum it is lowered
 * to the maximum, below the minimum it is deleted. The decay factor is
 * computed from the clock and floating-point exponentials, so it is a
 * parameter here: a function of the newest history entry.
 */
module Scoring {
  import opened RingpopTypes
  import opened FlapConfig
  import opened FlapHistory

  /** applyDecay. */
  function ApplyDecay(cfg: ScoringConfig, h: History, a: Address, score: DampScore, decay: HistoryEntry -> real): (r: DampScore)
    ensures score.Unscored? ==> r == Scored(cfg.dampScoreInitial)
    ensures !score.Unscored? && |EntriesOf(h, a)| == 0 ==> r == score
    ensures !score.Unscored? && |EntriesOf(h, a)| > 0 ==>
              var last := Last(h, a);
              (r.Scored? <==> last.dampScore.Scored?) &&
              (r.Scored? ==> r.value == last.dampScore.value * decay(last))
  {
    if score.Unscored? then Scored(cfg.dampScoreInitial)
    else if |EntriesOf(h, a)| == 0 then score
    else Times(Last(h, a).dampScore, decay(Last(h, a)))
  }

  /** `s > max ? max : s`, where NaN is never above anything. */
  function ClampMax(s: DampScore, max: real): (r: DampScore)
    ensures r.Scored? <==> s.Scored?
    ensures r.Scored? ==> r.value <= max && (r.value == s.value || r.value == max)
    ensures r.Scored? && s.value <= max ==> r == s
  {
    if s.Scored? && s.value > max then Scored(max) else s
  }

  /** `s < min ? undefined : s`, where NaN is never below anything. */
  function ClampMin(s: DampScore, min: real): (r: DampScore)
    ensures Below(s, min) ==> r.Unscored?
    ensures !Below(s, min) ==> r == s
  {
    if Below(s, min) then Unscored else s
  }

  /** adjustDampScore: decay, penalise, clamp. */
  function AdjustDampScore(cfg: ScoringConfig, h: History, a: Address, score: DampScore, decay: HistoryEntry -> real): (r: DampScore)
    ensures r.Scored? ==> cfg.dampScoreMin <= r.value <= cfg.dampScoreMax
    ensures r.Scored? ==> ApplyDecay(cfg, h, a, score, decay).Scored?
    ensures r.NotANumber? <==> !ApplyDecay(cfg, h, a, score, decay).Scored?
    ensures var d := ApplyDecay(cfg, h, a, score, decay);
            d.Scored? && r.Scored? ==>
              r.value == (if d.value + cfg.dampPenalty > cfg.dampScoreMax then cfg.dampScoreMax else d.value + cfg.dampPenalty)
  {
    var decayed := ApplyDecay(cfg, h, a, score, decay);
    ClampMin(ClampMax(Plus(decayed, cfg.dampPenalty), cfg.dampScoreMax), cfg.dampScoreMin)
  }

  /**
   * Where a NaN score comes from: a scored member whose newest tracked entry
   * carries no number, or a member already at NaN with nothing tracked.
   */
  ghost predicate NaNSource(h: History, a: Address, score: DampScore)
  {
    if |EntriesOf(h, a)| == 0 then score.NotANumber?
    else !score.Unscored? && !Last(h, a).dampScore.Scored?
  }

  /**
   * After a flap the score is absent or within [dampScoreMin, dampScoreMax];
   * the only other outcome is NaN, and only from a NaN source. A score that
   * would fall below the minimum is deleted rather than raised, so the
   * member counts as never having flapped.
   */
  lemma AdjustBounds(cfg: ScoringConfig, h: History, a: Address, score: DampScore, decay: HistoryEntry -> real)
    ensures var r := AdjustDampScore(cfg, h, a, score, decay);
            r.Scored? ==> cfg.dampScoreMin <= r.value <= cfg.dampScoreMax
    ensures var r := AdjustDampScore(cfg, h, a, score, decay);
            r.NotANumber? <==> NaNSource(h, a, score)
    ensures var r := AdjustDampScore(cfg, h, a, score, decay);
            var d := ApplyDecay(cfg, h, a, score, decay);
            r.Unscored? <==> d.Scored? && (d.value + cfg.dampPenalty < cfg.dampScoreMin
                                           || (cfg.dampScoreMax < cfg.dampScoreMin && d.value + cfg.dampPenalty > cfg.dampScoreMax))
    ensures var r := AdjustDampScore(cfg, h, a, score, decay);
            var d := ApplyDecay(cfg, h, a, score, decay);
            d.Scored? ==>
              var v := if d.value + cfg.dampPenalty > cfg.dampScoreMax then cfg.dampScoreMax else d.value + cfg.dampPenalty;
              r == (if v < cfg.dampScoreMin then Unscored else Scored(v))
  {
  }

  /**
   * The first flap of a member without a score starts from the initial
   * score: it ends at min(initial + penalty, max), or without a score when
   * that is below the minimum.
   */
  lemma FirstFlap(cfg: ScoringConfig, h: History, a: Address, decay: HistoryEntry -> real)
    ensures var v := if cfg.dampScoreInitial + cfg.dampPenalty > cfg.dampScoreMax then cfg.dampScoreMax
                     else cfg.dampScoreInitial + cfg.dampPenalty;
            AdjustDampScore(cfg, h, a, Unscored, decay) == if v < cfg.dampScoreMin then Unscored else Scored(v)
  {
  }

  /** With the default configuration, the first flap scores 500 and the tenth reaches the 5000 suppress limit without decay. */
  lemma DefaultFlaps(h: History, a: Address, decay: HistoryEntry -> real)
    requires |EntriesOf(h, a)| > 0 && Last(h, a).dampScore == Scored(4500.0) && decay(Last(h, a)) == 1.0
    ensures AdjustDampScore(ToScoringConfig(NoOpts()), h, a, Unscored, decay) == Scored(500.0)
    ensures AdjustDampScore(ToScoringConfig(NoOpts()), h, a, Scored(4500.0), decay) == Scored(5000.0)
  {
    Defaults();
  }

  /**
   * Decay starts from the newest tracked score, never from the member's
   * current one: any two scored inputs decay to the same value.
   */
  lemma DecayIgnoresCurrentScore(cfg: ScoringConfig, h: History, a: Address, s1: DampScore, s2: DampScore, decay: HistoryEntry -> real)
    requires !s1.Unscored? && !s2.Unscored? && |EntriesOf(h, a)| > 0
    ensures ApplyDecay(cfg, h, a, s1, decay) == ApplyDecay(cfg, h, a, s2, decay)
  {
  }

  /** With a factor in (0, 1] and a non-negative tracked score, decay never raises the score. */
  lemma DecayNeverRaises(cfg: ScoringConfig, h: History, a: Address, score: DampScore, decay: HistoryEntry -> real)
    requires !score.Unscored? && |EntriesOf(h, a)| > 0
    requires Last(h, a).dampScore.Scored? && Last(h, a).dampScore.value >= 0.0
    requires 0.0 < decay(Last(h, a)) <= 1.0
    ensures var r := ApplyDecay(cfg, h, a, score, decay);
            r.Scored? && 0.0 <= r.value <= Last(h, a).dampScore.value
  {
    var v := Last(h, a).dampScore.value;
    var f := decay(Last(h, a));
    assert v * f <= v * 1.0;
  }
}
