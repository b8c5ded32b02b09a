/**
 * Whether an update is a flap (lib/flap-damping/flappiness.js): a change
 * of status or incarnation relative to the newest tracked update for the
 * same address, except for the suspect-to-faulty progression SWIM makes on
 * its own.
 */
module Flappiness {
  import opened RingpopTypes
  import opened FlapHistory

  /** evaluateFlappiness. */
  function EvaluateFlappiness(h: History, u: Change): (flappy: bool)
    ensures |EntriesOf(h, u.address)| == 0 ==> !flappy
    ensures |EntriesOf(h, u.address)| > 0 && Last(h, u.address).change.status == SUSPECT && u.status == FAULTY ==> !flappy
    ensures flappy ==> Last(h, u.address).change.status != u.status
                       || Last(h, u.address).change.incarnationNumber != u.incarnationNumber
  {
    var entries := EntriesOf(h, u.address);
    if |entries| == 0 then false
    else
      var last := entries[|entries| - 1];
      if last.change.status == SUSPECT && u.status == FAULTY then false
      else last.change.status != u.status || last.change.incarnationNumber != u.incarnationNumber
  }

  /**
   * Any other change of status or incarnation against the newest entry is
   * a flap; together with the contract this pins the predicate down.
   */
  lemma ChangeIsFlap(h: History, u: Change)
    requires |EntriesOf(h, u.address)| > 0
    requires !(Last(h, u.address).change.status == SUSPECT && u.status == FAULTY)
    requires Last(h, u.address).change.status != u.status
             || Last(h, u.address).change.incarnationNumber != u.incarnationNumber
    ensures EvaluateFlappiness(h, u)
  {
  }

  /** Repeating the newest tracked update, whoever reports it, is never a flap. */
  lemma RepeatIsNotFlap(h: History, u: Change)
    requires |EntriesOf(h, u.address)| > 0
    requires Last(h, u.address).change.status == u.status
    requires Last(h, u.address).change.incarnationNumber == u.incarnationNumber
    ensures !EvaluateFlappiness(h, u)
  {
  }

  /**
   * Only the newest entry matters: two histories that agree on it (older
   * entries, other addresses and recorded scores may differ) judge every
   * update the same way.
   */
  lemma OnlyNewestCounts(h1: History, h2: History, u: Change)
    requires |EntriesOf(h1, u.address)| > 0 && |EntriesOf(h2, u.address)| > 0
    requires Last(h1, u.address).change.status == Last(h2, u.address).change.status
    requires Last(h1, u.address).change.incarnationNumber == Last(h2, u.address).change.incarnationNumber
    ensures EvaluateFlappiness(h1, u) == EvaluateFlappiness(h2, u)
  {
  }

  /**
   * Tracking an update and then seeing it again is not a flap: the
   * history-before-update order matters, because the update compared
   * against itself would never count.
   */
  lemma TrackedUpdateIsNotFlap(h: History, u: Change, memberScore: DampScore, now: int)
    ensures !EvaluateFlappiness(Track(h, u, memberScore, now), u)
  {
    var r := Track(h, u, memberScore, now);
    assert Last(r, u.address).change == u;
  }
}
