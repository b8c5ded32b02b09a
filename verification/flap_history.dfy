/**
 * The per-address update history kept by flap damping
 * (trackMembershipUpdateHistory in lib/flap-damping/index.js).
 */
module FlapHistory {
  import opened RingpopTypes

  /**
   * A tracked update: the change itself, the damp score recorded with it
   * and the clock reading when it was tracked.
   */
  datatype HistoryEntry = HistoryEntry(change: Change, dampScore: DampScore, ts: int)

  type History = map<Address, seq<HistoryEntry>>

  /** The entries for an address; none when it was never tracked. */
  function EntriesOf(h: History, a: Address): seq<HistoryEntry>
  {
    if a in h then h[a] else []
  }

  /** The most recent entry for an address, when there is one. */
  function Last(h: History, a: Address): (e: HistoryEntry)
    requires |EntriesOf(h, a)| > 0
    ensures e in EntriesOf(h, a)
  {
    EntriesOf(h, a)[|EntriesOf(h, a)| - 1]
  }

  /** Every address keeps at most two entries. */
  ghost predicate Bounded(h: History)
  {
    forall a :: a in h ==> |h[a]| <= 2
  }

  /** The last (at most) two elements of a sequence: `slice(-2)`. */
  function LastTwo<T>(s: seq<T>): (r: seq<T>)
    ensures |r| == if |s| < 2 then |s| else 2
    ensures r == s[|s| - |r|..]
  {
    if |s| <= 2 then s else s[|s| - 2..]
  }

  /**
   * Appends an entry for the change's address and keeps only the last two.
   * The entry's score is the change's own score when it carries one and the
   * member's otherwise; its time is the current clock reading.
   */
  function Track(h: History, c: Change, memberScore: DampScore, now: int): (r: History)
    ensures c.address in r && 0 < |r[c.address]| <= 2
    ensures r[c.address][|r[c.address]| - 1] == HistoryEntry(c, if c.dampScore.Unscored? then memberScore else c.dampScore, now)
    ensures |r[c.address]| == if |EntriesOf(h, c.address)| == 0 then 1 else 2
    ensures var before := EntriesOf(h, c.address);
            |before| > 0 ==> r[c.address][0] == before[|before| - 1]
    ensures forall a :: a != c.address ==> EntriesOf(r, a) == EntriesOf(h, a)
  {
    var e := HistoryEntry(c, if c.dampScore.Unscored? then memberScore else c.dampScore, now);
    var s := EntriesOf(h, c.address) + [e];
    var t := LastTwo(s);
    assert |s| == 1 ==> t == [e];
    assert |s| >= 2 ==> t == [s[|s| - 2], e];
    h[c.address := t]
  }

  /** Tracking keeps every address at two entries or fewer. */
  lemma TrackKeepsBounded(h: History, c: Change, memberScore: DampScore, now: int)
    requires Bounded(h)
    ensures Bounded(Track(h, c, memberScore, now))
  {
    var r := Track(h, c, memberScore, now);
    forall a | a in r
      ensures |r[a]| <= 2
    {
      if a != c.address {
        assert EntriesOf(r, a) == EntriesOf(h, a);
      }
    }
  }
}
