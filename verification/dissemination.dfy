/**
 * The dissemination buffer (lib/dissemination.js).
 *
 * Pending changes are kept one per address, in the order their addresses
 * were first recorded (the key order of the source's object). Every issue
 * bumps each pending change's piggyback counter and drops those past the
 * maximum; the survivors are what the outgoing message carries. When nothing
 * survives and the peer reported a different checksum, the whole member
 * list is sent instead. The maximum scales with the logarithm of the cluster
 * size.
 */
module Dissemination {
  import opened Wrappers
  import opened RingpopTypes

  /** A lower factor leads to more full syncs. */
  const PiggybackFactor: int := 15
  /** The maximum before the first ring change rescales it. */
  const InitialMaxPiggybackCount: int := 1

  /** A pending change and the number of times it has been piggybacked (absent until first issued). */
  datatype PendingChange = PendingChange(change: Change, piggybackCount: Option<nat>)

  datatype Dissemination = Dissemination(changes: seq<PendingChange>, maxPiggybackCount: int, piggybackFactor: int)

  function Init(): (ds: Dissemination)
    ensures ds.changes == [] && ds.maxPiggybackCount == 1 && ds.piggybackFactor == 15
  {
    Dissemination([], InitialMaxPiggybackCount, PiggybackFactor)
  }

  /** No address has two pending changes. */
  ghost predicate Distinct(ps: seq<PendingChange>)
  {
    forall i, j :: 0 <= i < j < |ps| ==> ps[i].change.address != ps[j].change.address
  }

  /** The position of the pending change for an address, if any. */
  function Find(ps: seq<PendingChange>, a: Address): (r: Option<nat>)
    ensures r.Some? ==> r.value < |ps| && ps[r.value].change.address == a
    ensures r.None? ==> forall j :: 0 <= j < |ps| ==> ps[j].change.address != a
    decreases |ps|
  {
    if |ps| == 0 then None
    else if ps[0].change.address == a then Some(0)
    else match Find(ps[1..], a)
      case None => None
      case Some(i) => Some(i + 1)
  }

  /** The pending change for an address, if any. */
  function Entry(ps: seq<PendingChange>, a: Address): Option<PendingChange>
  {
    match Find(ps, a)
    case None => None
    case Some(i) => Some(ps[i])
  }

  /** In a buffer without repeats, the entry at any position is the entry for its address. */
  lemma EntryAt(ps: seq<PendingChange>, i: nat)
    requires Distinct(ps) && i < |ps|
    ensures Entry(ps, ps[i].change.address) == Some(ps[i])
  {
  }

  /** The counter of a pending change, reading an absent one as zero. */
  function Count(p: PendingChange): nat
  {
    p.piggybackCount.GetOr(0)
  }

  /**
   * The buffer after recording a change: the change replaces whatever was
   * pending for its address (in place) or joins at the end, with no counter.
   */
  function Upsert(ps: seq<PendingChange>, c: Change): (r: seq<PendingChange>)
    ensures Entry(r, c.address) == Some(PendingChange(c, None))
    ensures forall a :: a != c.address ==> Entry(r, a) == Entry(ps, a)
    ensures forall j :: 0 <= j < |r| ==> r[j].change.address == c.address || Find(ps, r[j].change.address).Some?
    ensures Distinct(ps) ==> Distinct(r)
    ensures |r| == |ps| || |r| == |ps| + 1
    decreases |ps|
  {
    if |ps| == 0 then [PendingChange(c, None)]
    else if ps[0].change.address == c.address then [PendingChange(c, None)] + ps[1..]
    else
      var rest := Upsert(ps[1..], c);
      EntryCons(ps[0], rest);
      EntryCons(ps[0], ps[1..]);
      assert ps == [ps[0]] + ps[1..];
      [ps[0]] + rest
  }

  /** Looking up in a buffer that starts with x: x itself, or a lookup in the rest. */
  lemma EntryCons(x: PendingChange, rest: seq<PendingChange>)
    ensures forall a :: Entry([x] + rest, a) == if x.change.address == a then Some(x) else Entry(rest, a)
  {
    forall a
      ensures Entry([x] + rest, a) == if x.change.address == a then Some(x) else Entry(rest, a)
    {
      assert ([x] + rest)[1..] == rest;
    }
  }

  /** recordChange: the latest change recorded for an address wins. */
  function RecordChange(ds: Dissemination, c: Change): (r: Dissemination)
    ensures Entry(r.changes, c.address) == Some(PendingChange(c, None))
    ensures forall a :: a != c.address ==> Entry(r.changes, a) == Entry(ds.changes, a)
    ensures Distinct(ds.changes) ==> Distinct(r.changes)
    ensures r.maxPiggybackCount == ds.maxPiggybackCount && r.piggybackFactor == ds.piggybackFactor
  {
    ds.(changes := Upsert(ds.changes, c))
  }

  /** What one issue does to a single pending change: bump its counter, or drop it once past the maximum. */
  function Bumped(p: PendingChange, max: int): Option<PendingChange>
  {
    if Count(p) + 1 > max then None else Some(p.(piggybackCount := Some(Count(p) + 1)))
  }

  /**
   * The pending changes after one issue: every counter bumped by one, and a
   * change whose counter passes the maximum removed.
   */
  function Survivors(ps: seq<PendingChange>, max: int): (r: seq<PendingChange>)
    ensures |r| <= |ps|
    ensures forall j :: 0 <= j < |r| ==> r[j].piggybackCount.Some? && 1 <= r[j].piggybackCount.value <= max
    decreases |ps|
  {
    if |ps| == 0 then []
    else
      match Bumped(ps[0], max)
      case None => Survivors(ps[1..], max)
      case Some(p) => [p] + Survivors(ps[1..], max)
  }

  /** An issue only keeps changes that were pending, so it never creates a second change for an address. */
  lemma {:induction false} SurvivorsDistinct(ps: seq<PendingChange>, max: int)
    ensures forall j :: 0 <= j < |Survivors(ps, max)| ==> Find(ps, Survivors(ps, max)[j].change.address).Some?
    ensures Distinct(ps) ==> Distinct(Survivors(ps, max))
    decreases |ps|
  {
    if |ps| > 0 {
      var rest := ps[1..];
      SurvivorsDistinct(rest, max);
      var tail := Survivors(rest, max);
      forall j | 0 <= j < |tail|
        ensures Find(ps, tail[j].change.address).Some?
      {
        var i := Find(rest, tail[j].change.address).value;
        assert ps[i + 1] == rest[i];
      }
    }
  }

  /** After one issue, the entry for an address is its old entry bumped, or nothing once past the maximum. */
  lemma {:induction false} SurvivorsEntry(ps: seq<PendingChange>, max: int, a: Address)
    requires Distinct(ps)
    ensures Entry(ps, a).None? ==> Entry(Survivors(ps, max), a).None?
    ensures Entry(ps, a).Some? ==> Entry(Survivors(ps, max), a) == Bumped(Entry(ps, a).value, max)
    decreases |ps|
  {
    if |ps| > 0 {
      SurvivorsDistinct(ps[1..], max);
      var rest := ps[1..];
      assert ps == [ps[0]] + rest;
      EntryCons(ps[0], rest);
      SurvivorsEntry(rest, max, a);
      match Bumped(ps[0], max)
      case None =>
        if ps[0].change.address == a {
          assert Find(rest, a).None?;
        }
      case Some(p) =>
        EntryCons(p, Survivors(rest, max));
        if ps[0].change.address == a {
          assert Find(rest, a).None?;
        }
    }
  }

  /** The wire form of a change: source, address, status and incarnation, plus score and time for a damped one. */
  function Project(c: Change): (w: Change)
    ensures w.source == c.source && w.address == c.address
    ensures w.status == c.status && w.incarnationNumber == c.incarnationNumber
    ensures c.status == DAMPED ==> w.dampScore == c.dampScore && w.timestamp == c.timestamp
    ensures c.status != DAMPED ==> w.dampScore == Unscored && w.timestamp == None
  {
    if c.status == DAMPED then c
    else Change(c.source, c.address, c.status, c.incarnationNumber, Unscored, None)
  }

  /** The wire forms of pending changes, in buffer order. */
  function Emit(ps: seq<PendingChange>): (r: seq<Change>)
    ensures |r| == |ps| && forall j :: 0 <= j < |ps| ==> r[j] == Project(ps[j].change)
  {
    seq(|ps|, j requires 0 <= j < |ps| => Project(ps[j].change))
  }

  /** fullSync: one change per member, reported by the local node. */
  function FullSync(members: seq<MemberRecord>, whoami: Address): (r: seq<Change>)
    ensures |r| == |members|
    ensures forall j :: 0 <= j < |r| ==>
      && r[j].source == whoami && r[j].address == members[j].address
      && r[j].status == members[j].status && r[j].incarnationNumber == members[j].incarnationNumber
      && r[j].dampScore == Unscored && r[j].timestamp == None
  {
    seq(|members|, j requires 0 <= j < |members| =>
      Change(whoami, members[j].address, members[j].status, members[j].incarnationNumber, Unscored, None))
  }

  /** JavaScript truthiness of the checksum a peer sent: absent and zero are falsy. */
  predicate Truthy(checksum: Option<int>)
  {
    checksum.Some? && checksum.value != 0
  }

  /** The buffer after an issue and the changes the outgoing message carries. */
  datatype Issued = Issued(ds: Dissemination, payload: seq<Change>)

  /**
   * issueChanges: bump and prune the pending changes; send the survivors if
   * there are any, whatever the checksum; otherwise send the full member list
   * when the peer's checksum is given and differs from the local one, and
   * nothing when it does not.
   */
  function IssueChanges(ds: Dissemination, checksum: Option<int>, localChecksum: int,
                        members: seq<MemberRecord>, whoami: Address): (r: Issued)
    ensures r.ds == ds.(changes := Survivors(ds.changes, ds.maxPiggybackCount))
    ensures r.ds.changes != [] ==> r.payload == Emit(r.ds.changes)
    ensures r.ds.changes == [] && Truthy(checksum) && checksum.value != localChecksum ==>
      r.payload == FullSync(members, whoami)
    ensures r.ds.changes == [] && !(Truthy(checksum) && checksum.value != localChecksum) ==> r.payload == []
  {
    var kept := Survivors(ds.changes, ds.maxPiggybackCount);
    var out := Emit(kept);
    if |out| > 0 then Issued(ds.(changes := kept), out)
    else if Truthy(checksum) && localChecksum != checksum.value then Issued(ds.(changes := kept), FullSync(members, whoami))
    else Issued(ds.(changes := kept), [])
  }

  /** 10 to the power k. */
  function Pow10(k: nat): (r: nat)
    ensures r >= 1
  {
    if k == 0 then 1 else 10 * Pow10(k - 1)
  }

  /** ceil(log10(m)) for m >= 1, on integers: the least k with 10^k >= m. */
  function CeilLog10(m: nat): nat
    decreases m
  {
    if m <= 1 then 0 else 1 + CeilLog10((m + 9) / 10)
  }

  /** CeilLog10(m) is the least exponent whose power of ten reaches m. */
  lemma {:induction false} CeilLog10IsLeast(m: nat)
    requires m >= 1
    ensures Pow10(CeilLog10(m)) >= m
    ensures CeilLog10(m) > 0 ==> Pow10(CeilLog10(m) - 1) < m
    decreases m
  {
    if m > 1 {
      var q := (m + 9) / 10;
      CeilLog10IsLeast(q);
      assert Pow10(CeilLog10(m)) == 10 * Pow10(CeilLog10(q));
      if CeilLog10(q) > 0 {
        assert Pow10(CeilLog10(m) - 1) == 10 * Pow10(CeilLog10(q) - 1);
      }
    }
  }

  /** The piggyback maximum for a cluster: factor * ceil(log10(serverCount + 1)). */
  function MaxPiggybackCount(factor: int, serverCount: nat): int
  {
    factor * CeilLog10(serverCount + 1)
  }

  /** adjustMaxPiggybackCount: rescale the maximum to the ring's current server count. */
  function AdjustMaxPiggybackCount(ds: Dissemination, serverCount: nat): (r: Dissemination)
    ensures r.changes == ds.changes && r.piggybackFactor == ds.piggybackFactor
    ensures r.maxPiggybackCount == ds.piggybackFactor * CeilLog10(serverCount + 1)
    ensures ds.piggybackFactor >= 0 ==> r.maxPiggybackCount >= 0
  {
    ds.(maxPiggybackCount := MaxPiggybackCount(ds.piggybackFactor, serverCount))
  }

  /** Worked values with the default factor: 9 servers give 15, 10 give 30, 99 give 30, 100 give 45; none gives 0. */
  lemma MaxPiggybackExamples()
    ensures MaxPiggybackCount(15, 9) == 15
    ensures MaxPiggybackCount(15, 10) == 30
    ensures MaxPiggybackCount(15, 99) == 30
    ensures MaxPiggybackCount(15, 100) == 45
    ensures MaxPiggybackCount(15, 0) == 0
  {
    assert CeilLog10(10) == 1 + CeilLog10(1);
    assert CeilLog10(11) == 1 + CeilLog10(2) && CeilLog10(2) == 1 + CeilLog10(1);
    assert CeilLog10(100) == 1 + CeilLog10(10);
    assert CeilLog10(101) == 1 + CeilLog10(11);
  }

  /** The pending changes after k issues with a fixed maximum. */
  function Rounds(ps: seq<PendingChange>, max: int, k: nat): seq<PendingChange>
  {
    if k == 0 then ps else Survivors(Rounds(ps, max, k - 1), max)
  }

  /**
   * A freshly recorded change is carried by the next issues with counters
   * 1, 2, ... up to the maximum, and is gone from the issue that passes it.
   */
  lemma {:induction false} RoundsCount(ps: seq<PendingChange>, max: int, k: nat, c: Change)
    requires Distinct(ps) && Entry(ps, c.address) == Some(PendingChange(c, None))
    requires k >= 1
    ensures Entry(Rounds(ps, max, k), c.address) ==
              (if k <= max then Some(PendingChange(c, Some(k))) else None)
    decreases k
  {
    RoundsDistinct(ps, max, k - 1);
    if k == 1 {
      BumpStep(Rounds(ps, max, 0), max, c, 0);
    } else {
      RoundsCount(ps, max, k - 1, c);
      NextRound(ps, max, k, c);
    }
  }

  /** From the (k-1)-th issue to the k-th: the counter moves on by one, or the change stays gone. */
  lemma NextRound(ps: seq<PendingChange>, max: int, k: nat, c: Change)
    requires k >= 2 && Distinct(Rounds(ps, max, k - 1))
    requires Entry(Rounds(ps, max, k - 1), c.address) ==
               (if k - 1 <= max then Some(PendingChange(c, Some(k - 1))) else None)
    ensures Entry(Rounds(ps, max, k), c.address) ==
              (if k <= max then Some(PendingChange(c, Some(k))) else None)
  {
    var prev := Rounds(ps, max, k - 1);
    if k - 1 <= max {
      BumpStep(prev, max, c, k - 1);
    } else {
      SurvivorsEntry(prev, max, c.address);
    }
  }

  /** Issues never create a second pending change for an address. */
  lemma {:induction false} RoundsDistinct(ps: seq<PendingChange>, max: int, k: nat)
    requires Distinct(ps)
    ensures Distinct(Rounds(ps, max, k))
  {
    if k > 0 {
      RoundsDistinct(ps, max, k - 1);
      SurvivorsDistinct(Rounds(ps, max, k - 1), max);
    }
  }

  /** One issue bumps a pending change's counter from n to n + 1, or drops it past the maximum. */
  lemma BumpStep(ps: seq<PendingChange>, max: int, c: Change, n: nat)
    requires Distinct(ps)
    requires Entry(ps, c.address) == Some(PendingChange(c, if n == 0 then None else Some(n)))
    ensures Entry(Survivors(ps, max), c.address) == (if n + 1 <= max then Some(PendingChange(c, Some(n + 1))) else None)
  {
    SurvivorsEntry(ps, max, c.address);
  }

  /** The number of the first k issues whose piggyback carries a change for address a. */
  function Emissions(ps: seq<PendingChange>, max: int, k: nat, a: Address): nat
  {
    if k == 0 then 0
    else Emissions(ps, max, k - 1, a) + (if Find(Rounds(ps, max, k), a).Some? then 1 else 0)
  }

  /**
   * The piggyback budget: a recorded change that is not replaced is carried
   * by exactly min(k, maxPiggybackCount) of the next k issues, so never more
   * than maxPiggybackCount times.
   */
  lemma {:induction false} EmittedAtMostMax(ps: seq<PendingChange>, max: int, k: nat, c: Change)
    requires Distinct(ps) && Entry(ps, c.address) == Some(PendingChange(c, None)) && max >= 0
    ensures Emissions(ps, max, k, c.address) == (if k <= max then k else max)
    decreases k
  {
    if k > 0 {
      EmittedAtMostMax(ps, max, k - 1, c);
      RoundsCount(ps, max, k, c);
      assert Find(Rounds(ps, max, k), c.address).Some? <==> k <= max;
    }
  }

  /** Every carried change is in its wire form, and a carried change was pending. */
  lemma PayloadIsProjection(ds: Dissemination, checksum: Option<int>, localChecksum: int,
                            members: seq<MemberRecord>, whoami: Address, a: Address)
    requires Distinct(ds.changes)
    ensures var r := IssueChanges(ds, checksum, localChecksum, members, whoami);
            Find(r.ds.changes, a).Some? ==>
              Entry(ds.changes, a).Some? && Project(Entry(ds.changes, a).value.change) in r.payload
  {
    var r := IssueChanges(ds, checksum, localChecksum, members, whoami);
    if Find(r.ds.changes, a).Some? {
      var i := Find(r.ds.changes, a).value;
      SurvivorsEntry(ds.changes, ds.maxPiggybackCount, a);
      assert r.payload[i] == Project(r.ds.changes[i].change);
    }
  }
}
