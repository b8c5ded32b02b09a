/**
 * Properties of the SWIM rewrite's membership table: the reconciliation rule,
 * the invariant of the tables, monotone incarnations, the sticky faulty
 * side-table, idempotent updates, suspicion escalation and the probe rotation.
 */
module SwimMembershipFacts {
  import opened Wrappers
  import opened SwimMember
  import opened SwimMembership

  /** Whether onUpdate took an update about another node: exactly when the conflict rule says it wins. */
  lemma OnUpdateAcceptsIff(ms: Membership, d: Member)
    requires d.address != ms.local.address
    ensures var r := OnUpdate(ms, d);
            (r == Step(ms, [Drop(d)])) <==> !Supersedes(ms, d)
    ensures Supersedes(ms, d) ==> Updated(d) in OnUpdate(ms, d).events
  {
    var r := OnUpdate(ms, d);
    if Supersedes(ms, d) {
      assert Updated(d) in r.events;
      assert r.events != [Drop(d)];
    }
  }

  /** onUpdate keeps the tables' invariant. */
  lemma OnUpdateKeepsValid(ms: Membership, d: Member)
    requires Valid(ms)
    ensures Valid(OnUpdate(ms, d).ms)
  {
  }

  /** onSuspect and the expiry of a suspicion timer keep the tables' invariant. */
  lemma SuspicionKeepsValid(ms: Membership, m: Member, a: Address)
    requires Valid(ms)
    ensures Valid(OnSuspect(ms, m).ms)
    ensures Valid(ExpireSuspicion(ms, a).ms)
  {
    var armed := ms.(suspects := ms.suspects[m.address := m.(state := Faulty)]);
    assert Valid(armed);
    OnUpdateKeepsValid(armed, m.(state := Suspect));
    if a in ms.suspects {
      OnUpdateKeepsValid(ms.(suspects := ms.suspects - {a}), ms.suspects[a]);
    }
  }

  /** onSync and next() keep the tables' invariant. */
  lemma SyncAndNextKeepValid(ms: Membership, d: Member, from: Address, pick: Address)
    requires Valid(ms)
    requires Pool(ms) != map[] ==> pick in Pool(ms)
    ensures Valid(OnSync(ms, d, from).ms)
    ensures Valid(Next(ms, pick).ms)
  {
  }

  /**
   * Along onUpdate the incarnation stored for another node never goes down,
   * and a known address never becomes unknown (a faulty member moves to the
   * side-table with its incarnation).
   */
  lemma OnUpdateNeverLowersIncarnation(ms: Membership, d: Member, b: Address)
    requires Valid(ms)
    requires b != ms.local.address
    ensures var r := OnUpdate(ms, d).ms;
            Stored(ms, b).Some? ==> Stored(r, b).Some? && Stored(r, b).value >= Stored(ms, b).value
  {
  }

  /** An update about the local node leaves every table alone and only ever raises the local incarnation. */
  lemma LocalUpdateOnlyRefutes(ms: Membership, d: Member)
    requires d.address == ms.local.address
    ensures var r := OnUpdate(ms, d).ms;
            && r.members == ms.members && r.iterable == ms.iterable
            && r.faulty == ms.faulty && r.suspects == ms.suspects
            && r.local.incarnation >= ms.local.incarnation
            && (d.state == Alive ==> (r.local.incarnation > ms.local.incarnation <==> d.incarnation > ms.local.incarnation))
            && (d.state != Alive && d.incarnation >= ms.local.incarnation ==> r.local.incarnation == d.incarnation + 1)
            && (d.incarnation < ms.local.incarnation ==> r.local == ms.local)
  {
  }

  /**
   * The faulty side-table is sticky: alive and suspect updates no more recent
   * than the faulty record are dropped, and a more recent one revives the
   * member and erases the faulty record.
   */
  lemma FaultyIsSticky(ms: Membership, d: Member)
    requires Valid(ms)
    requires d.address != ms.local.address && d.address in ms.faulty
    requires d.state == Alive || d.state == Suspect
    ensures d.incarnation <= ms.faulty[d.address].incarnation ==> OnUpdate(ms, d) == Step(ms, [Drop(d)])
    ensures d.incarnation > ms.faulty[d.address].incarnation ==>
      var r := OnUpdate(ms, d).ms;
      d.address !in r.faulty && r.members[d.address] == d
  {
  }

  /** A faulty update about an address the table does not hold as live is dropped. */
  lemma FaultyForUnknownIsDropped(ms: Membership, d: Member)
    requires d.state == Faulty && d.address != ms.local.address && d.address !in ms.members
    ensures OnUpdate(ms, d) == Step(ms, [Drop(d)])
  {
  }

  /** Applying the same update twice leaves the tables as applying it once. */
  lemma OnUpdateIdempotent(ms: Membership, d: Member)
    ensures var once := OnUpdate(ms, d).ms;
            OnUpdate(once, d).ms == once
  {
    var once := OnUpdate(ms, d).ms;
    if d.address == ms.local.address {
      BumpIsIdempotent(ms.local, d, d.state != Alive);
    }
  }

  /**
   * onSync is the one path that can lower a stored incarnation: it overwrites
   * the table with whatever record the peer sends about itself.
   */
  lemma SyncCanLowerIncarnation()
    ensures var peer := Member(None, "10.0.0.2:3000", Alive, 5);
            var ms := Init(Member(None, "10.0.0.1:3000", Alive, 0)).(members := map[peer.address := peer]);
            var stale := peer.(incarnation := 1);
            OnSync(ms, stale, peer.address).ms.members[peer.address].incarnation < ms.members[peer.address].incarnation
  {
  }

  /**
   * A suspicion that nothing refutes ends in the faulty side-table: when no
   * more recent record of the member is held, onSuspect followed by the
   * expiry of its timer leaves the member faulty at the suspected
   * incarnation, out of the live table, with no timer left.
   */
  lemma SuspicionEscalates(ms: Membership, m: Member)
    requires Valid(ms)
    requires m.address != ms.local.address
    requires m.address in ms.members ==> ms.members[m.address].incarnation <= m.incarnation
    requires m.address in ms.faulty ==> ms.faulty[m.address].incarnation < m.incarnation
    ensures var r := ExpireSuspicion(OnSuspect(ms, m).ms, m.address).ms;
            && m.address !in r.members
            && m.address !in r.suspects
            && m.address in r.faulty
            && r.faulty[m.address] == m.(state := Faulty)
  {
    var armed := ms.(suspects := ms.suspects[m.address := m.(state := Faulty)]);
    var s := m.(state := Suspect);
    var afterSuspect := OnUpdate(armed, s).ms;
    assert afterSuspect.suspects == armed.suspects;
    assert m.address in afterSuspect.members;
    assert afterSuspect.members[m.address].incarnation <= m.incarnation;
  }

  /** An accepted alive update cancels the pending suspicion of its address. */
  lemma AliveCancelsSuspicion(ms: Membership, d: Member)
    requires d.state == Alive && d.address != ms.local.address && Supersedes(ms, d)
    ensures d.address !in OnUpdate(ms, d).ms.suspects
  {
  }

  /** The finding: as written, updateFaulty leaves a faulty address in the probe rotation and emits no Change. */
  lemma UpdateFaultyAsWrittenKeepsRotation()
    ensures var peer := Member(None, "10.0.0.2:3000", Alive, 3);
            var ms := Init(Member(None, "10.0.0.1:3000", Alive, 0)).(
                        members := map[peer.address := peer], iterable := map[peer.address := peer]);
            var d := peer.(state := Faulty);
            var r := UpdateFaultyAsWritten(ms, d);
            && Valid(ms)
            && peer.address in r.ms.iterable && peer.address !in r.ms.members
            && !Valid(r.ms)
            && Change(d) !in r.events
  {
    var peer := Member(None, "10.0.0.2:3000", Alive, 3);
    var ms := Init(Member(None, "10.0.0.1:3000", Alive, 0)).(
                members := map[peer.address := peer], iterable := map[peer.address := peer]);
    var r := UpdateFaultyAsWritten(ms, peer.(state := Faulty));
    assert peer.address in r.ms.iterable && peer.address !in r.ms.members;
  }

  /** A sequence of choices is valid for next() when every choice is on offer at its turn. */
  ghost predicate ValidPicks(ms: Membership, picks: seq<Address>)
    decreases |picks|
  {
    |picks| == 0 ||
    ((Pool(ms) != map[] ==> picks[0] in Pool(ms)) && ValidPicks(Next(ms, picks[0]).ms, picks[1..]))
  }

  /** The members returned by a sequence of next() calls. */
  function Visits(ms: Membership, picks: seq<Address>): seq<Option<Member>>
    requires ValidPicks(ms, picks)
    decreases |picks|
  {
    if |picks| == 0 then []
    else [Next(ms, picks[0]).member] + Visits(Next(ms, picks[0]).ms, picks[1..])
  }

  /**
   * Inside a rotation every pick is a different address taken from the
   * rotation, and the rotation shrinks by exactly the picks.
   */
  lemma {:induction false} RotationPicksDistinct(ms: Membership, picks: seq<Address>)
    requires ValidPicks(ms, picks)
    requires ms.iterable != map[] && |picks| <= |ms.iterable|
    ensures forall i :: 0 <= i < |picks| ==> picks[i] in ms.iterable
    ensures forall i, j :: 0 <= i < j < |picks| ==> picks[i] != picks[j]
    ensures Visits(ms, picks) == seq(|picks|, i requires 0 <= i < |picks| => Some(ms.iterable[picks[i]]))
    decreases |picks|
  {
    if |picks| > 0 {
      var r := Next(ms, picks[0]);
      var rest := picks[1..];
      assert r.ms.iterable == ms.iterable - {picks[0]};
      assert |r.ms.iterable| == |ms.iterable| - 1;
      if |rest| > 0 {
        RotationPicksDistinct(r.ms, rest);
        assert forall i :: 0 <= i < |rest| ==> rest[i] in ms.iterable && rest[i] != picks[0];
      }
    }
  }

  /**
   * Round robin: starting a rotation (the rotation empty, the table not),
   * |members| calls of next() return every live member exactly once, each in
   * the order of the choices, and leave the rotation exhausted.
   */
  lemma {:induction false} FullRotationVisitsEachOnce(ms: Membership, picks: seq<Address>)
    requires ValidPicks(ms, picks)
    requires ms.iterable == map[] && ms.members != map[] && |picks| == |ms.members|
    ensures forall i, j :: 0 <= i < j < |picks| ==> picks[i] != picks[j]
    ensures (set i | 0 <= i < |picks| :: picks[i]) == ms.members.Keys
    ensures Visits(ms, picks) == seq(|picks|, i requires 0 <= i < |picks| => Some(ms.members[picks[i]]))
  {
    var full := ms.(iterable := ms.members);
    assert Next(ms, picks[0]) == Next(full, picks[0]);
    assert ValidPicks(full, picks);
    assert Visits(ms, picks) == Visits(full, picks);
    RotationPicksDistinct(full, picks);
    var s := set i | 0 <= i < |picks| :: picks[i];
    assert s <= ms.members.Keys;
    DistinctSeqSize(picks);
    SubsetOfEqualSize(s, ms.members.Keys);
  }

  /**
   * onAck's answer lets the suspect refute: the suspect, receiving its own
   * stored record, ends above that record's incarnation and still alive, and
   * its announcement then wins over the suspicion at the acking node.
   */
  lemma AckLeadsToRefutation(ms: Membership, from: Address, peer: Membership)
    requires Valid(ms)
    requires from != ms.local.address && from in ms.members && ms.members[from].state == Suspect
    requires peer.local.address == from && peer.local.state == Alive
    ensures var d := ms.members[from];
            var l := OnUpdate(peer, d).ms.local;
            && OnAck(ms, from) == [SentUpdate(from, d)]
            && l.address == from && l.state == Alive && l.incarnation > d.incarnation
            && Supersedes(ms, l)
            && OnUpdate(ms, l).ms.members[from] == l
  {
    var d := ms.members[from];
    assert d.address == from;
    assert from !in ms.faulty;
  }

  /** A table keyed by address holds as many distinct records as it has addresses. */
  lemma {:induction false} KeyedValuesCount(t: map<Address, Member>)
    requires Keyed(t)
    ensures |t.Values| == |t.Keys|
    decreases |t.Keys|
  {
    if t.Keys != {} {
      var k :| k in t.Keys;
      var rest := t - {k};
      assert Keyed(rest);
      KeyedValuesCount(rest);
      assert t.Keys == rest.Keys + {k};
      forall v | v in t.Values
        ensures v in rest.Values + {t[k]}
      {
        var j :| j in t && t[j] == v;
        if j != k {
          assert rest[j] == v;
        }
      }
      assert t.Values == rest.Values + {t[k]};
      assert forall j :: j in rest ==> rest[j].address != k;
      assert t[k] !in rest.Values;
    }
  }

  /** size(hasLocal) counts each live member once, plus the local member when asked. */
  lemma SizeCountsLiveMembers(ms: Membership, hasLocal: bool)
    requires Valid(ms)
    ensures Size(ms, hasLocal) == |ms.members.Values| + (if hasLocal then 1 else 0)
  {
    KeyedValuesCount(ms.members);
  }

  /** A sequence without repeats has as many distinct elements as it is long. */
  lemma {:induction false} DistinctSeqSize(xs: seq<Address>)
    requires forall i, j :: 0 <= i < j < |xs| ==> xs[i] != xs[j]
    ensures |set i | 0 <= i < |xs| :: xs[i]| == |xs|
  {
    if |xs| > 0 {
      var init := xs[..|xs| - 1];
      DistinctSeqSize(init);
      var s := set i | 0 <= i < |init| :: init[i];
      assert (set i | 0 <= i < |xs| :: xs[i]) == s + {xs[|xs| - 1]};
      assert xs[|xs| - 1] !in s;
    }
  }

  /** A subset as large as a finite set is the set. */
  lemma SubsetOfEqualSize(s: set<Address>, t: set<Address>)
    requires s <= t && |s| == |t|
    ensures s == t
  {
    var extra := t - s;
    assert t == s + extra && s * extra == {};
    assert |extra| == 0;
    assert extra == {};
  }
}
