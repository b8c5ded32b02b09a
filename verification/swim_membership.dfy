/**
 * The membership table of the SWIM rewrite (lib/swim-next/membership.js).
 *
 * A node keeps four tables keyed by address: the live members, the members
 * still to be visited in the current probe rotation, a sticky side-table of
 * members declared faulty, and the pending suspicion timers. Incoming updates
 * are reconciled against these tables by incarnation number; updates about
 * the local node never touch them and instead make the node refute the rumour
 * by bumping its own incarnation. The event emitter becomes a log of events
 * returned with the new tables, and each timer becomes the faulty update it
 * will fire.
 */
module SwimMembership {
  import opened Wrappers
  import opened SwimMember

  /** What the membership emits or sends while handling one input. */
  datatype Event =
    | Change(member: Member)                 // a new address entered the member table
    | Drop(member: Member)                   // an update was rejected
    | Updated(member: Member)                // an update, or a local refutation, took effect
    | SentUpdate(to: Address, member: Member) // the stored record is sent to a peer
    | SentTable(to: Address, table: set<Member>) // every member, the local one included, is sent to a peer

  datatype Membership = Membership(
    local: Member,
    members: map<Address, Member>,   // addressToMember
    iterable: map<Address, Member>,  // addressToIterable: not yet visited in this rotation
    faulty: map<Address, Member>,    // addressToFaulty
    suspects: map<Address, Member>)  // addressToSuspectTimeout: the faulty update each timer fires

  /** The tables after handling one input, and what was emitted meanwhile. */
  datatype Step = Step(ms: Membership, events: seq<Event>)

  /** A fresh membership around the local member, with empty tables. */
  function Init(local: Member): (ms: Membership)
    ensures ms.local == local && Valid(ms)
    ensures ms.members == map[] && ms.faulty == map[] && ms.suspects == map[]
  {
    Membership(local, map[], map[], map[], map[])
  }

  /** Every record of a table is filed under its own address. */
  ghost predicate Keyed(t: map<Address, Member>)
  {
    forall a :: a in t ==> t[a].address == a
  }

  /**
   * The structural invariant of the tables: records are filed under their own
   * addresses, a faulty address is never also a live member, the rotation only
   * holds live members, and every timer fires a faulty update.
   */
  ghost predicate Valid(ms: Membership)
  {
    && Keyed(ms.members) && Keyed(ms.iterable) && Keyed(ms.faulty) && Keyed(ms.suspects)
    && ms.members.Keys !! ms.faulty.Keys
    && ms.iterable.Keys <= ms.members.Keys
    && (forall a :: a in ms.suspects ==> ms.suspects[a].state == Faulty)
  }

  /** The incarnation the tables hold for an address, live or faulty. */
  function Stored(ms: Membership, a: Address): Option<nat>
  {
    if a in ms.members then Some(ms.members[a].incarnation)
    else if a in ms.faulty then Some(ms.faulty[a].incarnation)
    else None
  }

  /** True when the faulty side-table vetoes a non-faulty update. */
  predicate FaultyVetoes(ms: Membership, d: Member)
  {
    d.address in ms.faulty && ms.faulty[d.address].incarnation >= d.incarnation
  }

  /**
   * The reconciliation rule for an update about another node, per state: an
   * alive update must carry a strictly higher incarnation, a suspect update
   * may also tie with a stored Alive record, and a faulty update needs a live
   * record with an incarnation no higher than its own. Alive and suspect
   * updates are vetoed by a faulty record at least as recent.
   */
  predicate Supersedes(ms: Membership, d: Member)
  {
    var a := d.address;
    match d.state
    case Alive =>
      !FaultyVetoes(ms, d) && (a !in ms.members || d.incarnation > ms.members[a].incarnation)
    case Suspect =>
      && !FaultyVetoes(ms, d)
      && (|| a !in ms.members
          || d.incarnation > ms.members[a].incarnation
          || (d.incarnation == ms.members[a].incarnation && ms.members[a].state == Alive))
    case Faulty =>
      a in ms.members && d.incarnation >= ms.members[a].incarnation
  }

  /** The local node answers a rumour about itself; the tables are left alone. */
  function Refute(ms: Membership, d: Member, force: bool): (r: Step)
    requires d.address == ms.local.address
    ensures r.ms.members == ms.members && r.ms.iterable == ms.iterable
    ensures r.ms.faulty == ms.faulty && r.ms.suspects == ms.suspects
    ensures r.ms.local == BumpIncarnation(ms.local, Some(d), force).member
  {
    var b := BumpIncarnation(ms.local, Some(d), force);
    if force then
      Step(ms.(local := b.member), [Drop(d), Updated(b.member)])
    else if b.bumped then
      Step(ms.(local := b.member), [Updated(b.member)])
    else
      Step(ms, [Drop(d)])
  }

  /** updateAlive. */
  function UpdateAlive(ms: Membership, d: Member): (r: Step)
    requires d.state == Alive
    ensures d.address == ms.local.address ==> r == Refute(ms, d, false)
    ensures d.address != ms.local.address && !Supersedes(ms, d) ==> r == Step(ms, [Drop(d)])
    ensures d.address != ms.local.address && Supersedes(ms, d) ==>
      && r.ms.members == ms.members[d.address := d]
      && r.ms.faulty == ms.faulty - {d.address}
      && r.ms.suspects == ms.suspects - {d.address}
      && r.ms.local == ms.local
      && (d.address !in ms.members ==> r.ms.iterable == ms.iterable[d.address := d] && r.events == [Change(d), Updated(d)])
      && (d.address in ms.members ==> r.ms.iterable == ms.iterable && r.events == [Updated(d)])
  {
    var a := d.address;
    if a == ms.local.address then
      Refute(ms, d, false)
    else if a in ms.faulty && ms.faulty[a].incarnation >= d.incarnation then
      Step(ms, [Drop(d)])
    else if a !in ms.members || d.incarnation > ms.members[a].incarnation then
      var cleared := ms.(suspects := ms.suspects - {a}, faulty := ms.faulty - {a});
      if a !in ms.members then
        Step(cleared.(members := ms.members[a := d], iterable := ms.iterable[a := d]), [Change(d), Updated(d)])
      else
        Step(cleared.(members := ms.members[a := d]), [Updated(d)])
    else
      Step(ms, [Drop(d)])
  }

  /** updateSuspect; unlike updateAlive it leaves the suspicion timers alone. */
  function UpdateSuspect(ms: Membership, d: Member): (r: Step)
    requires d.state == Suspect
    ensures d.address == ms.local.address ==> r == Refute(ms, d, true)
    ensures d.address != ms.local.address && !Supersedes(ms, d) ==> r == Step(ms, [Drop(d)])
    ensures d.address != ms.local.address && Supersedes(ms, d) ==>
      && r.ms.members == ms.members[d.address := d]
      && r.ms.faulty == ms.faulty - {d.address}
      && r.ms.suspects == ms.suspects
      && r.ms.local == ms.local
      && (d.address !in ms.members ==> r.ms.iterable == ms.iterable[d.address := d] && r.events == [Change(d), Updated(d)])
      && (d.address in ms.members ==> r.ms.iterable == ms.iterable && r.events == [Updated(d)])
  {
    var a := d.address;
    if a == ms.local.address then
      Refute(ms, d, true)
    else if a in ms.faulty && ms.faulty[a].incarnation >= d.incarnation then
      Step(ms, [Drop(d)])
    else if || a !in ms.members
            || d.incarnation > ms.members[a].incarnation
            || (d.incarnation == ms.members[a].incarnation && ms.members[a].state == Alive) then
      var cleared := ms.(faulty := ms.faulty - {a});
      if a !in ms.members then
        Step(cleared.(members := ms.members[a := d], iterable := ms.iterable[a := d]), [Change(d), Updated(d)])
      else
        Step(cleared.(members := ms.members[a := d]), [Updated(d)])
    else
      Step(ms, [Drop(d)])
  }

  /**
   * updateFaulty as the source writes it: the member is deleted from the
   * table before the check meant to clean up the rotation, so that check
   * always fails, the address stays in the rotation and no Change is emitted.
   */
  function UpdateFaultyAsWritten(ms: Membership, d: Member): (r: Step)
    requires d.state == Faulty
    ensures d.address == ms.local.address ==> r == Refute(ms, d, true)
    ensures d.address != ms.local.address && !Supersedes(ms, d) ==> r == Step(ms, [Drop(d)])
    ensures d.address != ms.local.address && Supersedes(ms, d) ==>
      && r.ms.members == ms.members - {d.address}
      && r.ms.faulty == ms.faulty[d.address := d]
      && r.ms.iterable == ms.iterable
      && r.ms.suspects == ms.suspects
      && r.ms.local == ms.local
      && r.events == [Updated(d)]
  {
    var a := d.address;
    if a == ms.local.address then
      Refute(ms, d, true)
    else if a in ms.members && d.incarnation >= ms.members[a].incarnation then
      var moved := ms.(faulty := ms.faulty[a := d], members := ms.members - {a});
      if a in moved.members then
        Step(moved.(iterable := moved.iterable - {a}), [Change(d), Updated(d)])
      else
        Step(moved, [Updated(d)])
    else
      Step(ms, [Drop(d)])
  }

  /**
   * updateFaulty as evidently intended: the accepted faulty member leaves the
   * live table and the rotation, enters the faulty side-table, and a Change
   * is emitted because the member set shrank.
   */
  function UpdateFaulty(ms: Membership, d: Member): (r: Step)
    requires d.state == Faulty
    ensures d.address == ms.local.address ==> r == Refute(ms, d, true)
    ensures d.address != ms.local.address && !Supersedes(ms, d) ==> r == Step(ms, [Drop(d)])
    ensures d.address != ms.local.address && Supersedes(ms, d) ==>
      && r.ms.members == ms.members - {d.address}
      && r.ms.faulty == ms.faulty[d.address := d]
      && r.ms.iterable == ms.iterable - {d.address}
      && r.ms.suspects == ms.suspects
      && r.ms.local == ms.local
      && r.events == [Change(d), Updated(d)]
  {
    var a := d.address;
    if a == ms.local.address then
      Refute(ms, d, true)
    else if a in ms.members && d.incarnation >= ms.members[a].incarnation then
      Step(ms.(faulty := ms.faulty[a := d], members := ms.members - {a}, iterable := ms.iterable - {a}),
           [Change(d), Updated(d)])
    else
      Step(ms, [Drop(d)])
  }

  /** onUpdate: dispatch on the update's state (with the intended faulty path). */
  function OnUpdate(ms: Membership, d: Member): (r: Step)
    ensures d.address == ms.local.address ==>
      r.ms.(local := ms.local) == ms && r.ms.local.incarnation >= ms.local.incarnation
    ensures d.address != ms.local.address ==> r.ms.local == ms.local
    ensures d.address != ms.local.address && !Supersedes(ms, d) ==> r.ms == ms
    ensures d.address != ms.local.address && Supersedes(ms, d) && d.state == Faulty ==>
      d.address !in r.ms.members && d.address !in r.ms.iterable && d.address in r.ms.faulty && r.ms.faulty[d.address] == d
    ensures d.address != ms.local.address && Supersedes(ms, d) && d.state != Faulty ==>
      d.address in r.ms.members && r.ms.members[d.address] == d && d.address !in r.ms.faulty
  {
    match d.state
    case Alive => UpdateAlive(ms, d)
    case Suspect => UpdateSuspect(ms, d)
    case Faulty => UpdateFaulty(ms, d)
  }

  /**
   * onSuspect: arm a timer for the member's address (replacing any timer
   * already pending there) that will fire the same record as faulty, then
   * apply the member as suspect.
   */
  function OnSuspect(ms: Membership, m: Member): (r: Step)
    ensures r.ms.suspects == ms.suspects[m.address := m.(state := Faulty)]
    ensures r.ms.suspects[m.address].incarnation == m.incarnation
    ensures var applied := OnUpdate(ms, m.(state := Suspect));
            r.events == applied.events
            && r.ms == applied.ms.(suspects := ms.suspects[m.address := m.(state := Faulty)])
  {
    OnUpdate(ms.(suspects := ms.suspects[m.address := m.(state := Faulty)]), m.(state := Suspect))
  }

  /**
   * The suspicion timer for `a` expires: it is forgotten and its faulty
   * update re-enters onUpdate. A timer that was cleared never fires.
   */
  function ExpireSuspicion(ms: Membership, a: Address): (r: Step)
    ensures a !in ms.suspects ==> r == Step(ms, [])
    ensures a !in ms.suspects || ms.suspects[a].address == a ==> r.ms.suspects == ms.suspects - {a}
    ensures a in ms.suspects && ms.suspects[a].address == a && a == ms.local.address ==>
      r.ms.members == ms.members && r.ms.faulty == ms.faulty && r.ms.local.incarnation >= ms.local.incarnation
    ensures a in ms.suspects && ms.suspects[a].address == a && ms.suspects[a].state == Faulty && a != ms.local.address ==>
      var t := ms.suspects[a];
      if a in ms.members && t.incarnation >= ms.members[a].incarnation then
        a !in r.ms.members && a !in r.ms.iterable && a in r.ms.faulty && r.ms.faulty[a] == t && r.events == [Change(t), Updated(t)]
      else
        r.ms == ms.(suspects := ms.suspects - {a}) && r.events == [Drop(t)]
  {
    if a in ms.suspects then
      OnUpdate(ms.(suspects := ms.suspects - {a}), ms.suspects[a])
    else
      Step(ms, [])
  }

  /**
   * onSync: a peer at `from` pushes its own record. A record about another
   * address is dropped. Otherwise the record overwrites the table whatever its
   * incarnation (the stored record is sent back first when it is at least as
   * recent), and the whole table is sent to the peer.
   */
  function OnSync(ms: Membership, d: Member, from: Address): (r: Step)
    ensures d.address != from ==> r == Step(ms, [Drop(d)])
    ensures d.address == from ==>
      && r.ms.members == ms.members[from := d]
      && r.ms.iterable == ms.iterable[from := d]
      && r.ms.faulty == ms.faulty - {from}
      && r.ms.suspects == ms.suspects && r.ms.local == ms.local
    ensures d.address == from && from in ms.members && ms.members[from].incarnation >= d.incarnation ==>
      r.events == [SentUpdate(from, ms.members[from]), Updated(d), SentTable(from, r.ms.members.Values + {ms.local})]
    ensures d.address == from && !(from in ms.members && ms.members[from].incarnation >= d.incarnation) ==>
      r.events == [Updated(d), SentTable(from, r.ms.members.Values + {ms.local})]
  {
    if d.address != from then
      Step(ms, [Drop(d)])
    else
      var reply := if from in ms.members && ms.members[from].incarnation >= d.incarnation
                   then [SentUpdate(from, ms.members[from])] else [];
      var synced := ms.(faulty := ms.faulty - {from}, members := ms.members[from := d], iterable := ms.iterable[from := d]);
      Step(synced, reply + [Updated(d), SentTable(from, synced.members.Values + {synced.local})])
  }

  /** onAck: a suspect that answers a probe is sent its stored record, so it can refute. */
  function OnAck(ms: Membership, from: Address): (r: seq<Event>)
    ensures r != [] <==> from in ms.members && ms.members[from].state == Suspect
    ensures r != [] ==> r == [SentUpdate(from, ms.members[from])]
  {
    if from in ms.members && ms.members[from].state == Suspect then [SentUpdate(from, ms.members[from])] else []
  }

  /** shuffle: restart the rotation with every live member. */
  function Shuffle(ms: Membership): (r: Membership)
    ensures r.iterable.Keys == ms.members.Keys
    ensures forall a :: a in r.iterable ==> r.iterable[a] == ms.members[a]
    ensures r.(iterable := ms.iterable) == ms
    ensures Valid(ms) ==> Valid(r)
  {
    ms.(iterable := ms.members)
  }

  /** The members next() chooses from: the rotation, refilled only once it is exhausted. */
  function Pool(ms: Membership): map<Address, Member>
  {
    if ms.iterable == map[] then Shuffle(ms).iterable else ms.iterable
  }

  datatype Picked = Picked(ms: Membership, member: Option<Member>)

  /**
   * next(): take the member at the randomly chosen address `pick` out of the
   * rotation. The random choice is the parameter; it must be one of the
   * addresses on offer whenever there is one.
   */
  function Next(ms: Membership, pick: Address): (r: Picked)
    requires Pool(ms) != map[] ==> pick in Pool(ms)
    ensures r.member.Some? <==> ms.iterable != map[] || ms.members != map[]
    ensures r.member.Some? ==> pick in Pool(ms) && r.member.value == Pool(ms)[pick]
    ensures ms.iterable != map[] ==> r.ms.iterable == ms.iterable - {pick}
    ensures ms.iterable == map[] ==> r.ms.iterable == ms.members - {pick}
    ensures r.ms.(iterable := ms.iterable) == ms
  {
    var pool := Pool(ms);
    if pick in pool then Picked(ms.(iterable := pool - {pick}), Some(pool[pick]))
    else Picked(ms.(iterable := pool), None)
  }

  /** size(hasLocal): the live members, plus one for the local member when asked. */
  function Size(ms: Membership, hasLocal: bool): nat
  {
    |ms.members| + (if hasLocal then 1 else 0)
  }

  /** all(hasLocal): every live member once, followed by the local member when asked. */
  method All(ms: Membership, hasLocal: bool) returns (r: seq<Member>)
    ensures |r| == Size(ms, hasLocal)
    ensures forall a :: a in ms.members ==> ms.members[a] in r
    ensures forall i :: 0 <= i < |ms.members| ==> r[i] in ms.members.Values
    ensures hasLocal ==> r[|r| - 1] == ms.local
  {
    r := [];
    var rest := ms.members.Keys;
    while rest != {}
      invariant rest <= ms.members.Keys
      invariant |r| + |rest| == |ms.members|
      invariant forall a :: a in ms.members && a !in rest ==> ms.members[a] in r
      invariant forall i :: 0 <= i < |r| ==> r[i] in ms.members.Values
      decreases rest
    {
      var a :| a in rest;
      r := r + [ms.members[a]];
      rest := rest - {a};
    }
    if hasLocal {
      r := r + [ms.local];
    }
  }

  /**
   * random(n): a partial Fisher-Yates draw of min(n, size) distinct live
   * members; which ones is the random choice, left open here.
   */
  method Random(ms: Membership, n: int) returns (picked: seq<Address>, selected: seq<Member>)
    ensures |picked| == |selected| == (if n <= 0 then 0 else if n < |ms.members| then n else |ms.members|)
    ensures forall i :: 0 <= i < |picked| ==> picked[i] in ms.members && selected[i] == ms.members[picked[i]]
    ensures forall i, j :: 0 <= i < j < |picked| ==> picked[i] != picked[j]
  {
    picked, selected := [], [];
    var rest := ms.members.Keys;
    while |picked| < n && rest != {}
      invariant rest <= ms.members.Keys
      invariant |picked| == |selected|
      invariant |picked| + |rest| == |ms.members|
      invariant n <= 0 ==> picked == []
      invariant |picked| <= n || n <= 0
      invariant forall i :: 0 <= i < |picked| ==> picked[i] in ms.members && picked[i] !in rest && selected[i] == ms.members[picked[i]]
      invariant forall i, j :: 0 <= i < j < |picked| ==> picked[i] != picked[j]
      decreases rest
    {
      var a :| a in rest;
      picked, selected := picked + [a], selected + [ms.members[a]];
      rest := rest - {a};
    }
  }
}
