/**
 * Starting the damping subprotocol and acting on its outcome
 * (lib/flap-damping/subprotocol.js).
 *
 * At most one round runs per address: the pending set guards the start,
 * and the round's callback clears it again, except after an error.
 */
module Subprotocol {
  import opened Wrappers
  import opened RingpopTypes

  datatype Initiation =
    | AlreadyPending
    | AlreadyDamped
      /** A round was launched for `member`; `pending` now holds its address. */
    | Started(pending: set<Address>, member: MemberRecord)

  /** initiateSubprotocol: the two guards, then mark pending and send damp-reqs. */
  function InitiateSubprotocol(pending: set<Address>, m: MemberRecord): (r: Initiation)
    ensures m.address in pending ==> r == AlreadyPending
    ensures m.address !in pending && m.status == DAMPED ==> r == AlreadyDamped
    ensures r.Started? ==> r.pending == pending + {m.address} && r.member == m
  {
    if m.address in pending then AlreadyPending
    else if m.status == DAMPED then AlreadyDamped
    else Started(pending + {m.address}, m)
  }

  /** membership.makeDamped(address, incarnationNumber, dampScore). */
  datatype MakeDamped = MakeDamped(address: Address, incarnationNumber: int, dampScore: DampScore)

  datatype Handled = Handled(pending: set<Address>, makeDamped: Option<MakeDamped>)

  /**
   * onDampReq: an error leaves everything as it is (the address stays
   * pending); otherwise a confirmation damps the member and either outcome
   * clears the pending mark.
   */
  function OnDampReq(pending: set<Address>, m: MemberRecord, err: bool, confirmed: bool): (r: Handled)
    ensures err ==> r == Handled(pending, None)
    ensures !err ==> r.pending == pending - {m.address}
    ensures r.makeDamped.Some? <==> !err && confirmed
    ensures r.makeDamped.Some? ==> r.makeDamped.value == MakeDamped(m.address, m.incarnationNumber, m.dampScore)
  {
    if err then Handled(pending, None)
    else if confirmed then Handled(pending - {m.address}, Some(MakeDamped(m.address, m.incarnationNumber, m.dampScore)))
    else Handled(pending - {m.address}, None)
  }

  /**
   * Starting a round is possible exactly when none is pending and the member
   * is not damped, and a second start for the same address is refused while
   * the first is pending.
   */
  lemma OneRoundPerAddress(pending: set<Address>, m: MemberRecord, again: MemberRecord)
    requires again.address == m.address
    ensures InitiateSubprotocol(pending, m).Started? <==> m.address !in pending && m.status != DAMPED
    ensures var r := InitiateSubprotocol(pending, m);
            r.Started? ==> InitiateSubprotocol(r.pending, again) == AlreadyPending
  {
  }

  /**
   * A completed round (confirmed or not) frees the address: the member can
   * be put through the subprotocol again unless it was damped meanwhile.
   * Other pending addresses are not affected.
   */
  lemma CompletedRoundFreesAddress(pending: set<Address>, m: MemberRecord, confirmed: bool, later: MemberRecord)
    requires later.address == m.address && later.status != DAMPED
    ensures var r := InitiateSubprotocol(pending, m);
            r.Started? ==>
              var h := OnDampReq(r.pending, m, false, confirmed);
              h.pending == pending - {m.address} && InitiateSubprotocol(h.pending, later).Started?
  {
  }

  /** After an error the address stays pending, so every later start for it is refused. */
  lemma ErrorLeavesAddressPending(pending: set<Address>, m: MemberRecord, confirmed: bool, later: MemberRecord)
    requires later.address == m.address
    ensures var r := InitiateSubprotocol(pending, m);
            r.Started? ==>
              var h := OnDampReq(r.pending, m, true, confirmed);
              h.makeDamped.None? && InitiateSubprotocol(h.pending, later) == AlreadyPending
  {
  }
}
