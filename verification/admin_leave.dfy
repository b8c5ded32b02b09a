/**
 * The admin leave endpoint (lib/admin-leave-recvr.js).
 *
 * Leaving is refused when there is no local member yet or when it has
 * already left; otherwise the local member is marked as leaving at its
 * current incarnation and gossip and suspicion stop. The membership's
 * makeLeave is not part of this model; its effect is assumed to be the
 * status change it is named for.
 */
module AdminLeave {
  import opened Wrappers
  import opened RingpopTypes

  /** The calls the handler makes, in order. */
  datatype LeaveEffect =
    | MakeLeave(address: Address, incarnationNumber: int) // membership.makeLeave
    | GossipStop                                          // gossip.stop
    | SuspicionStopAll                                    // suspicion.stopAll

  datatype LeaveReply =
    | InvalidLocalMemberError
    | RedundantLeaveError
      /** The reply 'ok', after the listed calls. */
    | Ok(effects: seq<LeaveEffect>)

  /** recvAdminLeave. */
  function RecvAdminLeave(local: Option<MemberRecord>, whoami: Address): (r: LeaveReply)
    ensures local.None? <==> r == InvalidLocalMemberError
    ensures r == RedundantLeaveError <==> local.Some? && local.value.status == LEAVE
    ensures r.Ok? ==> r.effects == [MakeLeave(whoami, local.value.incarnationNumber), GossipStop, SuspicionStopAll]
  {
    if local.None? then InvalidLocalMemberError
    else if local.value.status == LEAVE then RedundantLeaveError
    else Ok([MakeLeave(whoami, local.value.incarnationNumber), GossipStop, SuspicionStopAll])
  }

  /** The local member after the membership carries out a makeLeave, as assumed: status leave, same incarnation. */
  function AfterMakeLeave(local: MemberRecord, e: LeaveEffect): (m: MemberRecord)
    ensures e.MakeLeave? ==> m.status == LEAVE
  {
    match e
    case MakeLeave(_, inc) => local.(status := LEAVE, incarnationNumber := inc)
    case _ => local
  }

  /**
   * A successful leave marks the local member as leaving at its current
   * incarnation, and a second leave is then refused as redundant.
   */
  lemma SecondLeaveIsRedundant(local: MemberRecord, whoami: Address)
    ensures var r := RecvAdminLeave(Some(local), whoami);
            r.Ok? ==>
              var after := AfterMakeLeave(local, r.effects[0]);
              after.incarnationNumber == local.incarnationNumber
              && RecvAdminLeave(Some(after), whoami) == RedundantLeaveError
  {
  }
}
