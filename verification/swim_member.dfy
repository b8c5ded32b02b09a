/**
 * The member record of the SWIM rewrite (lib/swim-next/member.js): an address,
 * a state, an incarnation number and opaque metadata, together with the rule a
 * node uses to bump its own incarnation number when it refutes a rumour.
 *
 * The source stores the number under two names (`incarnation` and
 * `incarnationNumber`); the model keeps a single `incarnation` field.
 */
module SwimMember {
  import opened Wrappers

  type Address = string

  /** Member.State: three states, numbered in order of severity. */
  datatype State = Alive | Suspect | Faulty

  /** The numeric code a state carries in the source. */
  function Code(s: State): (c: nat)
    ensures 1 <= c <= 3
  {
    match s
    case Alive => 1
    case Suspect => 2
    case Faulty => 3
  }

  /** The codes order the states Alive < Suspect < Faulty, and no two states share a code. */
  lemma StateOrder()
    ensures Code(Alive) < Code(Suspect) < Code(Faulty)
    ensures forall s: State, t: State :: Code(s) == Code(t) ==> s == t
  {
  }

  datatype Member = Member(meta: Option<string>, address: Address, state: State, incarnation: nat)

  /** What a member is built from: every field but the address may be missing. */
  datatype MemberOpts = MemberOpts(meta: Option<string>, address: Address, state: Option<State>, incarnation: Option<nat>)

  /** The Member constructor: a missing state means Alive, a missing incarnation means 0. */
  function NewMember(opts: MemberOpts): (m: Member)
    ensures m.address == opts.address && m.meta == opts.meta
    ensures m.state == opts.state.GetOr(Alive)
    ensures m.incarnation == opts.incarnation.GetOr(0)
    ensures opts.state.None? && opts.incarnation.None? ==> m.state == Alive && m.incarnation == 0
  {
    Member(opts.meta, opts.address, opts.state.GetOr(Alive), opts.incarnation.GetOr(0))
  }

  /** The outcome of `bumpIncarnationNumber`: its boolean answer and the member afterwards. */
  datatype Bump = Bump(bumped: bool, member: Member)

  /**
   * bumpIncarnationNumber: with no data, step the incarnation by one; against
   * data with a higher incarnation, jump past it (adopting its metadata when
   * this member has never incarnated); against an equal incarnation, jump past
   * it only when forced; otherwise refuse.
   */
  function BumpIncarnation(m: Member, data: Option<Member>, force: bool): (r: Bump)
    ensures r.bumped <==>
      data.None? || data.value.incarnation > m.incarnation || (data.value.incarnation == m.incarnation && force)
    ensures !r.bumped ==> r.member == m
    ensures r.bumped ==> r.member.incarnation > m.incarnation
    ensures r.bumped && data.Some? ==> r.member.incarnation == data.value.incarnation + 1
    ensures data.None? ==> r.member.incarnation == m.incarnation + 1
    ensures r.member.address == m.address && r.member.state == m.state
    ensures r.member.meta != m.meta ==>
      data.Some? && m.incarnation == 0 && data.value.incarnation > 0 && r.member.meta == data.value.meta
    ensures data.Some? && data.value.incarnation > m.incarnation && m.incarnation == 0 ==>
      r.member.meta == data.value.meta
  {
    match data
    case None => Bump(true, m.(incarnation := m.incarnation + 1))
    case Some(d) =>
      if d.incarnation > m.incarnation then
        Bump(true, m.(meta := if m.incarnation == 0 then d.meta else m.meta, incarnation := d.incarnation + 1))
      else if d.incarnation == m.incarnation && force then
        Bump(true, m.(incarnation := d.incarnation + 1))
      else
        Bump(false, m)
  }

  /** Whatever the answer, the incarnation never goes down, and a bump always passes the remote value. */
  lemma BumpNeverLowers(m: Member, data: Member, force: bool)
    ensures BumpIncarnation(m, Some(data), force).member.incarnation >= m.incarnation
    ensures BumpIncarnation(m, Some(data), force).bumped ==>
      BumpIncarnation(m, Some(data), force).member.incarnation > data.incarnation
  {
  }

  /** Refuting the same rumour twice bumps only once: the second attempt is refused. */
  lemma BumpIsIdempotent(m: Member, data: Member, force: bool)
    ensures var once := BumpIncarnation(m, Some(data), force).member;
            !BumpIncarnation(once, Some(data), force).bumped || once == m
  {
  }
}
