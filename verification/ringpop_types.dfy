/**
 * Records shared by the dissemination buffer, the update handler and flap
 * damping. Statuses are the strings the library compares against; damp
 * scores follow JavaScript number semantics closely enough to show where an
 * undefined score turns into NaN.
 */
module RingpopTypes {
  import opened Wrappers

  type Address = string
  type Status = string

  const ALIVE: Status := "alive"
  const SUSPECT: Status := "suspect"
  const FAULTY: Status := "faulty"
  const LEAVE: Status := "leave"
  const DAMPED: Status := "damped"

  /**
   * A damp score as JavaScript holds it: undefined (the member never
   * flapped), a number, or NaN (what arithmetic on undefined yields).
   */
  datatype DampScore = Unscored | Scored(value: real) | NotANumber

  /** `s < x` in JavaScript: false unless s is a number below x. */
  predicate Below(s: DampScore, x: real)
  {
    s.Scored? && s.value < x
  }

  /** `s >= x` in JavaScript: false unless s is a number at least x. */
  predicate AtLeast(s: DampScore, x: real)
  {
    s.Scored? && s.value >= x
  }

  /** `s + x` in JavaScript, for a number x. */
  function Plus(s: DampScore, x: real): (r: DampScore)
    ensures r.Scored? <==> s.Scored?
    ensures r.Scored? ==> r.value == s.value + x
  {
    match s
    case Scored(v) => Scored(v + x)
    case _ => NotANumber
  }

  /** `s * x` in JavaScript, for a number x. */
  function Times(s: DampScore, x: real): (r: DampScore)
    ensures r.Scored? <==> s.Scored?
    ensures r.Scored? ==> r.value == s.value * x
  {
    match s
    case Scored(v) => Scored(v * x)
    case _ => NotANumber
  }

  /**
   * A membership change: who reported it, about whom, the new status and
   * incarnation, and for damped members the score and time that go with it
   * (Unscored and None stand for absent properties).
   */
  datatype Change = Change(
    source: Address,
    address: Address,
    status: Status,
    incarnationNumber: int,
    dampScore: DampScore,
    timestamp: Option<int>)

  /** A member as the membership list holds it. */
  datatype MemberRecord = MemberRecord(address: Address, status: Status, incarnationNumber: int, dampScore: DampScore)

  /** findMemberByAddress: the position of the first member with the address, if any. */
  function FindMember(members: seq<MemberRecord>, a: Address): (r: Option<nat>)
    ensures r.Some? ==> r.value < |members| && members[r.value].address == a
    ensures r.Some? ==> forall j :: 0 <= j < r.value ==> members[j].address != a
    ensures r.None? ==> forall j :: 0 <= j < |members| ==> members[j].address != a
    decreases |members|
  {
    if |members| == 0 then None
    else if members[0].address == a then Some(0)
    else match FindMember(members[1..], a)
      case None => None
      case Some(i) => Some(i + 1)
  }
}
