/**
 * One damp-req round (lib/flap-damping/damp-req-sender.js).
 *
 * The sender asks a few reachable members whether they too see the flappy
 * member's score at or above the suppress limit, and decides after every
 * response: confirmed as soon as enough of them agree, not confirmed once
 * everyone has answered or once the outstanding answers could no longer
 * make up the difference. The callback fires at most once. Member
 * selection is random, so the selected targets are a parameter.
 */
module DampReqSender {
  import opened Wrappers
  import opened RingpopTypes

  const NoSelectableMembers: string := "No selectable damp-req members"

  /** What getRandomPingableMembers is asked for: how many, and whom to leave out. */
  datatype Selection = Selection(count: int, exclude: seq<Address>)

  /** One '/protocol/damp-req' call. */
  datatype Send = Send(host: Address, timeout: int, dampPendingAddr: Address)

  /**
   * The round's state: how many targets were asked, the transport or parse
   * failures so far, the scores reported so far, whether the callback has
   * fired, and the two thresholds.
   */
  datatype Round = Round(
    numTargets: nat,
    errors: nat,
    results: seq<DampScore>,
    calledBack: bool,
    suppressLimit: real,
    dampReqValue: int)

  datatype Launch =
    | Failed(message: string)
    | Launched(round: Round, sends: seq<Send>)

  /** The member selection a round starts with: the fanout, excluding the flappy member. */
  function TargetSelection(fanout: int, flappy: Address): (s: Selection)
    ensures s.count == fanout && s.exclude == [flappy]
  {
    Selection(fanout, [flappy])
  }

  /**
   * Targets that honour the selection (at most its count, none excluded) give
   * at most fanout requests, and none of them goes to the flappy member.
   */
  lemma SelectedTargetsHonourFanout(fanout: int, flappy: Address, targets: seq<Address>, timeout: int, suppressLimit: real, dampReqValue: int)
    requires |targets| <= TargetSelection(fanout, flappy).count
    requires forall i :: 0 <= i < |targets| ==> targets[i] !in TargetSelection(fanout, flappy).exclude
    ensures var l := SendDampReq(flappy, targets, timeout, suppressLimit, dampReqValue);
            l.Launched? ==> |l.sends| <= fanout && forall i :: 0 <= i < |l.sends| ==> l.sends[i].host != flappy
  {
  }

  /**
   * sendDampReq up to the sends: no targets is an error and sends nothing;
   * otherwise one request per target, each naming the flappy member.
   */
  function SendDampReq(flappy: Address, targets: seq<Address>, timeout: int, suppressLimit: real, dampReqValue: int): (l: Launch)
    ensures |targets| == 0 <==> l == Failed(NoSelectableMembers)
    ensures l.Launched? ==> l.round == Round(|targets|, 0, [], false, suppressLimit, dampReqValue)
    ensures l.Launched? ==> |l.sends| == |targets|
    ensures l.Launched? ==> forall i :: 0 <= i < |targets| ==> l.sends[i] == Send(targets[i], timeout, flappy)
  {
    if |targets| == 0 then Failed(NoSelectableMembers)
    else Launched(Round(|targets|, 0, [], false, suppressLimit, dampReqValue),
                  seq(|targets|, i requires 0 <= i < |targets| => Send(targets[i], timeout, flappy)))
  }

  /** The reported scores at or above the limit (`undefined >= x` is false). */
  function Confirmations(results: seq<DampScore>, limit: real): (n: nat)
    ensures n <= |results|
    decreases |results|
  {
    if |results| == 0 then 0
    else Confirmations(results[..|results| - 1], limit) + (if AtLeast(results[|results| - 1], limit) then 1 else 0)
  }

  function Completed(r: Round): nat
  {
    r.errors + |r.results|
  }

  function Confirmed(r: Round): nat
  {
    Confirmations(r.results, r.suppressLimit)
  }

  /** The three termination rules of onComplete, in order; None is "keep waiting" (or already called back). */
  function Decision(r: Round): (d: Option<bool>)
    ensures r.calledBack ==> d.None?
    ensures d == Some(true) <==> !r.calledBack && Confirmed(r) >= r.dampReqValue
    ensures d == Some(false) <==> !r.calledBack && Confirmed(r) < r.dampReqValue
                                  && (Completed(r) >= r.numTargets
                                      || r.dampReqValue - Confirmed(r) > r.numTargets - Completed(r))
    ensures d.None? && !r.calledBack ==> Completed(r) < r.numTargets
  {
    if r.calledBack then None
    else if Confirmed(r) >= r.dampReqValue then Some(true)
    else if Completed(r) >= r.numTargets then Some(false)
    else if r.dampReqValue - Confirmed(r) > r.numTargets - Completed(r) then Some(false)
    else None
  }

  /** onComplete: decide, and remember that the callback fired. */
  function OnComplete(r: Round): (res: (Round, Option<bool>))
    ensures res.1 == Decision(r)
    ensures res.0.calledBack <==> r.calledBack || res.1.Some?
    ensures res.0.(calledBack := r.calledBack) == r
    ensures res.1.Some? ==> Decision(res.0).None?
  {
    var d := Decision(r);
    (r.(calledBack := r.calledBack || d.Some?), d)
  }

  /** How a damp-req call came back. */
  datatype Response =
    | TransportError
    | Unparseable
      /** A parsed body and the score it reports (Unscored when it carries none). */
    | Parsed(dampScore: DampScore)

  /** onSend: file the response as an error or a result, then run onComplete. */
  function OnSend(r: Round, resp: Response): (res: (Round, Option<bool>))
  {
    var filed := if resp.Parsed? then r.(results := r.results + [resp.dampScore]) else r.(errors := r.errors + 1);
    OnComplete(filed)
  }

  /** Responses arriving one after another: the final state and every callback fired, in order. */
  function Run(r: Round, rs: seq<Response>): (res: (Round, seq<bool>))
    decreases |rs|
  {
    if |rs| == 0 then (r, [])
    else
      var (r1, d) := OnSend(r, rs[0]);
      var (r2, cbs) := Run(r1, rs[1..]);
      (r2, (if d.Some? then [d.value] else []) + cbs)
  }

  /** The responses that count as confirmations. */
  function Agreeing(rs: seq<Response>, limit: real): (n: nat)
    decreases |rs|
  {
    if |rs| == 0 then 0
    else (if rs[0].Parsed? && AtLeast(rs[0].dampScore, limit) then 1 else 0) + Agreeing(rs[1..], limit)
  }

  /**
   * Every response completes exactly one request, and only parsed responses
   * reporting a score at or above the limit add a confirmation: transport
   * errors and unparseable bodies never do. The thresholds never change.
   */
  lemma {:induction false} RunCounts(r: Round, rs: seq<Response>)
    ensures var f := Run(r, rs).0;
            Completed(f) == Completed(r) + |rs| && Confirmed(f) == Confirmed(r) + Agreeing(rs, r.suppressLimit)
    ensures var f := Run(r, rs).0;
            f.numTargets == r.numTargets && f.suppressLimit == r.suppressLimit && f.dampReqValue == r.dampReqValue
    decreases |rs|
  {
    if |rs| > 0 {
      var filed := if rs[0].Parsed? then r.(results := r.results + [rs[0].dampScore]) else r.(errors := r.errors + 1);
      if rs[0].Parsed? {
        assert (r.results + [rs[0].dampScore])[..|r.results|] == r.results;
      }
      RunCounts(OnSend(r, rs[0]).0, rs[1..]);
    }
  }

  /** The callback fires at most once over any sequence of responses, and never after it has fired. */
  lemma {:induction false} AtMostOnce(r: Round, rs: seq<Response>)
    ensures |Run(r, rs).1| <= (if r.calledBack then 0 else 1)
    ensures Run(r, rs).0.calledBack <==> r.calledBack || |Run(r, rs).1| == 1
    decreases |rs|
  {
    if |rs| > 0 {
      AtMostOnce(OnSend(r, rs[0]).0, rs[1..]);
    }
  }

  /**
   * Once every target has answered, the callback has fired exactly once:
   * a round never hangs.
   */
  lemma {:induction false} EventualDecision(r: Round, rs: seq<Response>)
    requires !r.calledBack && |rs| > 0 && Completed(r) + |rs| >= r.numTargets
    ensures |Run(r, rs).1| == 1
    decreases |rs|
  {
    var (r1, d) := OnSend(r, rs[0]);
    AtMostOnce(r1, rs[1..]);
    if d.None? {
      assert !r1.calledBack && Completed(r1) == Completed(r) + 1;
      EventualDecision(r1, rs[1..]);
    }
  }

  /**
   * The early failure is sound: when the confirmations still missing exceed
   * the requests still outstanding, no way the remaining targets can answer
   * reaches the required number.
   */
  lemma EarlyFailureIsSound(r: Round, rs: seq<Response>)
    requires r.dampReqValue - Confirmed(r) > r.numTargets - Completed(r)
    requires Completed(r) + |rs| <= r.numTargets
    ensures Confirmed(Run(r, rs).0) < r.dampReqValue
  {
    RunCounts(r, rs);
    AgreeingAtMost(rs, r.suppressLimit);
  }

  lemma {:induction false} AgreeingAtMost(rs: seq<Response>, limit: real)
    ensures Agreeing(rs, limit) <= |rs|
    decreases |rs|
  {
    if |rs| > 0 {
      AgreeingAtMost(rs[1..], limit);
    }
  }

  /**
   * With a fanout of 3 and one confirmation required: one agreeing answer
   * confirms at once, three disagreeing answers fail at the third, and a
   * missing score never confirms.
   */
  lemma QuorumExamples(limit: real)
    ensures var r := Round(3, 0, [], false, limit, 1);
            OnSend(r, Parsed(Scored(limit))).1 == Some(true)
    ensures var r := Round(3, 0, [], false, limit, 1);
            Run(r, [Parsed(Scored(limit - 1.0)), TransportError, Parsed(Unscored)]).1 == [false]
    ensures var r := Round(3, 0, [], false, limit, 1);
            Run(r, [Parsed(Scored(limit - 1.0)), TransportError]).1 == []
    ensures var r := Round(3, 0, [], false, limit, 3);
            Run(r, [Unparseable]).1 == [false]
  {
    // The first two responses decide nothing; the third completes the round without a confirmation.
    var r0 := Round(3, 0, [], false, limit, 1);
    var r1 := OnSend(r0, Parsed(Scored(limit - 1.0))).0;
    var r2 := OnSend(r1, TransportError).0;
    assert Confirmations(r2.results + [Unscored], limit) == 0 by { assert (r2.results + [Unscored])[..1] == r2.results; }
    assert Run(r2, [Parsed(Unscored)]).1 == [false];
    assert Run(r1, [TransportError]).1 == [];
    assert Run(r1, [TransportError, Parsed(Unscored)]).1 == [false];
  }
}
