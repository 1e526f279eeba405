/** Trusted User proposals: ballots over a moving number of active Trusted Users. */
module Ballots {
  import opened Wrappers
  import opened Comaintainers

  datatype Decision = Yes | No | Abstain | Invalid

  /** The counters of TU_VoteInfo; `voters` holds the user of every TU_Votes row, in order. */
  datatype Proposal = Proposal(subject: User, yes: nat, no: nat, abstain: nat, activeTUs: nat, quorum: real,
      voters: seq<User>)

  /** A ballot of `user`, and whether the user is a Trusted User. */
  datatype Ballot = Ballot(user: User, trustedUser: bool, decision: Decision)

  datatype Answer = Counted | NotTrustedUser | AboutYou | AlreadyVoted | InvalidDecision

  /** The checks of trusted_user_proposal_post, in order. */
  function AnswerTo(p: Proposal, b: Ballot): Answer
  {
    if !b.trustedUser then NotTrustedUser
    else if p.subject == b.user then AboutYou
    else if b.user in p.voters then AlreadyVoted
    else if b.decision.Invalid? then InvalidDecision
    else Counted
  }

  function Cast(p: Proposal, b: Ballot): Proposal
  {
    if AnswerTo(p, b) != Counted then p
    else
      var counted := match b.decision
        case Yes => p.(yes := p.yes + 1)
        case No => p.(no := p.no + 1)
        case Abstain => p.(abstain := p.abstain + 1)
        case Invalid => p;
      counted.(voters := p.voters + [b.user], activeTUs := p.activeTUs + 1)
  }

  function CastAll(p: Proposal, ballots: seq<Ballot>): Proposal
  {
    if ballots == [] then p else Cast(CastAll(p, ballots[..|ballots| - 1]), ballots[|ballots| - 1])
  }

  function Fresh(subject: User, activeTUs: nat, quorum: real): Proposal
  {
    Proposal(subject, 0, 0, 0, activeTUs, quorum, [])
  }

  function Total(p: Proposal): nat { p.yes + p.no + p.abstain }

  function Participation(p: Proposal): real
    requires Total(p) > 0 ==> p.activeTUs > 0
  {
    if Total(p) > 0 then Total(p) as real / p.activeTUs as real else 0.0
  }

  /** The acceptance formula of render_proposal. */
  predicate Accepted(p: Proposal)
    requires Total(p) > 0 ==> p.activeTUs > 0
  {
    p.yes as real > p.activeTUs as real / 2.0 || (Participation(p) > p.quorum && p.yes > p.no)
  }

  function Voters(p: Proposal): set<User> { set u | u in p.voters }

  /** Over every run of ballots: counters add up to the distinct voters, the number of
      active Trusted Users grew by one per voter, and the subject never voted. */
  ghost predicate Tallied(p: Proposal, subject: User, initial: nat)
  {
    && NoRepeats(p.voters) && p.subject == subject && subject !in p.voters
    && Total(p) == |p.voters| == |Voters(p)|
    && p.activeTUs == initial + |p.voters|
  }

  lemma CastTallied(p: Proposal, b: Ballot, subject: User, initial: nat)
    requires Tallied(p, subject, initial)
    ensures Tallied(Cast(p, b), subject, initial)
  {
    if AnswerTo(p, b) == Counted {
      NoRepeatsSnoc(p.voters, b.user);
      assert Voters(Cast(p, b)) == Voters(p) + {b.user};
    }
  }

  lemma {:induction false} RunTallied(subject: User, initial: nat, quorum: real, ballots: seq<Ballot>)
    ensures Tallied(CastAll(Fresh(subject, initial, quorum), ballots), subject, initial)
  {
    if ballots != [] {
      RunTallied(subject, initial, quorum, ballots[..|ballots| - 1]);
      var init, last := ballots[..|ballots| - 1], ballots[|ballots| - 1];
      CastTallied(CastAll(Fresh(subject, initial, quorum), init), last, subject, initial);
    }
  }

  /** Who has voted after a run: the Trusted Users other than the subject who handed in a
      ballot with a valid decision. */
  lemma {:induction false} RunVoters(subject: User, initial: nat, quorum: real, ballots: seq<Ballot>, u: User)
    ensures u in CastAll(Fresh(subject, initial, quorum), ballots).voters
       <==> u != subject && exists b :: b in ballots && b.user == u && b.trustedUser && !b.decision.Invalid?
  {
    if ballots != [] {
      var init, last := ballots[..|ballots| - 1], ballots[|ballots| - 1];
      RunVoters(subject, initial, quorum, init, u);
      RunTallied(subject, initial, quorum, init);
      assert forall b :: b in ballots <==> b in init || b == last;
    }
  }

  // ---------------------------------------------------------------------------
  // What a ballot counts for

  /** Which answer a ballot gets. */
  lemma AnswerIff(p: Proposal, b: Ballot)
    ensures AnswerTo(p, b) == NotTrustedUser <==> !b.trustedUser
    ensures AnswerTo(p, b) == AboutYou <==> b.trustedUser && b.user == p.subject
    ensures AnswerTo(p, b) == AlreadyVoted <==> b.trustedUser && b.user != p.subject && b.user in p.voters
    ensures AnswerTo(p, b) == InvalidDecision <==>
              b.trustedUser && b.user != p.subject && b.user !in p.voters && b.decision == Invalid
  {}

  /** The ballots for `d` that count: valid ones of Trusted Users other than the subject, the
      first valid one of each. */
  function CountedFor(subject: User, ballots: seq<Ballot>, d: Decision): set<nat>
  {
    set i | 0 <= i < |ballots| && ballots[i].decision == d && IsCounted(subject, ballots, i)
  }

  predicate IsCounted(subject: User, ballots: seq<Ballot>, i: nat)
    requires i < |ballots|
  {
    && MayCount(subject, ballots[i])
    && forall j | 0 <= j < i :: !(MayCount(subject, ballots[j]) && ballots[j].user == ballots[i].user)
  }

  predicate MayCount(subject: User, b: Ballot)
  {
    b.trustedUser && b.user != subject && b.decision != Invalid
  }

  lemma CountedSnoc(subject: User, init: seq<Ballot>, last: Ballot, d: Decision)
    ensures var all := init + [last];
            CountedFor(subject, all, d) == CountedFor(subject, init, d)
              + if last.decision == d && IsCounted(subject, all, |init|) then {|init|} else {}
  {
    var all := init + [last];
    forall i: nat | i < |init| ensures IsCounted(subject, all, i) <==> IsCounted(subject, init, i) {
      assert forall j | 0 <= j <= i :: all[j] == init[j];
    }
  }

  lemma LastIsCountedIff(subject: User, initial: nat, quorum: real, init: seq<Ballot>, last: Ballot)
    ensures IsCounted(subject, init + [last], |init|) <==>
              AnswerTo(CastAll(Fresh(subject, initial, quorum), init), last) == Counted
  {
    var all := init + [last];
    RunVoters(subject, initial, quorum, init, last.user);
    RunTallied(subject, initial, quorum, init);
    assert forall j | 0 <= j < |init| :: all[j] == init[j] && init[j] in init;
  }

  /** Over every run of ballots, each counter is the number of ballots for its decision that
      count. */
  lemma {:induction false} RunCounters(subject: User, initial: nat, quorum: real, ballots: seq<Ballot>)
    ensures var p := CastAll(Fresh(subject, initial, quorum), ballots);
            && p.yes == |CountedFor(subject, ballots, Yes)|
            && p.no == |CountedFor(subject, ballots, No)|
            && p.abstain == |CountedFor(subject, ballots, Abstain)|
            && p.quorum == quorum
  {
    if ballots == [] {
      assert forall d :: CountedFor(subject, [], d) == {};
    } else {
      var init, last := ballots[..|ballots| - 1], ballots[|ballots| - 1];
      assert ballots == init + [last];
      RunCounters(subject, initial, quorum, init);
      LastIsCountedIff(subject, initial, quorum, init, last);
      CountedSnoc(subject, init, last, Yes);
      CountedSnoc(subject, init, last, No);
      CountedSnoc(subject, init, last, Abstain);
    }
  }

  /** A proposal is accepted exactly when more than half of the active Trusted Users said Yes,
      or more than the quorum of them voted and Yes outnumbers No. */
  lemma AcceptedIff(p: Proposal)
    requires Total(p) > 0 && p.activeTUs > 0
    ensures Accepted(p) <==>
              || 2 * p.yes > p.activeTUs
              || (p.yes > p.no && (p.yes + p.no + p.abstain) as real > p.quorum * p.activeTUs as real)
  {
    QuotientAbove((p.yes + p.no + p.abstain) as real, p.activeTUs as real, p.quorum);
  }

  lemma QuotientAbove(x: real, y: real, q: real)
    requires y > 0.0
    ensures x / y > q <==> x > q * y
  {
    assert x == (x / y) * y;
    if x / y > q {
      assert (x / y - q) * y > 0.0;
    } else {
      assert (q - x / y) * y >= 0.0;
    }
  }

  lemma NoVoteIsNotAccepted(p: Proposal)
    requires Total(p) == 0
    ensures !Accepted(p)
  {}

  /** Participation never exceeds one. */
  lemma ParticipationAtMostOne(subject: User, initial: nat, quorum: real, ballots: seq<Ballot>)
    ensures var p := CastAll(Fresh(subject, initial, quorum), ballots);
            (Total(p) > 0 ==> p.activeTUs > 0) && 0.0 <= Participation(p) <= 1.0
  {
    RunTallied(subject, initial, quorum, ballots);
    var p := CastAll(Fresh(subject, initial, quorum), ballots);
    if Total(p) > 0 {
      FractionBounds(Total(p) as real, p.activeTUs as real);
    }
  }

  lemma FractionBounds(x: real, y: real)
    requires 0.0 <= x <= y && y > 0.0
    ensures 0.0 <= x / y <= 1.0
  {}

  lemma FractionGrows(x: real, y: real)
    requires 0.0 <= x <= y && y > 0.0
    ensures x / y <= (x + 1.0) / (y + 1.0)
  {
    var r := x / y;
    FractionBounds(x, y);
    assert x + 1.0 >= r * (y + 1.0);
    AtLeast(x + 1.0, y + 1.0, r);
  }

  lemma AtLeast(a: real, c: real, r: real)
    requires c > 0.0 && a >= r * c
    ensures a / c >= r
  {}

  /** One more Yes never turns an accepted proposal into a rejected one, although it also
      moves the denominator. */
  lemma YesKeepsAccepted(subject: User, initial: nat, quorum: real, ballots: seq<Ballot>, b: Ballot)
    requires b.decision.Yes?
    ensures var p := CastAll(Fresh(subject, initial, quorum), ballots);
            var q := CastAll(Fresh(subject, initial, quorum), ballots + [b]);
            && (Total(p) > 0 ==> p.activeTUs > 0) && (Total(q) > 0 ==> q.activeTUs > 0)
            && (Accepted(p) ==> Accepted(q))
  {
    var p := CastAll(Fresh(subject, initial, quorum), ballots);
    assert (ballots + [b])[..|ballots|] == ballots;
    RunTallied(subject, initial, quorum, ballots);
    RunTallied(subject, initial, quorum, ballots + [b]);
    if AnswerTo(p, b) == Counted && Total(p) > 0 {
      FractionGrows(Total(p) as real, p.activeTUs as real);
    }
  }

  class VoteInfo {
    var proposal: Proposal

    constructor (subject: User, activeTUs: nat, quorum: real)
      ensures proposal == Fresh(subject, activeTUs, quorum)
    {
      proposal := Fresh(subject, activeTUs, quorum);
    }

    /** trusted_user_proposal_post. */
    method Post(b: Ballot) returns (answer: Answer)
      modifies this
      ensures answer == AnswerTo(old(proposal), b) && proposal == Cast(old(proposal), b)
    {
      if !b.trustedUser {
        return NotTrustedUser;
      }
      if proposal.subject == b.user {
        return AboutYou;
      }
      if b.user in proposal.voters {
        return AlreadyVoted;
      }
      match b.decision {
        case Yes => proposal := proposal.(yes := proposal.yes + 1);
        case No => proposal := proposal.(no := proposal.no + 1);
        case Abstain => proposal := proposal.(abstain := proposal.abstain + 1);
        case Invalid => return InvalidDecision;
      }
      proposal := proposal.(voters := proposal.voters + [b.user], activeTUs := proposal.activeTUs + 1);
      answer := Counted;
    }
  }
}
