/** Voting as interleaved half-steps: the look-up, the row write and the recomputation of
    NumVotes are separate transactions, and those of many requests may be interleaved. */
module VoteCounts {
  import opened Wrappers
  import opened Popularity

  datatype Intent = Cast | Withdraw

  /** A request after its look-up, or after its row write with the recomputation to come. */
  datatype Task = Checked(intent: Intent, user: string, base: string, found: bool) | Written(base: string)

  datatype System = System(votes: seq<Vote>, numVotes: map<string, nat>, tasks: map<nat, Task>)

  datatype Step =
    | Look(id: nat, intent: Intent, user: string, base: string)
    | Write(id: nat, now: int)
    | Recompute(id: nat)
    | Sweep

  predicate HasVote(votes: seq<Vote>, user: string, base: string)
  {
    exists v :: v in votes && v.user == user && v.base == base
  }

  function Without(votes: seq<Vote>, user: string, base: string): seq<Vote>
  {
    if votes == [] then []
    else (if votes[0].user == user && votes[0].base == base then [] else [votes[0]]) + Without(votes[1..], user, base)
  }

  /** The write of a vote or unvote request.  A vote that lost a race violates the unique
      index and ends the request; deleting a row that is already gone deletes nothing. */
  function WriteStep(s: System, id: nat, t: Task, now: int): System
    requires t.Checked?
  {
    match t.intent
    case Cast =>
      if t.found || HasVote(s.votes, t.user, t.base) then s.(tasks := s.tasks - {id})
      else s.(votes := s.votes + [Vote(t.user, t.base, Some(now))], tasks := s.tasks[id := Written(t.base)])
    case Withdraw =>
      if !t.found then s.(tasks := s.tasks - {id})
      else s.(votes := Without(s.votes, t.user, t.base), tasks := s.tasks[id := Written(t.base)])
  }

  function Next(s: System, step: Step): System
  {
    match step
    case Look(id, intent, user, base) =>
      if id in s.tasks || base !in s.numVotes then s
      else s.(tasks := s.tasks[id := Checked(intent, user, base, HasVote(s.votes, user, base))])
    case Write(id, now) =>
      if id in s.tasks && s.tasks[id].Checked? then WriteStep(s, id, s.tasks[id], now) else s
    case Recompute(id) =>
      if id in s.tasks && s.tasks[id].Written? then
        var base := s.tasks[id].base;
        s.(numVotes := s.numVotes[base := NumVotes(s.votes, base)], tasks := s.tasks - {id})
      else s
    case Sweep => s.(numVotes := map base | base in s.numVotes :: NumVotes(s.votes, base))
  }

  function Run(s: System, steps: seq<Step>): System
  {
    if steps == [] then s else Next(Run(s, steps[..|steps| - 1]), steps[|steps| - 1])
  }

  /** Requests that still owe `base` a recomputation. */
  function Pending(s: System, base: string): set<nat>
  {
    set id | id in s.tasks && s.tasks[id] == Written(base)
  }

  /** One row per user and base. */
  ghost predicate OneVoteEach(votes: seq<Vote>)
  {
    forall i, j | 0 <= i < j < |votes| :: votes[i].user != votes[j].user || votes[i].base != votes[j].base
  }

  /** NumVotes is off by at most the number of pending recomputations. */
  ghost predicate Bounded(s: System, base: string)
  {
    base in s.numVotes ==>
      -|Pending(s, base)| <= s.numVotes[base] - NumVotes(s.votes, base) <= |Pending(s, base)|
  }

  ghost predicate Inv(s: System)
  {
    && OneVoteEach(s.votes)
    && (forall id | id in s.tasks :: s.tasks[id].base in s.numVotes)
    && (forall base :: Bounded(s, base))
  }

  lemma {:induction false} WithoutMembers(votes: seq<Vote>, user: string, base: string)
    ensures forall v :: v in Without(votes, user, base) <==> v in votes && !(v.user == user && v.base == base)
  {
    if votes != [] {
      WithoutMembers(votes[1..], user, base);
    }
  }

  lemma OneVoteEachTail(votes: seq<Vote>)
    requires OneVoteEach(votes) && votes != []
    ensures OneVoteEach(votes[1..])
    ensures forall v | v in votes[1..] :: v.user != votes[0].user || v.base != votes[0].base
  {
    var rest := votes[1..];
    forall i, j | 0 <= i < j < |rest| ensures rest[i].user != rest[j].user || rest[i].base != rest[j].base {
      assert rest[i] == votes[i + 1] && rest[j] == votes[j + 1];
    }
    forall i | 0 <= i < |rest| ensures rest[i].user != votes[0].user || rest[i].base != votes[0].base {
      assert rest[i] == votes[i + 1];
    }
  }

  lemma {:induction false} WithoutOne(votes: seq<Vote>, user: string, base: string)
    requires OneVoteEach(votes)
    ensures OneVoteEach(Without(votes, user, base))
  {
    if votes != [] {
      var v, kept := votes[0], Without(votes[1..], user, base);
      OneVoteEachTail(votes);
      WithoutOne(votes[1..], user, base);
      WithoutMembers(votes[1..], user, base);
      var all := [v] + kept;
      forall i, j | 0 <= i < j < |all| ensures all[i].user != all[j].user || all[i].base != all[j].base {
        assert all[j] == kept[j - 1] && kept[j - 1] in kept;
        assert i > 0 ==> all[i] == kept[i - 1];
      }
    }
  }

  lemma {:induction false} WithoutCount(votes: seq<Vote>, user: string, base: string, other: string)
    requires OneVoteEach(votes)
    ensures NumVotes(Without(votes, user, base), other)
         == NumVotes(votes, other) - if other == base && HasVote(votes, user, base) then 1 else 0
  {
    if votes != [] {
      var v, kept := votes[0], Without(votes[1..], user, base);
      OneVoteEachTail(votes);
      WithoutCount(votes[1..], user, base, other);
      assert forall w :: w in votes <==> w == v || w in votes[1..];
      assert HasVote(votes, user, base) <==> (v.user == user && v.base == base) || HasVote(votes[1..], user, base);
      if v.user == user && v.base == base {
        assert !HasVote(votes[1..], user, base);
        assert Without(votes, user, base) == kept;
      } else {
        assert Without(votes, user, base) == [v] + kept;
        assert ([v] + kept)[1..] == kept;
      }
    }
  }

  lemma PendingAfterWrite(s: System, id: nat, base: string, s': System, other: string)
    requires id in s.tasks && s.tasks[id].Checked? && s'.tasks == s.tasks[id := Written(base)]
    ensures |Pending(s', other)| == |Pending(s, other)| + if other == base then 1 else 0
  {
    if other == base {
      assert Pending(s', other) == Pending(s, other) + {id};
    } else {
      assert Pending(s', other) == Pending(s, other);
    }
  }

  lemma WriteKeepsInv(s: System, id: nat, now: int)
    requires Inv(s) && id in s.tasks && s.tasks[id].Checked?
    ensures Inv(WriteStep(s, id, s.tasks[id], now))
  {
    var t := s.tasks[id];
    var s' := WriteStep(s, id, t, now);
    forall base ensures Bounded(s', base) {
      assert Bounded(s, base);
      if s'.votes == s.votes && s'.tasks == s.tasks - {id} {
        assert Pending(s', base) == Pending(s, base);
      } else {
        PendingAfterWrite(s, id, t.base, s', base);
        if t.intent.Cast? {
          NumVotesAppend(s.votes, Vote(t.user, t.base, Some(now)), base);
        } else {
          WithoutCount(s.votes, t.user, t.base, base);
        }
      }
    }
    if t.intent.Withdraw? {
      WithoutOne(s.votes, t.user, t.base);
    } else {
      assert !HasVote(s.votes, t.user, t.base) ==>
               forall i | 0 <= i < |s.votes| ::
                   s.votes[i] in s.votes && (s.votes[i].user != t.user || s.votes[i].base != t.base);
    }
  }

  lemma RecomputeKeepsInv(s: System, id: nat)
    requires Inv(s) && id in s.tasks && s.tasks[id].Written?
    ensures Inv(Next(s, Recompute(id)))
  {
    var s' := Next(s, Recompute(id));
    forall base ensures Bounded(s', base) {
      assert Bounded(s, base);
      if base != s.tasks[id].base {
        assert Pending(s', base) == Pending(s, base);
      }
    }
  }

  lemma NextKeepsInv(s: System, step: Step)
    requires Inv(s)
    ensures Inv(Next(s, step))
  {
    var s' := Next(s, step);
    match step
    case Look(id, intent, user, base) =>
      forall other ensures Bounded(s', other) {
        assert Bounded(s, other);
        assert Pending(s', other) == Pending(s, other);
      }
    case Write(id, now) =>
      if id in s.tasks && s.tasks[id].Checked? {
        WriteKeepsInv(s, id, now);
      }
    case Recompute(id) =>
      if id in s.tasks && s.tasks[id].Written? {
        RecomputeKeepsInv(s, id);
      }
    case Sweep =>
  }

  function Start(bases: set<string>): System
  {
    System([], map base | base in bases :: 0, map[])
  }

  lemma {:induction false} RunKeepsInv(bases: set<string>, steps: seq<Step>)
    ensures Inv(Run(Start(bases), steps))
    ensures Run(Start(bases), steps).numVotes.Keys == bases
  {
    if steps != [] {
      RunKeepsInv(bases, steps[..|steps| - 1]);
      NextKeepsInv(Run(Start(bases), steps[..|steps| - 1]), steps[|steps| - 1]);
    }
  }

  /** Under every interleaving a user has at most one vote row per base, and NumVotes
      differs from the number of rows by at most the recomputations still owed: it is exact
      for every base none is owed to. */
  lemma CountsAreExactWhenSettled(bases: set<string>, steps: seq<Step>, base: string)
    requires base in bases
    ensures var s := Run(Start(bases), steps);
            && OneVoteEach(s.votes)
            && base in s.numVotes
            && -|Pending(s, base)| <= s.numVotes[base] - NumVotes(s.votes, base) <= |Pending(s, base)|
            && (Pending(s, base) == {} ==> s.numVotes[base] == NumVotes(s.votes, base))
  {
    RunKeepsInv(bases, steps);
    assert Bounded(Run(Start(bases), steps), base);
  }

  // ---------------------------------------------------------------------------
  // What the half-steps bring about

  /** A look-up remembers who wants what and whether there is a vote; it changes nothing else. */
  lemma LookOutcome(s: System, id: nat, intent: Intent, user: string, base: string)
    requires id !in s.tasks && base in s.numVotes
    ensures var s' := Next(s, Look(id, intent, user, base));
            && s'.votes == s.votes && s'.numVotes == s.numVotes && s'.tasks.Keys == s.tasks.Keys + {id}
            && (forall other | other in s.tasks :: s'.tasks[other] == s.tasks[other])
            && s'.tasks[id] == Checked(intent, user, base, exists v :: v in s.votes && v.user == user && v.base == base)
  {}

  /** The write of a request that found what it was to change: whoever wrote in between, a
      vote is there afterwards, dated now if there was none, or none is, and the base has a
      recomputation to come if a row changed.  Votes of others are untouched. */
  lemma WriteOutcome(s: System, id: nat, now: int)
    requires id in s.tasks && s.tasks[id].Checked?
    ensures var t, s' := s.tasks[id], Next(s, Write(id, now));
            && s'.numVotes == s.numVotes
            && (forall v: Vote | !(v.user == t.user && v.base == t.base) :: v in s'.votes <==> v in s.votes)
            && (t.intent == Cast && !t.found ==> HasVote(s'.votes, t.user, t.base))
            && (t.intent == Cast && !t.found && !HasVote(s.votes, t.user, t.base) ==>
                  Vote(t.user, t.base, Some(now)) in s'.votes && s'.tasks == s.tasks[id := Written(t.base)])
            && (t.intent == Cast && HasVote(s.votes, t.user, t.base) ==> s'.votes == s.votes)
            && (t.intent == Withdraw && t.found ==>
                  !HasVote(s'.votes, t.user, t.base) && s'.tasks == s.tasks[id := Written(t.base)])
            && (t.found == (t.intent == Cast) ==> s'.votes == s.votes && s'.tasks == s.tasks - {id})
  {
    var t := s.tasks[id];
    WithoutMembers(s.votes, t.user, t.base);
    var added := Vote(t.user, t.base, Some(now));
    assert added in s.votes + [added];
  }

  /** A recomputation makes the count of its base exact and ends the request; the sweep does
      so for all bases. */
  lemma RecomputeOutcome(s: System, id: nat, base: string)
    requires base in s.numVotes
    ensures var s' := Next(s, Sweep);
            s'.votes == s.votes && s'.tasks == s.tasks && base in s'.numVotes
            && s'.numVotes[base] == |RowsFor(s.votes, base)|
    ensures id in s.tasks && s.tasks[id] == Written(base) ==>
              var s' := Next(s, Recompute(id));
              && s'.votes == s.votes && s'.tasks == s.tasks - {id}
              && s'.numVotes.Keys == s.numVotes.Keys && s'.numVotes[base] == |RowsFor(s.votes, base)|
              && forall other | other in s.numVotes && other != base :: s'.numVotes[other] == s.numVotes[other]
  {
    NumVotesCounts(s.votes, base);
  }
}
