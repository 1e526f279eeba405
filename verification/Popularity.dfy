/** NumVotes and the decaying popularity, as recomputed from the vote rows. */
module Popularity {
  import opened Wrappers
  import opened Sequences

  datatype Vote = Vote(user: string, base: string, ts: Option<int>)

  /** `b` to an integer power.  `b` is the decay of one second: over the 86400 seconds of a
      day it amounts to the source's 0.98. */
  function Pow(b: real, n: int): real
    requires b > 0.0
    decreases if n < 0 then -n else n
  {
    if n == 0 then 1.0
    else if n > 0 then b * Pow(b, n - 1)
    else Pow(b, n + 1) / b
  }

  lemma PowSucc(b: real, n: int)
    requires b > 0.0
    ensures Pow(b, n + 1) == b * Pow(b, n)
  {
    if n < 0 {
      assert Pow(b, n) == Pow(b, n + 1) / b;
    }
  }

  /** `w` is one at age zero and loses the factor `b` with every second. */
  ghost predicate Geometric(w: int -> real, b: real)
  {
    w(0) == 1.0 && forall age :: LosesFactor(w, b, age)
  }

  ghost predicate LosesFactor(w: int -> real, b: real, age: int) { w(age + 1) == b * w(age) }

  lemma {:induction false} WeightsMultiply(w: int -> real, b: real, m: int, n: int)
    requires b > 0.0 && Geometric(w, b)
    ensures w(m + n) == w(m) * w(n)
    decreases if n < 0 then -n else n
  {
    if n > 0 {
      WeightsMultiply(w, b, m, n - 1);
      assert LosesFactor(w, b, m + (n - 1)) && LosesFactor(w, b, n - 1);
      OneFactorMore(b, w(m), w(n - 1), w(m + (n - 1)), w(n), w(m + n));
    } else if n < 0 {
      WeightsMultiply(w, b, m, n + 1);
      assert LosesFactor(w, b, m + n) && LosesFactor(w, b, n);
      assert m + (n + 1) == (m + n) + 1;
      OneFactorLess(b, w(m), w(n + 1), w(m + (n + 1)), w(n), w(m + n));
    }
  }

  lemma OneFactorMore(b: real, p: real, q: real, pq: real, q': real, pq': real)
    requires pq == p * q && q' == b * q && pq' == b * pq
    ensures pq' == p * q'
  {}

  lemma OneFactorLess(b: real, p: real, q: real, pq: real, q': real, pq': real)
    requires b > 0.0 && pq == p * q && q == b * q' && pq == b * pq'
    ensures pq' == p * q'
  {
    assert b * pq' == b * (p * q');
  }

  /** The weight of a vote by its age in seconds. */
  function Decaying(b: real): int -> real
    requires b > 0.0
  {
    (age: int) => Pow(b, age)
  }

  lemma DecayingGeometric(b: real)
    requires b > 0.0
    ensures Geometric(Decaying(b), b)
  {
    forall age ensures LosesFactor(Decaying(b), b, age) {
      PowSucc(b, age);
    }
  }

  lemma {:induction false} PowPositive(b: real, n: int)
    requires b > 0.0
    ensures Pow(b, n) > 0.0
    decreases if n < 0 then -n else n
  {
    if n > 0 {
      PowPositive(b, n - 1);
    } else if n < 0 {
      PowPositive(b, n + 1);
    }
  }

  lemma {:induction false} PowAtMostOne(b: real, n: nat)
    requires 0.0 < b <= 1.0
    ensures Pow(b, n) <= 1.0
  {
    if n > 0 {
      PowAtMostOne(b, n - 1);
      PowPositive(b, n - 1);
      Shrinks(b, Pow(b, n - 1));
    }
  }

  lemma Shrinks(b: real, x: real)
    requires b <= 1.0 && x >= 0.0
    ensures b * x <= x
  {}

  /** The votes subquery: rows of one base. */
  function NumVotes(votes: seq<Vote>, base: string): nat
  {
    if votes == [] then 0 else (if votes[0].base == base then 1 else 0) + NumVotes(votes[1..], base)
  }

  /** The popularity subquery: each dated vote counts with the weight of its age. */
  function Weighted(w: int -> real, votes: seq<Vote>, base: string, now: int): real
  {
    if votes == [] then 0.0 else Weight(w, votes[0], base, now) + Weighted(w, votes[1..], base, now)
  }

  function Weight(w: int -> real, v: Vote, base: string, now: int): real
  {
    if v.base == base && v.ts.Some? then w(now - v.ts.value) else 0.0
  }

  function Popularity(b: real, votes: seq<Vote>, base: string, now: int): real
    requires b > 0.0
  {
    Weighted(Decaying(b), votes, base, now)
  }

  lemma {:induction false} WeightedDecays(w: int -> real, b: real, votes: seq<Vote>, base: string, now: int, d: int)
    requires b > 0.0 && Geometric(w, b)
    ensures Weighted(w, votes, base, now + d) == w(d) * Weighted(w, votes, base, now)
  {
    if votes != [] {
      var v := votes[0];
      WeightedDecays(w, b, votes[1..], base, now, d);
      if v.base == base && v.ts.Some? {
        WeightsMultiply(w, b, d, now - v.ts.value);
        assert d + (now - v.ts.value) == (now + d) - v.ts.value;
      }
      Distribute(w(d), Weight(w, v, base, now), Weighted(w, votes[1..], base, now));
    }
  }

  lemma Distribute(x: real, y: real, z: real)
    ensures x * (y + z) == x * y + x * z
  {}

  lemma ScaleKeepsOrder(k: real, x: real, y: real, x': real, y': real)
    requires k > 0.0 && x' == k * x && y' == k * y
    ensures x < y <==> x' < y'
  {}

  // ---------------------------------------------------------------------------
  // What a vote counts for

  lemma {:induction false} WeightedAppend(w: int -> real, votes: seq<Vote>, v: Vote, base: string, now: int)
    ensures Weighted(w, votes + [v], base, now) == Weighted(w, votes, base, now) + Weight(w, v, base, now)
  {
    if votes == [] {
      assert votes + [v] == [v] && [v][1..] == [];
    } else {
      WeightedAppend(w, votes[1..], v, base, now);
      assert (votes + [v])[1..] == votes[1..] + [v];
    }
  }

  /** Without votes popularity is zero.  A vote adds the decay by its age if it is dated and
      for the base, and nothing otherwise. */
  lemma PopularityAppend(b: real, votes: seq<Vote>, v: Vote, base: string, now: int)
    requires b > 0.0
    ensures Popularity(b, [], base, now) == 0.0
    ensures v.base == base && v.ts.Some? ==>
              Popularity(b, votes + [v], base, now) == Popularity(b, votes, base, now) + Pow(b, now - v.ts.value)
    ensures v.base != base || v.ts == None ==> Popularity(b, votes + [v], base, now) == Popularity(b, votes, base, now)
  {
    WeightedAppend(Decaying(b), votes, v, base, now);
  }

  /** The decay is one at age zero, `b` times as much a second later, and `rate` to the power
      k after k days of a decay that amounts to `rate` a day. */
  lemma DecayOfAges(b: real, rate: real, day: nat, k: nat, age: int)
    requires b > 0.0 && rate > 0.0 && Pow(b, day) == rate
    ensures Pow(b, 0) == 1.0 && Pow(b, age + 1) == b * Pow(b, age)
    ensures Pow(b, day * k) == Pow(rate, k)
  {
    PowSucc(b, age);
    assert Decaying(b)(day * k) == Decaying(rate)(k) by {
      DecayingGeometric(b);
      DecayingGeometric(rate);
      assert Decaying(b)(day) == rate;
      RepeatedDecay(Decaying(b), b, Decaying(rate), rate, day, k);
    }
  }

  /** A vote of this second counts one, a vote exactly k days old `rate` to the power k. */
  lemma NewVoteCountsOne(b: real, votes: seq<Vote>, user: string, base: string, now: int)
    requires b > 0.0
    ensures Popularity(b, votes + [Vote(user, base, Some(now))], base, now) == Popularity(b, votes, base, now) + 1.0
  {
    PopularityAppend(b, votes, Vote(user, base, Some(now)), base, now);
  }

  lemma OldVoteCounts(b: real, rate: real, day: nat, votes: seq<Vote>, user: string, base: string, now: int, k: nat,
                      ts: int)
    requires b > 0.0 && rate > 0.0 && Pow(b, day) == rate && now - ts == day * k
    ensures Popularity(b, votes + [Vote(user, base, Some(ts))], base, now)
         == Popularity(b, votes, base, now) + Pow(rate, k)
  {
    PopularityAppend(b, votes, Vote(user, base, Some(ts)), base, now);
    DecayOfAges(b, rate, day, k, 0);
  }

  lemma {:induction false} WeightedConcat(w: int -> real, s: seq<Vote>, t: seq<Vote>, base: string, now: int)
    ensures Weighted(w, s + t, base, now) == Weighted(w, s, base, now) + Weighted(w, t, base, now)
  {
    if s == [] {
      assert s + t == t;
    } else {
      WeightedConcat(w, s[1..], t, base, now);
      assert (s + t)[1..] == s[1..] + t;
    }
  }

  lemma {:induction false} WeightedPermutation(w: int -> real, s: seq<Vote>, t: seq<Vote>, base: string, now: int)
    requires multiset(s) == multiset(t)
    ensures Weighted(w, s, base, now) == Weighted(w, t, base, now)
  {
    if s == [] {
      assert |multiset(t)| == 0;
    } else {
      var i := FirstTakenOut(s, t);
      WeightedPermutation(w, s[1..], t[..i] + t[i + 1..], base, now);
      WeightedTakeOut(w, t, i, base, now);
    }
  }

  lemma WeightedTakeOut(w: int -> real, t: seq<Vote>, i: nat, base: string, now: int)
    requires i < |t|
    ensures Weighted(w, t, base, now) == Weight(w, t[i], base, now) + Weighted(w, t[..i] + t[i + 1..], base, now)
  {
    var front, back := t[..i], t[i + 1..];
    assert t == front + ([t[i]] + back);
    WeightedConcat(w, front, back, base, now);
    WeightedConcat(w, front, [t[i]] + back, base, now);
    assert ([t[i]] + back)[1..] == back;
  }

  /** The order of the vote rows does not matter. */
  lemma PopularityPermutation(b: real, s: seq<Vote>, t: seq<Vote>, base: string, now: int)
    requires b > 0.0 && multiset(s) == multiset(t)
    ensures Popularity(b, s, base, now) == Popularity(b, t, base, now)
  {
    WeightedPermutation(Decaying(b), s, t, base, now);
  }

  /** The rows of votes for `base`. */
  function RowsFor(votes: seq<Vote>, base: string): set<nat>
  {
    set i | 0 <= i < |votes| && votes[i].base == base
  }

  lemma {:induction false} NumVotesAppend(votes: seq<Vote>, v: Vote, base: string)
    ensures NumVotes(votes + [v], base) == NumVotes(votes, base) + if v.base == base then 1 else 0
  {
    if votes == [] {
      assert votes + [v] == [v];
    } else {
      NumVotesAppend(votes[1..], v, base);
      assert (votes + [v])[1..] == votes[1..] + [v];
    }
  }

  /** NumVotes is the number of vote rows of the base. */
  lemma {:induction false} NumVotesCounts(votes: seq<Vote>, base: string)
    ensures NumVotes(votes, base) == |RowsFor(votes, base)|
  {
    if votes == [] {
      assert RowsFor(votes, base) == {};
    } else {
      var n := |votes| - 1;
      var init, last := votes[..n], votes[n];
      assert votes == init + [last];
      NumVotesCounts(init, base);
      NumVotesAppend(init, last, base);
      assert RowsFor(votes, base) == RowsFor(init, base) + if last.base == base then {n} else {};
    }
  }

  lemma Rescale(x: real, y: real, factor: real, x': real, y': real)
    requires x == factor * y && x' == x && y' == y
    ensures x' == factor * y'
  {}

  /** Without vote changes, popularity after `d` more seconds is today's times the decay
      over `d` seconds. */
  lemma PopularityDecays(b: real, votes: seq<Vote>, base: string, now: int, d: int)
    requires b > 0.0
    ensures Popularity(b, votes, base, now + d) == Decaying(b)(d) * Popularity(b, votes, base, now)
  {
    var w := Decaying(b);
    assert Weighted(w, votes, base, now + d) == w(d) * Weighted(w, votes, base, now) by {
      DecayingGeometric(b);
      WeightedDecays(w, b, votes, base, now, d);
    }
    Rescale(Weighted(w, votes, base, now + d), Weighted(w, votes, base, now), w(d),
            Popularity(b, votes, base, now + d), Popularity(b, votes, base, now));
  }

  lemma {:induction false} RepeatedDecay(w: int -> real, b: real, days: int -> real, rate: real, day: int, k: nat)
    requires b > 0.0 && Geometric(w, b) && Geometric(days, rate) && w(day) == rate
    ensures w(day * k) == days(k)
  {
    if k > 0 {
      RepeatedDecay(w, b, days, rate, day, k - 1);
      WeightsMultiply(w, b, day, day * (k - 1));
      assert day * k == day + day * (k - 1);
      assert LosesFactor(days, rate, k - 1);
    }
  }

  lemma WeightedDaysDecay(w: int -> real, b: real, days: int -> real, rate: real, day: int, k: nat,
                          votes: seq<Vote>, base: string, now: int, d: int, factor: real)
    requires b > 0.0 && Geometric(w, b) && Geometric(days, rate) && w(day) == rate
    requires d == day * k && factor == days(k)
    ensures Weighted(w, votes, base, now + d) == factor * Weighted(w, votes, base, now)
  {
    RepeatedDecay(w, b, days, rate, day, k);
    WeightedDecays(w, b, votes, base, now, d);
    assert w(d) == factor;
  }

  /** With the per-second decay chosen so that a day multiplies by `rate` (86400 seconds and
      0.98 in the query), `k` days without vote changes multiply popularity by `rate` to the
      power `k`. */
  lemma DailyDecay(b: real, rate: real, day: nat, votes: seq<Vote>, base: string, now: int,
                   k: nat, d: int, factor: real)
    requires b > 0.0 && rate > 0.0 && Decaying(b)(day) == rate
    requires d == day * k && factor == Decaying(rate)(k)
    ensures Popularity(b, votes, base, now + d) == factor * Popularity(b, votes, base, now)
  {
    var w := Decaying(b);
    assert Weighted(w, votes, base, now + d) == factor * Weighted(w, votes, base, now) by {
      DecayingGeometric(b);
      DecayingGeometric(rate);
      WeightedDaysDecay(w, b, Decaying(rate), rate, day, k, votes, base, now, d, factor);
    }
    Rescale(Weighted(w, votes, base, now + d), Weighted(w, votes, base, now), factor,
            Popularity(b, votes, base, now + d), Popularity(b, votes, base, now));
  }

  lemma WeightedRank(w: int -> real, b: real, votes: seq<Vote>, p: string, q: string, now: int, later: int)
    requires b > 0.0 && Geometric(w, b) && w(later - now) > 0.0
    ensures Weighted(w, votes, p, now) < Weighted(w, votes, q, now)
        <==> Weighted(w, votes, p, later) < Weighted(w, votes, q, later)
  {
    var d := later - now;
    WeightedDecays(w, b, votes, p, now, d);
    WeightedDecays(w, b, votes, q, now, d);
    assert now + d == later;
    var x, y := Weighted(w, votes, p, now), Weighted(w, votes, q, now);
    var x', y' := Weighted(w, votes, p, later), Weighted(w, votes, q, later);
    ScaleKeepsOrder(w(d), x, y, x', y');
  }

  /** A weight that is positive, and at most one for ages that are not negative. */
  ghost predicate Fading(w: int -> real)
  {
    forall age :: w(age) > 0.0 && (age >= 0 ==> w(age) <= 1.0)
  }

  lemma {:induction false} WeightedBounds(w: int -> real, votes: seq<Vote>, base: string, now: int)
    requires Fading(w)
    requires forall v | v in votes && v.base == base && v.ts.Some? :: v.ts.value <= now
    ensures 0.0 <= Weighted(w, votes, base, now) <= NumVotes(votes, base) as real
  {
    if votes != [] {
      assert votes[0] in votes;
      assert forall v | v in votes[1..] :: v in votes;
      WeightedBounds(w, votes[1..], base, now);
    }
  }

  /** When no vote lies in the future, popularity lies between 0 and NumVotes. */
  lemma PopularityBounds(b: real, votes: seq<Vote>, base: string, now: int)
    requires 0.0 < b <= 1.0
    requires forall v | v in votes && v.base == base && v.ts.Some? :: v.ts.value <= now
    ensures 0.0 <= Popularity(b, votes, base, now) <= NumVotes(votes, base) as real
  {
    var w := Decaying(b);
    forall age ensures w(age) > 0.0 && (age >= 0 ==> w(age) <= 1.0) {
      PowPositive(b, age);
      if age >= 0 {
        PowAtMostOne(b, age);
      }
    }
    WeightedBounds(w, votes, base, now);
  }

  datatype Cached = Cached(numVotes: nat, popularity: real)

  /** The cached columns of all bases, with those in `ids` recomputed (all when empty). */
  function Recomputed(b: real, cached: map<string, Cached>, votes: seq<Vote>, ids: set<string>, now: int)
      : map<string, Cached>
    requires b > 0.0
  {
    map base | base in cached ::
      if ids == {} || base in ids then Cached(NumVotes(votes, base), Popularity(b, votes, base, now)) else cached[base]
  }

  /** The order of bases by popularity that a full sweep stores is the same at every other
      sweep, as long as votes do not change. */
  lemma SweepsRankAlike(b: real, cached: map<string, Cached>, votes: seq<Vote>, p: string, q: string, now: int,
      later: int)
    requires b > 0.0 && p in cached && q in cached
    ensures var first := Recomputed(b, cached, votes, {}, now);
            var second := Recomputed(b, first, votes, {}, later);
            && (first[p].popularity < first[q].popularity <==> second[p].popularity < second[q].popularity)
            && first[p].numVotes == second[p].numVotes
  {
    RankingKept(b, votes, p, q, now, later);
  }

  lemma RankingKept(b: real, votes: seq<Vote>, p: string, q: string, now: int, later: int)
    requires b > 0.0
    ensures Popularity(b, votes, p, now) < Popularity(b, votes, q, now)
       <==> Popularity(b, votes, p, later) < Popularity(b, votes, q, later)
  {
    DecayingGeometric(b);
    PowPositive(b, later - now);
    WeightedRank(Decaying(b), b, votes, p, q, now, later);
  }

  /** An update counts and weighs the votes of the bases it is for, all when none is named,
      and leaves the columns of other bases alone. */
  lemma RecomputedOutcome(b: real, cached: map<string, Cached>, votes: seq<Vote>, ids: set<string>, now: int,
                          base: string)
    requires b > 0.0 && base in cached
    ensures var after := Recomputed(b, cached, votes, ids, now);
            && after.Keys == cached.Keys
            && if ids == {} || base in ids then
                 && after[base].numVotes == |RowsFor(votes, base)|
                 && after[base].popularity == Popularity(b, votes, base, now)
               else after[base] == cached[base]
  {
    NumVotesCounts(votes, base);
  }

  class PackageBases {
    var cached: map<string, Cached>
    var votes: seq<Vote>

    constructor (names: set<string>)
      ensures cached == map base | base in names :: Cached(0, 0.0)
      ensures votes == []
    {
      cached := map base | base in names :: Cached(0, 0.0);
      votes := [];
    }

    /** run_variable: an UPDATE of the selected rows with both subqueries, row by row. */
    method RunVariable(b: real, ids: set<string>, now: int)
      requires b > 0.0
      modifies this`cached
      ensures cached == Recomputed(b, old(cached), votes, ids, now)
    {
      ghost var start := cached;
      var selected := if ids == {} then cached.Keys else cached.Keys * ids;
      while selected != {}
        invariant cached.Keys == start.Keys && selected <= start.Keys
        invariant forall base | base in start :: cached[base]
                    == if base in selected then start[base] else Recomputed(b, start, votes, ids, now)[base]
        decreases selected
      {
        var base :| base in selected;
        cached := cached[base := Cached(NumVotes(votes, base), Popularity(b, votes, base, now))];
        selected := selected - {base};
      }
    }
  }
}
