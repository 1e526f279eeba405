/** Commits, reachability, and the revision walks the update hook asks libgit2 for.

    A commit is an inductive value: its identity is its content together with its
    parents, which is what a content hash stands for.  The history graph is therefore
    well founded by construction. */
module CommitGraph {

  datatype Commit<T> = Commit(content: T, parents: seq<Commit<T>>)

  /** Everything reachable from `c`, itself included. */
  ghost function Reachable<T>(c: Commit<T>): set<Commit<T>>
  {
    {c} + set p, a | p in c.parents && a in Reachable(p) :: a
  }

  /** An independent reading of reachability: a chain of parent links. */
  ghost predicate IsChain<T>(chain: seq<Commit<T>>, from: Commit<T>, to: Commit<T>)
  {
    && |chain| > 0 && chain[0] == from && chain[|chain| - 1] == to
    && forall i | 0 <= i < |chain| - 1 :: chain[i + 1] in chain[i].parents
  }

  /** One more than the height of the tallest parent. */
  ghost function Height<T>(c: Commit<T>): nat
  {
    1 + MaxHeight(c.parents)
  }

  ghost function MaxHeight<T>(cs: seq<Commit<T>>): (h: nat)
    ensures forall c | c in cs :: Height(c) <= h
  {
    if cs == [] then 0
    else
      var here, rest := Height(cs[0]), MaxHeight(cs[1..]);
      if here > rest then here else rest
  }

  lemma {:induction false} ReachableByChain<T>(from: Commit<T>, to: Commit<T>) returns (chain: seq<Commit<T>>)
    requires to in Reachable(from)
    ensures IsChain(chain, from, to)
  {
    if to == from {
      chain := [from];
    } else {
      var p :| p in from.parents && to in Reachable(p);
      var rest := ReachableByChain(p, to);
      chain := [from] + rest;
    }
  }

  lemma {:induction false} ChainReaches<T>(chain: seq<Commit<T>>, from: Commit<T>, to: Commit<T>)
    requires IsChain(chain, from, to)
    ensures to in Reachable(from)
  {
    if |chain| > 1 {
      var rest := chain[1..];
      forall i | 0 <= i < |rest| - 1 ensures rest[i + 1] in rest[i].parents {
        assert chain[i + 1 + 1] in chain[i + 1].parents;
      }
      ChainReaches(rest, chain[1], to);
    }
  }

  /** Reachability is exactly the existence of a chain of parent links. */
  lemma ReachableIffChain<T>(from: Commit<T>, to: Commit<T>)
    ensures to in Reachable(from) <==> exists chain :: IsChain(chain, from, to)
  {
    if to in Reachable(from) {
      var chain := ReachableByChain(from, to);
    }
    forall chain | IsChain(chain, from, to) ensures to in Reachable(from) {
      ChainReaches(chain, from, to);
    }
  }

  lemma {:induction false} ReachableTransitive<T>(c: Commit<T>, b: Commit<T>)
    requires b in Reachable(c)
    ensures Reachable(b) <= Reachable(c)
  {
    if b != c {
      var p :| p in c.parents && b in Reachable(p);
      ReachableTransitive(p, b);
    }
  }

  /** What `walk(from, GIT_SORT_TOPOLOGICAL)` with hidden commits may return: every
      commit reachable and not hidden, once, and no parent before its child.  The
      order is otherwise left open. */
  ghost predicate IsWalk<T>(w: seq<Commit<T>>, from: Commit<T>, hidden: set<Commit<T>>)
  {
    && (forall c | c in w :: c in Reachable(from) && c !in hidden)
    && (forall c | c in Reachable(from) && c !in hidden :: c in w)
    && (forall i, j | 0 <= i < j < |w| :: w[i] != w[j])
    && (forall i, j | 0 <= i < |w| && 0 <= j < |w| && w[j] in w[i].parents :: i < j)
  }

  /** Hiding a commit hides its ancestors too, so hidden sets are closed under parents. */
  ghost predicate Closed<T>(hidden: set<Commit<T>>)
  {
    forall c, p | c in hidden && p in c.parents :: p in hidden
  }

  lemma ReachableClosed<T>(c: Commit<T>)
    ensures Closed(Reachable(c))
  {
    forall d, p | d in Reachable(c) && p in d.parents ensures p in Reachable(c) {
      ReachableTransitive(c, d);
      assert p in Reachable(p) && p in Reachable(d);
    }
  }

  /** The walk from `from` that hides `other` is empty exactly when `from` is an
      ancestor of `other`. */
  lemma WalkEmptyIff<T>(w: seq<Commit<T>>, from: Commit<T>, other: Commit<T>)
    requires IsWalk(w, from, Reachable(other))
    ensures w == [] <==> from in Reachable(other)
  {
    assert from in Reachable(from);
    if w != [] {
      assert w[0] in w;
      if from in Reachable(other) {
        ReachableTransitive(other, from);
      }
    }
  }

  lemma {:induction false} HasChild<T>(from: Commit<T>, a: Commit<T>) returns (child: Commit<T>)
    requires a in Reachable(from) && a != from
    ensures child in Reachable(from) && a in child.parents
  {
    var p :| p in from.parents && a in Reachable(p);
    if a == p {
      child := from;
    } else {
      child := HasChild(p, a);
    }
  }

  /** A walk that is not empty begins at the commit it was started from. */
  lemma WalkStartsAtHead<T>(w: seq<Commit<T>>, from: Commit<T>, hidden: set<Commit<T>>)
    requires IsWalk(w, from, hidden) && Closed(hidden) && w != []
    ensures w[0] == from
  {
    assert w[0] in w;
    forall c | c in Reachable(from) && c != from ensures c != w[0] {
      var child := HasChild(from, c);
      if child !in hidden {
        assert child in w;
      }
    }
  }

  /** Every parent of the last commit walked is hidden: it is an oldest new commit. */
  lemma WalkEndsAtOldest<T>(w: seq<Commit<T>>, from: Commit<T>, hidden: set<Commit<T>>)
    requires IsWalk(w, from, hidden) && w != []
    ensures forall p | p in w[|w| - 1].parents :: p in hidden
  {
    var last := w[|w| - 1];
    assert last in w;
    forall p | p in last.parents ensures p in hidden {
      ReachableTransitive(from, last);
      assert p in Reachable(p) && p in Reachable(last);
      assert p !in hidden ==> p in w;
    }
  }

  lemma {:induction false} Tallest<T>(s: set<Commit<T>>) returns (c: Commit<T>)
    requires s != {}
    ensures c in s && forall d | d in s :: Height(d) <= Height(c)
  {
    c :| c in s;
    var rest := s - {c};
    if rest != {} {
      var d := Tallest(rest);
      if Height(d) > Height(c) {
        c := d;
      }
    }
  }

  /** Commits of `s` by falling height: a topological order. */
  lemma {:induction false} ByHeight<T>(s: set<Commit<T>>) returns (w: seq<Commit<T>>)
    ensures forall c | c in s :: c in w
    ensures forall c | c in w :: c in s
    ensures forall i, j | 0 <= i < j < |w| :: w[i] != w[j] && Height(w[j]) <= Height(w[i])
  {
    if s == {} {
      w := [];
    } else {
      var c := Tallest(s);
      var rest := ByHeight(s - {c});
      w := [c] + rest;
      assert forall k | 0 <= k < |rest| :: rest[k] in rest;
    }
  }

  /** Whatever is hidden, some topological walk exists. */
  lemma WalkExists<T>(from: Commit<T>, hidden: set<Commit<T>>) returns (w: seq<Commit<T>>)
    ensures IsWalk(w, from, hidden)
  {
    var wanted := Reachable(from) - hidden;
    w := ByHeight(wanted);
    forall c | c in Reachable(from) && c !in hidden ensures c in w {
      assert c in wanted;
    }
    forall i, j | 0 <= j <= i < |w| ensures w[j] !in w[i].parents {
      assert Height(w[i]) <= Height(w[j]);
      assert Height(w[i]) > MaxHeight(w[i].parents);
    }
  }

  /** A new commit all of whose parents are hidden. */
  ghost predicate IsOldest<T>(c: Commit<T>, from: Commit<T>, hidden: set<Commit<T>>)
  {
    c in Reachable(from) && c !in hidden && forall p | p in c.parents :: p in hidden
  }

  /** Any oldest new commit can come last: none of the others needs to come after it. */
  lemma OldestCanComeLast<T>(c: Commit<T>, from: Commit<T>, hidden: set<Commit<T>>) returns (w: seq<Commit<T>>)
    requires IsOldest(c, from, hidden)
    ensures IsWalk(w, from, hidden) && w != [] && w[|w| - 1] == c
  {
    var others := Reachable(from) - hidden - {c};
    var rest := ByHeight(others);
    w := rest + [c];
    forall i | 0 <= i < |rest| ensures w[i] in others {
      assert rest[i] in rest;
    }
    forall d | d in Reachable(from) && d !in hidden ensures d in w {
      assert w[|rest|] == c;
      assert d != c ==> d in rest;
    }
    forall i, j | 0 <= j <= i < |w| ensures w[j] !in w[i].parents {
      if i == |rest| {
        assert w[j] !in hidden;
      } else {
        assert Height(w[i]) <= Height(w[j]);
        assert Height(w[i]) > MaxHeight(w[i].parents);
      }
    }
  }

  /** The commits that may come last in a walk are exactly the oldest new ones. */
  lemma ComesLastIffOldest<T>(c: Commit<T>, from: Commit<T>, hidden: set<Commit<T>>)
    ensures IsOldest(c, from, hidden) <==>
              exists w :: IsWalk(w, from, hidden) && w != [] && w[|w| - 1] == c
  {
    if IsOldest(c, from, hidden) {
      var w := OldestCanComeLast(c, from, hidden);
    }
    forall w | IsWalk(w, from, hidden) && w != [] && w[|w| - 1] == c ensures IsOldest(c, from, hidden) {
      assert c in w;
      WalkEndsAtOldest(w, from, hidden);
    }
  }
}
