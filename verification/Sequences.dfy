/** Selecting and mapping over query results whose order is not specified. */
module Sequences {
  import opened Wrappers

  function ToSeq<B>(o: Option<B>): seq<B>
  {
    match o case Some(b) => [b] case None => []
  }

  lemma Associative<A>(a: seq<A>, b: seq<A>, c: seq<A>)
    ensures (a + b) + c == a + (b + c)
  {}

  /** Keeps the values `f` yields, in order. */
  function FilterMap<A, B>(f: A -> Option<B>, s: seq<A>): seq<B>
  {
    if s == [] then [] else ToSeq(f(s[0])) + FilterMap(f, s[1..])
  }

  lemma {:induction false} FilterMapConcat<A, B>(f: A -> Option<B>, s: seq<A>, t: seq<A>)
    ensures FilterMap(f, s + t) == FilterMap(f, s) + FilterMap(f, t)
  {
    if s == [] {
      assert s + t == t;
    } else {
      FilterMapConcat(f, s[1..], t);
      assert (s + t)[1..] == s[1..] + t;
      Associative(ToSeq(f(s[0])), FilterMap(f, s[1..]), FilterMap(f, t));
    }
  }

  lemma FilterMapSnoc<A, B>(f: A -> Option<B>, s: seq<A>, x: A)
    ensures FilterMap(f, s + [x]) == FilterMap(f, s) + ToSeq(f(x))
  {
    FilterMapConcat(f, s, [x]);
    assert [x][1..] == [];
    assert FilterMap(f, [x]) == ToSeq(f(x)) + FilterMap(f, []);
  }

  /** Selecting twice is selecting once with the combined filter. */
  lemma {:induction false} FilterMapCompose<A, B, C>(f: A -> Option<B>, g: B -> Option<C>, h: A -> Option<C>, s: seq<A>)
    requires forall a | a in s :: h(a) == match f(a) case Some(b) => g(b) case None => None
    ensures FilterMap(g, FilterMap(f, s)) == FilterMap(h, s)
  {
    if s != [] {
      assert s[0] in s;
      FilterMapCompose(f, g, h, s[1..]);
      if f(s[0]).Some? {
        var b, rest := f(s[0]).value, FilterMap(f, s[1..]);
        assert FilterMap(f, s) == [b] + rest;
        assert ([b] + rest)[1..] == rest;
        assert h(s[0]) == g(b);
        assert FilterMap(g, [b] + rest) == ToSeq(g(b)) + FilterMap(g, rest);
      } else {
        assert FilterMap(f, s) == FilterMap(f, s[1..]);
        assert h(s[0]) == None;
      }
    }
  }

  lemma CancelOne<A>(m: multiset<A>, n: multiset<A>, x: A)
    requires m + multiset{x} == n + multiset{x}
    ensures m == n
  {
    assert m == (m + multiset{x}) - multiset{x};
    assert n == (n + multiset{x}) - multiset{x};
  }

  /** What is left when one occurrence of `x` is taken out. */
  lemma TakeOut<A>(s: seq<A>, x: A) returns (rest: seq<A>)
    requires x in s
    ensures multiset(s) == multiset(rest) + multiset{x}
  {
    var i :| 0 <= i < |s| && s[i] == x;
    rest := s[..i] + s[i + 1..];
    assert s == s[..i] + ([x] + s[i + 1..]);
  }

  /** Two orders of the same rows yield the same values, counted with multiplicity. */
  lemma {:induction false} FilterMapPermutation<A, B>(f: A -> Option<B>, s: seq<A>, t: seq<A>)
    requires multiset(s) == multiset(t)
    ensures multiset(FilterMap(f, s)) == multiset(FilterMap(f, t))
  {
    if s == [] {
      assert |multiset(t)| == 0;
    } else {
      var i := FirstTakenOut(s, t);
      var rest := t[..i] + t[i + 1..];
      FilterMapPermutation(f, s[1..], rest);
      FilterMapTakeOut(f, t, i);
    }
  }

  lemma FirstTakenOut<A>(s: seq<A>, t: seq<A>) returns (i: nat)
    requires s != [] && multiset(s) == multiset(t)
    ensures i < |t| && t[i] == s[0] && multiset(s[1..]) == multiset(t[..i] + t[i + 1..])
  {
    var x := s[0];
    assert s == [x] + s[1..];
    assert x in multiset(t);
    i :| 0 <= i < |t| && t[i] == x;
    var rest := t[..i] + t[i + 1..];
    assert t == t[..i] + ([x] + t[i + 1..]);
    assert multiset(t) == multiset(rest) + multiset{x};
    CancelOne(multiset(s[1..]), multiset(rest), x);
  }

  lemma FilterMapTakeOut<A, B>(f: A -> Option<B>, t: seq<A>, i: nat)
    requires i < |t|
    ensures multiset(FilterMap(f, t)) == multiset(FilterMap(f, t[..i] + t[i + 1..])) + multiset(ToSeq(f(t[i])))
  {
    var front, back := t[..i], t[i + 1..];
    assert t == front + ([t[i]] + back);
    FilterMapConcat(f, front, back);
    FilterMapConcat(f, front, [t[i]] + back);
    assert ([t[i]] + back)[1..] == back;
  }
}
