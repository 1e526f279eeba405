/** Comaintainers of one package base: priorities, edits and succession. */
module Comaintainers {
  import opened Wrappers

  /** A user, by the user name requests carry. */
  datatype User = User(name: string)

  /** Rows of PackageComaintainers for one base; the user is the mapper's key. */
  type Priorities = map<User, nat>

  /** No two comaintainers share a priority, and none has priority zero. */
  ghost predicate Distinct(m: Priorities)
  {
    && (forall u | u in m :: m[u] >= 1)
    && (forall u, v | u in m && v in m && u != v :: m[u] != m[v])
  }

  predicate NoRepeats(order: seq<User>)
  {
    order != [] ==> order[0] !in order[1..] && NoRepeats(order[1..])
  }

  // ---------------------------------------------------------------------------
  // Order by priority

  ghost predicate IsLowest(u: User, m: Priorities)
  {
    u in m && forall v | v in m :: m[u] <= m[v]
  }

  /** `order` lists the comaintainers by ascending priority. */
  ghost predicate IsOrder(order: seq<User>, m: Priorities)
  {
    if order == [] then m == map[]
    else IsLowest(order[0], m) && IsOrder(order[1..], m - {order[0]})
  }

  lemma {:induction false} LowestExists(m: Priorities) returns (low: User)
    requires m != map[]
    ensures IsLowest(low, m)
  {
    var u :| u in m;
    var rest := m - {u};
    if rest == map[] {
      low := u;
      assert forall v | v in m :: v == u || v in rest;
    } else {
      var w := LowestExists(rest);
      low := if m[w] < m[u] then w else u;
      assert forall v | v in m :: v == u || v in rest;
    }
  }

  ghost function Lowest(m: Priorities): (u: User)
    requires m != map[]
    ensures IsLowest(u, m)
  {
    assert exists u :: IsLowest(u, m) by { var low := LowestExists(m); }
    var u :| IsLowest(u, m);
    u
  }

  /** The result of `ORDER BY Priority ASC`. */
  ghost function Order(m: Priorities): (order: seq<User>)
    ensures IsOrder(order, m)
    decreases |m|
  {
    if m == map[] then [] else [Lowest(m)] + Order(m - {Lowest(m)})
  }

  lemma {:induction false} OrderMembers(order: seq<User>, m: Priorities)
    requires IsOrder(order, m)
    ensures forall u :: u in order <==> u in m
    ensures NoRepeats(order) && |order| == |m|
  {
    if order != [] {
      OrderMembers(order[1..], m - {order[0]});
      assert forall u :: u in order <==> u == order[0] || u in order[1..];
      assert m.Keys == (m - {order[0]}).Keys + {order[0]};
    }
  }

  /** Distinct priorities leave only one order. */
  lemma {:induction false} OrderUnique(order: seq<User>, m: Priorities)
    requires Distinct(m) && IsOrder(order, m)
    ensures order == Order(m)
    decreases |order|
  {
    if order != [] {
      assert order[0] == Lowest(m);
      OrderUnique(order[1..], m - {order[0]});
      assert order == [order[0]] + order[1..];
    }
  }

  // ---------------------------------------------------------------------------
  // Sequential priorities

  /** Priorities k, k+1, ... in the given order. */
  function Number(order: seq<User>, k: nat): Priorities
  {
    if order == [] then map[] else Number(order[1..], k + 1)[order[0] := k]
  }

  lemma {:induction false} NumberKeys(order: seq<User>, k: nat)
    ensures forall u :: u in Number(order, k) <==> u in order
    ensures forall u | u in Number(order, k) :: Number(order, k)[u] >= k
  {
    if order != [] {
      NumberKeys(order[1..], k + 1);
      assert forall u :: u in order <==> u == order[0] || u in order[1..];
    }
  }

  /** Ordering by sequential priorities gives the order back. */
  lemma {:induction false} NumberOrder(order: seq<User>, k: nat)
    requires NoRepeats(order)
    ensures IsOrder(order, Number(order, k))
  {
    if order != [] {
      NumberOrder(order[1..], k + 1);
      NumberKeys(order[1..], k + 1);
      assert Number(order, k) - {order[0]} == Number(order[1..], k + 1);
    }
  }

  lemma {:induction false} NumberDistinct(order: seq<User>, k: nat)
    requires NoRepeats(order) && k >= 1
    ensures Distinct(Number(order, k))
  {
    if order != [] {
      NumberDistinct(order[1..], k + 1);
      NumberKeys(order[1..], k + 1);
    }
  }

  /** The i-th user of the order has the i-th priority. */
  lemma {:induction false} NumberAt(order: seq<User>, k: nat, i: nat)
    requires NoRepeats(order) && i < |order|
    ensures order[i] in Number(order, k) && Number(order, k)[order[i]] == k + i
  {
    if i > 0 {
      NumberAt(order[1..], k + 1, i - 1);
      assert order[i] in order[1..];
    }
  }

  lemma {:induction false} NumberSnoc(order: seq<User>, k: nat, u: User)
    requires u !in order
    ensures Number(order + [u], k) == Number(order, k)[u := k + |order|]
  {
    if order == [] {
      assert order + [u] == [u];
      assert [u][1..] == [];
      assert Number([u], k) == Number([], k + 1)[u := k];
    } else {
      NumberSnoc(order[1..], k + 1, u);
      assert (order + [u])[1..] == order[1..] + [u];
    }
  }

  lemma {:induction false} NoRepeatsSnoc(order: seq<User>, u: User)
    ensures NoRepeats(order + [u]) <==> NoRepeats(order) && u !in order
  {
    if order == [] {
      assert (order + [u])[1..] == [];
    } else {
      NoRepeatsSnoc(order[1..], u);
      assert (order + [u])[1..] == order[1..] + [u];
    }
  }

  /** Sequential from 1: exactly the priorities 1 to n, one each. */
  lemma Sequential(m: Priorities)
    requires Distinct(m) && m == Number(Order(m), 1)
    ensures forall i :: i in m.Values <==> 1 <= i <= |m|
  {
    OrderMembers(Order(m), m);
    NumberValues(Order(m), 1);
  }

  lemma NumberValues(order: seq<User>, k: nat)
    requires NoRepeats(order)
    ensures forall i :: i in Number(order, k).Values <==> k <= i < k + |order|
  {
    var m := Number(order, k);
    NumberKeys(order, k);
    NumberBelow(order, k);
    forall i | k <= i < k + |order| ensures i in m.Values {
      NumberAt(order, k, i - k);
      assert order[i - k] in m.Keys;
    }
  }

  // ---------------------------------------------------------------------------
  // Queries and the helpers of pkgbase/util.py

  method OrderByPriority(m: Priorities) returns (order: seq<User>)
    ensures IsOrder(order, m)
    decreases |m|
  {
    if m == map[] {
      return [];
    }
    var low := FirstByPriority(m);
    var rest := OrderByPriority(m - {low});
    order := [low] + rest;
  }

  /** `order_by(Priority.asc()).first()`, scanning the rows. */
  method FirstByPriority(m: Priorities) returns (low: User)
    requires m != map[]
    ensures IsLowest(low, m)
  {
    assert exists u :: u in m.Keys;
    low :| low in m.Keys;
    var todo := m.Keys - {low};
    while todo != {}
      invariant todo <= m.Keys && low in m
      invariant forall v | v in m && v !in todo :: m[low] <= m[v]
      decreases todo
    {
      var u :| u in todo;
      if m[u] < m[low] {
        low := u;
      }
      todo := todo - {u};
    }
  }

  /** rotate_comaintainers: number the rows 1 to n in the order of the query. */
  method Rotate(m: Priorities) returns (r: Priorities)
    requires Distinct(m)
    ensures r == Number(Order(m), 1)
  {
    var order := OrderByPriority(m);
    OrderUnique(order, m);
    OrderMembers(order, m);
    r := Renumber(m, order);
    NumberKeys(order, 1);
    assert m + Number(order, 1) == Number(order, 1);
  }

  /** The loop of rotate_comaintainers. */
  method Renumber(m: Priorities, order: seq<User>) returns (r: Priorities)
    requires NoRepeats(order)
    ensures r == m + Number(order, 1)
  {
    r := m;
    for i := 0 to |order|
      invariant r == m + Number(order[..i], 1)
    {
      PrefixNoRepeats(order, i);
      NumberSnoc(order[..i], 1, order[i]);
      assert order[..i + 1] == order[..i] + [order[i]];
      r := r[order[i] := i + 1];
    }
    assert order[..|order|] == order;
  }

  lemma {:induction false} PrefixNoRepeats(order: seq<User>, i: nat)
    requires NoRepeats(order) && i < |order|
    ensures order[i] !in order[..i]
  {
    if i > 0 {
      PrefixNoRepeats(order[1..], i - 1);
      assert order[..i] == [order[0]] + order[1..][..i - 1];
      assert order[i] in order[1..];
    }
  }

  ghost predicate IsHighest(u: User, m: Priorities)
  {
    u in m && forall v | v in m :: m[v] <= m[u]
  }

  /** latest_priority: the first priority in descending order, or 0 without rows. */
  method LatestPriority(m: Priorities) returns (latest: nat)
    ensures m == map[] ==> latest == 0
    ensures m != map[] ==> exists u :: IsHighest(u, m) && m[u] == latest
  {
    if m == map[] {
      return 0;
    }
    assert exists u :: u in m.Keys;
    var high :| high in m.Keys;
    var todo := m.Keys - {high};
    while todo != {}
      invariant todo <= m.Keys && high in m
      invariant forall v | v in m && v !in todo :: m[v] <= m[high]
      decreases todo
    {
      var u :| u in todo;
      if m[high] < m[u] {
        high := u;
      }
      todo := todo - {u};
    }
    assert IsHighest(high, m);
    latest := m[high];
  }

  // ---------------------------------------------------------------------------
  // Editing the comaintainers

  function Keep(order: seq<User>, wanted: set<User>): seq<User>
  {
    if order == [] then []
    else (if order[0] in wanted then [order[0]] else []) + Keep(order[1..], wanted)
  }

  function Except(order: seq<User>, maintainer: Option<User>): seq<User>
  {
    if order == [] then []
    else
      var init, last := order[..|order| - 1], order[|order| - 1];
      Except(init, maintainer) + if Some(last) == maintainer then [] else [last]
  }

  /** `added` runs through the requested users that are not comaintainers yet. */
  ghost predicate IsNewcomers(added: seq<User>, m: Priorities, requested: set<User>)
  {
    NoRepeats(added) && forall u :: u in added <==> u in requested && u !in m
  }

  /** The comaintainers an edit leaves, in order of priority: those that stay, then the
      newcomers other than the maintainer, unless one of the newcomers does not exist. */
  ghost function EditedOrder(maintainer: Option<User>, m: Priorities, requested: set<User>, users: set<User>,
      added: seq<User>): seq<User>
  {
    Keep(Order(m), requested) + if forall u | u in added :: u in users then Except(added, maintainer) else []
  }

  function Restrict(m: Priorities, users: set<User>): Priorities
  {
    map u | u in m && u in users :: m[u]
  }

  lemma {:induction false} KeepOrder(order: seq<User>, m: Priorities, wanted: set<User>)
    requires IsOrder(order, m)
    ensures IsOrder(Keep(order, wanted), Restrict(m, wanted))
  {
    if order == [] {
      assert Restrict(m, wanted) == map[];
    } else {
      var low, rest := order[0], m - {order[0]};
      KeepOrder(order[1..], rest, wanted);
      if low in wanted {
        assert Restrict(m, wanted) - {low} == Restrict(rest, wanted);
        assert Keep(order, wanted) == [low] + Keep(order[1..], wanted);
      } else {
        assert Restrict(m, wanted) == Restrict(rest, wanted);
        assert Keep(order, wanted) == Keep(order[1..], wanted);
      }
    }
  }

  /** Deleting rows and ordering what is left is ordering first and then dropping users. */
  lemma OrderRestrict(m: Priorities, wanted: set<User>)
    requires Distinct(m)
    ensures Order(Restrict(m, wanted)) == Keep(Order(m), wanted)
    ensures NoRepeats(Keep(Order(m), wanted))
    ensures forall u :: u in Keep(Order(m), wanted) <==> u in m && u in wanted
  {
    KeepOrder(Order(m), m, wanted);
    OrderUnique(Keep(Order(m), wanted), Restrict(m, wanted));
    OrderMembers(Keep(Order(m), wanted), Restrict(m, wanted));
  }

  lemma {:induction false} ExceptMembers(order: seq<User>, maintainer: Option<User>)
    ensures forall u :: u in Except(order, maintainer) <==> u in order && Some(u) != maintainer
  {
    if order != [] {
      ExceptMembers(order[..|order| - 1], maintainer);
      assert order == order[..|order| - 1] + [order[|order| - 1]];
    }
  }

  /** remove_comaintainers: the deletion is committed before the rotation runs. */
  method RemoveComaintainers(m: Priorities, users: set<User>) returns (r: Priorities)
    requires Distinct(m)
    ensures r == Number(Order(Restrict(m, m.Keys - users)), 1)
  {
    r := Rotate(Restrict(m, m.Keys - users));
  }

  /** add_comaintainer: nothing for the maintainer, else a row after the last one. */
  method AddComaintainer(maintainer: Option<User>, m: Priorities, ghost order: seq<User>, u: User)
      returns (r: Priorities)
    requires m == Number(order, 1) && NoRepeats(order) && u !in order
    ensures r == Number(order + Except([u], maintainer), 1)
    ensures NoRepeats(order + Except([u], maintainer))
  {
    assert [u][..0] == [];
    if Some(u) == maintainer {
      assert order + Except([u], maintainer) == order;
      return m;
    }
    var latest := LatestPriority(m);
    LatestOfNumber(order, latest);
    NumberSnoc(order, 1, u);
    NoRepeatsSnoc(order, u);
    assert Except([u], maintainer) == [u];
    assert order + Except([u], maintainer) == order + [u];
    r := m[u := latest + 1];
  }

  lemma LatestOfNumber(order: seq<User>, latest: nat)
    requires NoRepeats(order)
    requires Number(order, 1) == map[] ==> latest == 0
    requires Number(order, 1) != map[] ==> exists u :: IsHighest(u, Number(order, 1)) && Number(order, 1)[u] == latest
    ensures latest == |order|
  {
    if order != [] {
      NumberAt(order, 1, |order| - 1);
      NumberBelow(order, 1);
    }
  }

  /** add_comaintainers once all users are known, every row in its own transaction. */
  method AddComaintainers(maintainer: Option<User>, m: Priorities, ghost order: seq<User>, added: seq<User>)
      returns (r: Priorities)
    requires m == Number(order, 1) && NoRepeats(order)
    requires NoRepeats(added) && forall u | u in added :: u !in order
    ensures r == Number(order + Except(added, maintainer), 1)
  {
    r := m;
    ghost var sofar := order;
    for i := 0 to |added|
      invariant sofar == order + Except(added[..i], maintainer)
      invariant r == Number(sofar, 1) && NoRepeats(sofar)
    {
      NextNewcomer(order, added, i, maintainer);
      r := AddComaintainer(maintainer, r, sofar, added[i]);
      sofar := sofar + Except([added[i]], maintainer);
    }
    assert added[..|added|] == added;
  }

  lemma NextNewcomer(order: seq<User>, added: seq<User>, i: nat, maintainer: Option<User>)
    requires i < |added| && NoRepeats(added) && forall u | u in added :: u !in order
    ensures added[i] !in order + Except(added[..i], maintainer)
    ensures Except(added[..i + 1], maintainer) == Except(added[..i], maintainer) + Except([added[i]], maintainer)
  {
    assert added[i] in added;
    PrefixNoRepeats(added, i);
    ExceptMembers(added[..i], maintainer);
    assert added[..i + 1][..i] == added[..i];
    assert [added[i]][..0] == [];
    assert Except([added[i]], maintainer) == [] + if Some(added[i]) == maintainer then [] else [added[i]];
  }

  /** The look-up loop of add_comaintainers. */
  method AllKnown(users: set<User>, added: seq<User>) returns (ok: bool)
    ensures ok <==> forall u | u in added :: u in users
  {
    for i := 0 to |added|
      invariant forall k | 0 <= k < i :: added[k] in users
    {
      if added[i] !in users {
        assert added[i] in added;
        return false;
      }
    }
    ok := true;
  }

  /** pkgbase_comaintainers_post: remove, rotate, then add unless a name is unknown. */
  method EditComaintainers(maintainer: Option<User>, m: Priorities, requested: set<User>, users: set<User>,
      added: seq<User>)
    returns (r: Priorities, error: bool)
    requires Distinct(m) && IsNewcomers(added, m, requested)
    ensures r == Number(EditedOrder(maintainer, m, requested, users, added), 1)
    ensures error <==> exists u :: u in requested && u !in m && u !in users
  {
    r := RemoveComaintainers(m, m.Keys - requested);
    assert Restrict(m, m.Keys - (m.Keys - requested)) == Restrict(m, requested);
    OrderRestrict(m, requested);
    ghost var kept := Keep(Order(m), requested);
    var ok := AllKnown(users, added);
    error := !ok;
    if ok {
      r := AddComaintainers(maintainer, r, kept, added);
    } else {
      assert kept + [] == kept;
    }
  }

  /** What an edit leaves, whatever gaps there were: priorities are exactly 1 to n, and the
      users are the old ones still requested, with the requested newcomers other than the
      maintainer unless one of the newcomers does not exist. */
  lemma EditOutcome(maintainer: Option<User>, m: Priorities, requested: set<User>, users: set<User>, added: seq<User>)
    requires Distinct(m) && IsNewcomers(added, m, requested)
    ensures var r := Number(EditedOrder(maintainer, m, requested, users, added), 1);
            var allKnown := forall u | u in requested && u !in m :: u in users;
            && Distinct(r) && Order(r) == EditedOrder(maintainer, m, requested, users, added)
            && (forall i :: i in r.Values <==> 1 <= i <= |r|)
            && (forall u :: u in r <==> u in requested && (u in m || (allKnown && Some(u) != maintainer)))
  {
    var kept := Keep(Order(m), requested);
    var news := if forall u | u in added :: u in users then Except(added, maintainer) else [];
    EditedNoRepeats(maintainer, m, requested, users, added);
    SequentialOf(kept + news);
    OrderRestrict(m, requested);
    EditedMembers(m, requested, users, added, maintainer, kept, news);
  }

  lemma EditedNoRepeats(maintainer: Option<User>, m: Priorities, requested: set<User>, users: set<User>,
      added: seq<User>)
    requires Distinct(m) && IsNewcomers(added, m, requested)
    ensures NoRepeats(EditedOrder(maintainer, m, requested, users, added))
  {
    OrderRestrict(m, requested);
    ExceptMembers(added, maintainer);
    ExceptNoRepeats(added, maintainer);
    var news := if forall u | u in added :: u in users then Except(added, maintainer) else [];
    AppendNoRepeats(Keep(Order(m), requested), news);
  }

  /** Survivors keep their relative order and come before all newcomers. */
  lemma EditKeepsSurvivors(maintainer: Option<User>, m: Priorities, requested: set<User>, users: set<User>,
      added: seq<User>, u: User, v: User)
    requires Distinct(m) && IsNewcomers(added, m, requested)
    requires u in m && u in requested
    ensures var r := Number(EditedOrder(maintainer, m, requested, users, added), 1);
            && u in r
            && (v in m && v in requested ==> v in r && (m[u] < m[v] <==> r[u] < r[v]))
            && (v !in m && v in r ==> r[u] < r[v])
  {
    var kept := Keep(Order(m), requested);
    var news := if forall u | u in added :: u in users then Except(added, maintainer) else [];
    EditedNoRepeats(maintainer, m, requested, users, added);
    OrderRestrict(m, requested);
    NumberParts(kept, news, u, v);
    if v in m && v in requested {
      KeepOrder(Order(m), m, requested);
      NumberMonotone(kept, Restrict(m, requested), 1, u, v);
    }
    NumberKeys(kept + news, 1);
  }

  lemma NumberParts(a: seq<User>, b: seq<User>, u: User, v: User)
    requires NoRepeats(a + b) && u in a
    ensures u in Number(a, 1) && u in Number(a + b, 1) && Number(a + b, 1)[u] == Number(a, 1)[u]
    ensures v in a ==> v in Number(a, 1) && v in Number(a + b, 1) && Number(a + b, 1)[v] == Number(a, 1)[v]
    ensures v !in a && v in b ==> v in Number(a + b, 1) && Number(a + b, 1)[u] < Number(a + b, 1)[v]
  {
    NumberAppend(a, b, 1);
    NumberKeys(a, 1);
    NumberBelow(a, 1);
    NumberKeys(b, 1 + |a|);
  }

  lemma EditedMembers(m: Priorities, requested: set<User>, users: set<User>, added: seq<User>, maintainer: Option<User>,
                      kept: seq<User>, news: seq<User>)
    requires IsNewcomers(added, m, requested)
    requires forall u :: u in kept <==> u in m && u in requested
    requires news == if forall u | u in added :: u in users then Except(added, maintainer) else []
    ensures var allKnown := forall u | u in requested && u !in m :: u in users;
            forall u :: u in kept + news <==> u in requested && (u in m || (allKnown && Some(u) != maintainer))
  {
    ExceptMembers(added, maintainer);
  }

  lemma SequentialOf(order: seq<User>)
    requires NoRepeats(order)
    ensures var r := Number(order, 1);
            && Distinct(r) && Order(r) == order
            && (forall i :: i in r.Values <==> 1 <= i <= |r|)
            && (forall u :: u in r <==> u in order)
  {
    NumberDistinct(order, 1);
    NumberOrder(order, 1);
    OrderUnique(order, Number(order, 1));
    Sequential(Number(order, 1));
    NumberKeys(order, 1);
  }

  lemma {:induction false} ExceptNoRepeats(order: seq<User>, maintainer: Option<User>)
    requires NoRepeats(order)
    ensures NoRepeats(Except(order, maintainer))
  {
    if order != [] {
      var init, last := order[..|order| - 1], order[|order| - 1];
      assert order == init + [last];
      NoRepeatsSnoc(init, last);
      ExceptNoRepeats(init, maintainer);
      ExceptMembers(init, maintainer);
      NoRepeatsSnoc(Except(init, maintainer), last);
      assert Except(init, maintainer) + [] == Except(init, maintainer);
    }
  }

  lemma {:induction false} AppendNoRepeats(a: seq<User>, b: seq<User>)
    requires NoRepeats(a) && NoRepeats(b) && forall u | u in a :: u !in b
    ensures NoRepeats(a + b)
  {
    if a == [] {
      assert a + b == b;
    } else {
      AppendNoRepeats(a[1..], b);
      assert (a + b)[1..] == a[1..] + b;
    }
  }

  lemma {:induction false} NumberAppend(a: seq<User>, b: seq<User>, k: nat)
    requires NoRepeats(a + b)
    ensures Number(a + b, k) == Number(b, k + |a|) + Number(a, k)
  {
    if a == [] {
      assert a + b == b;
    } else {
      assert (a + b)[1..] == a[1..] + b;
      NumberAppend(a[1..], b, k + 1);
    }
  }

  lemma {:induction false} NumberBelow(order: seq<User>, k: nat)
    ensures forall u | u in Number(order, k) :: Number(order, k)[u] < k + |order|
  {
    if order != [] {
      NumberBelow(order[1..], k + 1);
    }
  }

  /** Numbering along an order respects the priorities it was ordered by. */
  lemma {:induction false} NumberMonotone(order: seq<User>, m: Priorities, k: nat, u: User, v: User)
    requires IsOrder(order, m) && Distinct(m) && u in m && v in m
    ensures u in Number(order, k) && v in Number(order, k)
    ensures m[u] < m[v] <==> Number(order, k)[u] < Number(order, k)[v]
    decreases |order|
  {
    OrderMembers(order, m);
    NumberKeys(order, k);
    NumberKeys(order[1..], k + 1);
    OrderMembers(order[1..], m - {order[0]});
    if u != order[0] && v != order[0] {
      NumberMonotone(order[1..], m - {order[0]}, k + 1, u, v);
    }
  }

  // ---------------------------------------------------------------------------
  // Disowning and succession

  /** Maintainer and comaintainers after the maintainer disowns through the web interface:
      the rotation still sees the row being deleted, so the first priority stays free. */
  ghost function Succeed(m: Priorities): (Option<User>, Priorities)
  {
    if m == map[] then (None, m)
    else (Some(Order(m)[0]), Number(Order(m), 1) - {Order(m)[0]})
  }

  method DisownAsMaintainer(m: Priorities) returns (maintainer: Option<User>, r: Priorities)
    requires Distinct(m)
    ensures (maintainer, r) == Succeed(m)
  {
    if m == map[] {
      return None, m;
    }
    var first := FirstByPriority(m);
    assert first == Order(m)[0];
    var rotated := Rotate(m);
    maintainer, r := Some(first), rotated - {first};
  }

  /** The rest moves up in order; priorities stay distinct and positive, though from 2 on. */
  lemma SucceedOrder(m: Priorities)
    requires Distinct(m) && m != map[]
    ensures var (maintainer, r) := Succeed(m);
            && Distinct(r) && Order(r) == Order(m)[1..] && r == Number(Order(m)[1..], 2)
            && maintainer == Some(Order(m)[0]) && Order(m)[0] in m && |r| == |m| - 1
  {
    var order := Order(m);
    OrderMembers(order, m);
    NumberKeys(order[1..], 2);
    assert Number(order, 1) - {order[0]} == Number(order[1..], 2);
    NumberDistinct(order[1..], 2);
    NumberOrder(order[1..], 2);
    OrderUnique(order[1..], Number(order[1..], 2));
    OrderMembers(order[1..], Number(order[1..], 2));
  }

  /** The API's disown promotes whichever row comes first and rotates nothing. */
  function ApiSucceed(m: Priorities, pick: User): (Option<User>, Priorities)
    requires m != map[] ==> pick in m
  {
    if m == map[] then (None, m) else (Some(pick), m - {pick})
  }

  lemma ApiSucceedDistinct(m: Priorities, pick: User)
    requires Distinct(m) && (m != map[] ==> pick in m)
    ensures Distinct(ApiSucceed(m, pick).1)
    ensures m != map[] ==> |ApiSucceed(m, pick).1| == |m| - 1
  {
    if m != map[] {
      assert m.Keys == (m - {pick}).Keys + {pick};
    }
  }
}
