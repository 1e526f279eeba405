/** The batch actions on a set of package bases: whatever order the set is visited in, the
    outcome is the same, and all of them but disown are all or nothing. */
module Batch {
  import opened Wrappers
  import opened Comaintainers
  import opened Requests
  import opened Lifecycle
  import opened Store

  // ---------------------------------------------------------------------------
  // Actions that touch the base alone

  /** The check a batch makes of each base before it changes any. */
  predicate Permitted(base: Base, actor: Actor, action: BaseAction)
  {
    match action
    case Unflag => actor.trusted || base.flagger == Some(actor.user)
    case Notify => actor.user !in base.notified
    case Unnotify => actor.user in base.notified
    case Adopt => actor.trusted || base.maintainer.None?
    case _ => false
  }

  /** Every selected base changed, the others as they were. */
  ghost function AllEdited(bases: map<nat, Base>, actor: Actor, action: BaseAction, selected: set<nat>): map<nat, Base>
  {
    map b | b in bases :: if b in selected then OnBase(bases[b], actor, action) else bases[b]
  }

  ghost predicate IsBatchAction(action: BaseAction)
  {
    action.Unflag? || action.Notify? || action.Unnotify? || action.Adopt?
  }

  /** packages_unflag, packages_notify, packages_unnotify and packages_adopt: first check
      every selected base, then act on every one, in whatever order. */
  method EditAll(db: Database, actor: Actor, action: BaseAction, selected: set<nat>) returns (ok: bool)
    requires selected <= db.bases.Keys && IsBatchAction(action)
    requires forall b | b in db.bases :: BaseOk(db.bases[b])
    modifies db
    ensures ok <==> forall b | b in selected :: Permitted(old(db.bases)[b], actor, action)
    ensures db.bases == if ok then AllEdited(old(db.bases), actor, action, selected) else old(db.bases)
  {
    ok := CheckEach(db, actor, action, selected);
    if ok {
      ActOnEach(db, actor, action, selected);
    }
  }

  method CheckEach(db: Database, actor: Actor, action: BaseAction, selected: set<nat>) returns (ok: bool)
    requires selected <= db.bases.Keys
    ensures ok <==> forall b | b in selected :: Permitted(db.bases[b], actor, action)
  {
    var todo := selected;
    while todo != {}
      invariant todo <= selected
      invariant forall b | b in selected && b !in todo :: Permitted(db.bases[b], actor, action)
      decreases todo
    {
      var b :| b in todo;
      if !Permitted(db.bases[b], actor, action) {
        return false;
      }
      todo := todo - {b};
    }
    ok := true;
  }

  method ActOnEach(db: Database, actor: Actor, action: BaseAction, selected: set<nat>)
    requires selected <= db.bases.Keys && IsBatchAction(action)
    requires forall b | b in db.bases :: BaseOk(db.bases[b])
    modifies db
    ensures db.bases == AllEdited(old(db.bases), actor, action, selected)
  {
    ghost var start := db.bases;
    var todo := selected;
    while todo != {}
      invariant todo <= selected && db.bases.Keys == start.Keys
      invariant forall b | b in start ::
          db.bases[b] == if b in selected && b !in todo then OnBase(start[b], actor, action) else start[b]
      decreases todo
    {
      var b :| b in todo;
      db.EditBase(b, actor, action);
      todo := todo - {b};
    }
  }

  /** Who may: unflagging is for trusted users and whoever set the flag, adopting a base that
      has a maintainer for trusted users; notifying needs somebody who is not on the list,
      unnotifying somebody who is. */
  lemma PermittedIff(base: Base, actor: Actor)
    ensures Permitted(base, actor, Unflag) <==> actor.trusted || Some(actor.user) == base.flagger
    ensures Permitted(base, actor, Adopt) <==> actor.trusted || base.maintainer == None
    ensures Permitted(base, actor, Unnotify) <==> exists u :: u in base.notified && u == actor.user
    ensures Permitted(base, actor, Notify) <==> forall u | u in base.notified :: u != actor.user
  {}

  /** What a permitted batch brings about for each selected base. */
  lemma EditedTakesEffect(base: Base, actor: Actor, action: BaseAction)
    requires Permitted(base, actor, action)
    ensures var base' := OnBase(base, actor, action);
            && (action.Unflag? ==> base'.flagger == None && base'.outOfDateTS == None)
            && (action.Notify? ==> base'.notified - {actor.user} == base.notified && actor.user in base'.notified)
            && (action.Unnotify? ==> base'.notified + {actor.user} == base.notified && actor.user !in base'.notified)
            && (action.Adopt? ==> IsMaintainer(base', actor))
  {}

  /** Notifying undoes unnotifying over a whole batch, and the other way round. */
  lemma NotifyUndoesUnnotify(bases: map<nat, Base>, actor: Actor, selected: set<nat>)
    requires forall b | b in selected && b in bases :: Permitted(bases[b], actor, Unnotify)
    ensures AllEdited(AllEdited(bases, actor, Unnotify, selected), actor, Notify, selected) == bases
  {
    var after := AllEdited(AllEdited(bases, actor, Unnotify, selected), actor, Notify, selected);
    forall b | b in bases ensures after[b] == bases[b] {
      if b in selected {
        EditedTakesEffect(bases[b], actor, Unnotify);
      }
    }
  }

  // ---------------------------------------------------------------------------
  // Disown

  /** The bases a batch disown fails on: not the caller's, and no due orphan request. */
  predicate Fails(db: Db, actor: Actor, b: nat, now: int)
    requires b in db.bases
  {
    !IsMaintainer(db.bases[b], actor) && !HasDueOrphan(db.requests, b, now, REQUEST_IDLE_TIME)
  }

  function Failing(db: Db, actor: Actor, selected: set<nat>, now: int): set<nat>
  {
    set b | b in selected && b in db.bases && Fails(db, actor, b, now)
  }

  /** They are the selected bases of others on which every pending orphan request, if there
      is one, has been waiting for no longer than the idle time. */
  lemma FailingIff(db: Db, actor: Actor, selected: set<nat>, now: int, b: nat)
    requires selected <= db.bases.Keys
    ensures b in Failing(db, actor, selected, now) <==>
              && b in selected && db.bases[b].maintainer != Some(actor.user)
              && forall id | id in db.requests && db.requests[id].base == Some(b)
                             && db.requests[id].kind == Orphan && db.requests[id].status == Pending ::
                   now - db.requests[id].requestTS <= REQUEST_IDLE_TIME
  {
    DueIff(db.requests, b, now, REQUEST_IDLE_TIME);
    forall id | id in db.requests
      ensures IsDue(db.requests[id], b, now, REQUEST_IDLE_TIME) <==>
                && db.requests[id].base == Some(b) && db.requests[id].kind == Orphan
                && db.requests[id].status == Pending && now - db.requests[id].requestTS > REQUEST_IDLE_TIME
    {}
  }

  lemma FailingGrows(db: Db, actor: Actor, selected: set<nat>, now: int, b: nat)
    requires b in db.bases
    ensures Failing(db, actor, selected + {b}, now)
         == Failing(db, actor, selected, now) + if Fails(db, actor, b, now) then {b} else {}
  {}

  /** A base after its share of a batch disown. */
  ghost function BaseDisowned(db: Db, actor: Actor, b: nat, now: int): Base
    requires b in db.bases
  {
    var base := db.bases[b];
    if IsMaintainer(base, actor) then
      base.(maintainer := Succeed(base.comaintainers).0, comaintainers := Succeed(base.comaintainers).1)
    else if Fails(db, actor, b, now) then base
    else base.(maintainer := None)
  }

  /** Is `r` a pending orphan request about a selected base of somebody else, with one due? */
  predicate Settled(db: Db, actor: Actor, selected: set<nat>, now: int, r: Request)
  {
    r.kind.Orphan? && r.status.Pending? && r.base.Some? && r.base.value in selected && r.base.value in db.bases
    && !IsMaintainer(db.bases[r.base.value], actor) && !Fails(db, actor, r.base.value, now)
  }

  function RequestDisowned(db: Db, actor: Actor, selected: set<nat>, now: int, r: Request): Request
  {
    if Settled(db, actor, selected, now, r) then
      CloseOr(r, actor.user, SubjectOf(db, r.base.value, None), Accepted, now)
    else r
  }

  /** The state a batch disown leads to, base by base and request by request: a function of
      the set of bases alone. */
  ghost function AllDisowned(db: Db, actor: Actor, selected: set<nat>, now: int): Db
  {
    Db(map b | b in db.bases :: if b in selected then BaseDisowned(db, actor, b, now) else db.bases[b],
       map id | id in db.requests :: RequestDisowned(db, actor, selected, now, db.requests[id]),
       db.next)
  }

  /** What is about a base not visited yet is untouched. */
  lemma NotVisitedYet(db: Db, actor: Actor, selected: set<nat>, now: int, b: nat)
    requires b in db.bases && b !in selected
    ensures var db1 := AllDisowned(db, actor, selected, now);
            && db1.bases[b] == db.bases[b]
            && (forall id | id in db.requests && db.requests[id].base == Some(b) :: db1.requests[id] == db.requests[id])
            && (forall id | id in db.requests :: db1.requests[id].base == db.requests[id].base)
            && (HasDueOrphan(db1.requests, b, now, REQUEST_IDLE_TIME)
                <==> HasDueOrphan(db.requests, b, now, REQUEST_IDLE_TIME))
            && PendingAbout(db1.requests, Orphan, b) == PendingAbout(db.requests, Orphan, b)
  {
    var db1 := AllDisowned(db, actor, selected, now);
    forall id | id in db.requests
      ensures db1.requests[id].base == db.requests[id].base
      ensures db.requests[id].base == Some(b) ==> db1.requests[id] == db.requests[id]
    {}
    if HasDueOrphan(db.requests, b, now, REQUEST_IDLE_TIME) {
      var id :| id in db.requests && db.requests[id].base == Some(b) && db.requests[id].kind.Orphan?
                && db.requests[id].status.Pending? && now - db.requests[id].requestTS > REQUEST_IDLE_TIME;
      assert db1.requests[id] == db.requests[id];
    }
  }

  /** Disowning one more base takes the described state to the described state. */
  lemma OneMoreDisowned(db: Db, actor: Actor, selected: set<nat>, now: int, b: nat)
    requires Inv(AllDisowned(db, actor, selected, now))
    requires b in db.bases && b !in selected && (actor.trusted || IsMaintainer(db.bases[b], actor))
    ensures DisownInstance(AllDisowned(db, actor, selected, now), actor, b, now)
         == (AllDisowned(db, actor, selected + {b}, now),
             if Fails(db, actor, b, now) then Raised(NoDueRequest) else Done)
  {
    NotVisitedYet(db, actor, selected, now, b);
    if IsMaintainer(db.bases[b], actor) || Fails(db, actor, b, now) {
      OneMoreWithoutRequests(db, actor, selected, now, b);
    } else {
      DueOrphansHandled(AllDisowned(db, actor, selected, now), actor.user, b, now);
      OneMoreWithRequests(db, actor, selected, now, b);
    }
  }

  lemma OneMoreBase(db: Db, actor: Actor, selected: set<nat>, now: int, b: nat)
    requires b in db.bases && b !in selected
    ensures AllDisowned(db, actor, selected + {b}, now).bases
         == AllDisowned(db, actor, selected, now).bases[b := BaseDisowned(db, actor, b, now)]
  {}

  lemma OneMoreWithoutRequests(db: Db, actor: Actor, selected: set<nat>, now: int, b: nat)
    requires b in db.bases && b !in selected
    requires IsMaintainer(db.bases[b], actor) || Fails(db, actor, b, now)
    ensures AllDisowned(db, actor, selected + {b}, now)
         == (var before := AllDisowned(db, actor, selected, now);
             before.(bases := before.bases[b := BaseDisowned(db, actor, b, now)]))
    ensures Fails(db, actor, b, now) ==>
        AllDisowned(db, actor, selected + {b}, now) == AllDisowned(db, actor, selected, now)
  {
    var db1, db2 := AllDisowned(db, actor, selected, now), AllDisowned(db, actor, selected + {b}, now);
    OneMoreBase(db, actor, selected, now, b);
    OneMoreSettled(db, actor, selected, now, b);
    assert db2.requests == db1.requests;
    assert db1.bases[b := db1.bases[b]] == db1.bases;
  }

  lemma OneMoreWithRequests(db: Db, actor: Actor, selected: set<nat>, now: int, b: nat)
    requires b in db.bases && b !in selected
    requires !IsMaintainer(db.bases[b], actor) && !Fails(db, actor, b, now)
    ensures AllDisowned(db, actor, selected + {b}, now)
         == AllDisowned(db, actor, selected, now).(
              bases := AllDisowned(db, actor, selected, now).bases[b := db.bases[b].(maintainer := None)],
              requests := OrphansAccepted(AllDisowned(db, actor, selected, now), actor.user, b, now))
  {
    OneMoreBase(db, actor, selected, now, b);
    OneMoreSettled(db, actor, selected, now, b);
    NotVisitedYet(db, actor, selected, now, b);
    assert AllDisowned(db, actor, selected + {b}, now).requests
        == OrphansAccepted(AllDisowned(db, actor, selected, now), actor.user, b, now);
  }

  lemma OneMoreSettled(db: Db, actor: Actor, selected: set<nat>, now: int, b: nat)
    requires b in db.bases && b !in selected
    ensures forall id | id in db.requests ::
              RequestDisowned(db, actor, selected + {b}, now, db.requests[id])
              == if && !IsMaintainer(db.bases[b], actor) && !Fails(db, actor, b, now)
                    && id in PendingAbout(db.requests, Orphan, b)
                 then CloseOr(db.requests[id], actor.user, SubjectOf(db, b, None), Accepted, now)
                 else RequestDisowned(db, actor, selected, now, db.requests[id])
  {}

  /** One round of disown_all: the state and the bases that failed so far. */
  ghost function VisitOne(sofar: (Db, set<nat>), actor: Actor, b: nat, now: int): (Db, set<nat>)
    requires b in sofar.0.bases
  {
    var (after, out) := DisownInstance(sofar.0, actor, b, now);
    (after, if out.Raised? then sofar.1 + {b} else sofar.1)
  }

  /** disown_all over a given order of the bases. */
  ghost function Visit(db: Db, actor: Actor, order: seq<nat>, now: int): (r: (Db, set<nat>))
    requires forall b | b in order :: b in db.bases
    ensures r.0.bases.Keys == db.bases.Keys
  {
    if order == [] then (db, {})
    else
      assert order == order[..|order| - 1] + [order[|order| - 1]];
      VisitOne(Visit(db, actor, order[..|order| - 1], now), actor, order[|order| - 1], now)
  }

  function Elements(order: seq<nat>): set<nat> { set b | b in order }

  predicate Once(order: seq<nat>) { forall i, j | 0 <= i < j < |order| :: order[i] != order[j] }

  ghost predicate MayVisit(db: Db, actor: Actor, order: seq<nat>)
  {
    forall b | b in order :: b in db.bases && (actor.trusted || IsMaintainer(db.bases[b], actor))
  }

  lemma LastOnce(order: seq<nat>)
    requires order != [] && Once(order)
    ensures Once(order[..|order| - 1]) && order[|order| - 1] !in order[..|order| - 1]
    ensures Elements(order) == Elements(order[..|order| - 1]) + {order[|order| - 1]}
  {
    assert order == order[..|order| - 1] + [order[|order| - 1]];
  }

  ghost function VisitedState(db: Db, actor: Actor, seen: set<nat>, now: int): (Db, set<nat>)
  {
    (AllDisowned(db, actor, seen, now), Failing(db, actor, seen, now))
  }

  lemma OneMoreVisited(db: Db, actor: Actor, seen: set<nat>, now: int, last: nat)
    requires Inv(AllDisowned(db, actor, seen, now))
    requires last in db.bases && last !in seen && (actor.trusted || IsMaintainer(db.bases[last], actor))
    ensures VisitOne(VisitedState(db, actor, seen, now), actor, last, now)
        == VisitedState(db, actor, seen + {last}, now)
    ensures Inv(AllDisowned(db, actor, seen + {last}, now))
  {
    OneMoreDisowned(db, actor, seen, now, last);
    FailingGrows(db, actor, seen, now, last);
    assert Failing(db, actor, seen, now) + {} == Failing(db, actor, seen, now);
    DisownKeeps(AllDisowned(db, actor, seen, now), actor, last, now);
  }

  /** Every order of the same bases leads to the same state and the same failures. */
  lemma {:induction false} AnyOrder(db: Db, actor: Actor, order: seq<nat>, now: int)
    requires Inv(db) && MayVisit(db, actor, order) && Once(order)
    ensures Visit(db, actor, order, now) == VisitedState(db, actor, Elements(order), now)
    ensures Inv(VisitedState(db, actor, Elements(order), now).0)
  {
    if order == [] {
      NothingDisowned(db, actor, now);
      assert Elements(order) == {} && Failing(db, actor, {}, now) == {};
    } else {
      var init, last := order[..|order| - 1], order[|order| - 1];
      assert last in order && forall b | b in init :: b in order;
      LastOnce(order);
      AnyOrder(db, actor, init, now);
      OneMoreVisited(db, actor, Elements(init), now, last);
      assert Visit(db, actor, order, now) == VisitOne(Visit(db, actor, init, now), actor, last, now);
    }
  }

  /** packages_disown with disown_all: an error for exactly the bases that fail, and a
      state that does not depend on the order the bases are visited in. */
  method DisownAll(db: Database, actor: Actor, selected: set<nat>, now: int) returns (permitted: bool, failed: set<nat>)
    requires Inv(db.Value()) && selected <= db.bases.Keys
    modifies db, db.requests
    ensures permitted <==> forall b | b in selected :: actor.trusted || IsMaintainer(old(db.bases)[b], actor)
    ensures !permitted ==> failed == {} && db.Value() == old(db.Value())
    ensures permitted ==> failed == Failing(old(db.Value()), actor, selected, now)
    ensures permitted ==> db.Value() == AllDisowned(old(db.Value()), actor, selected, now)
    ensures Inv(db.Value())
  {
    permitted := MayDisownEach(db, actor, selected);
    failed := {};
    if permitted {
      failed := DisownEach(db, actor, selected, now);
    }
  }

  method MayDisownEach(db: Database, actor: Actor, selected: set<nat>) returns (ok: bool)
    requires selected <= db.bases.Keys
    ensures ok <==> forall b | b in selected :: actor.trusted || IsMaintainer(db.bases[b], actor)
  {
    var todo := selected;
    while todo != {}
      invariant todo <= selected
      invariant forall b | b in selected && b !in todo :: actor.trusted || IsMaintainer(db.bases[b], actor)
      decreases todo
    {
      var b :| b in todo;
      if !(actor.trusted || IsMaintainer(db.bases[b], actor)) {
        return false;
      }
      todo := todo - {b};
    }
    ok := true;
  }

  /** disown_all. */
  method DisownEach(db: Database, actor: Actor, selected: set<nat>, now: int) returns (failed: set<nat>)
    requires Inv(db.Value()) && selected <= db.bases.Keys
    requires forall b | b in selected :: actor.trusted || IsMaintainer(db.bases[b], actor)
    modifies db, db.requests
    ensures failed == Failing(old(db.Value()), actor, selected, now)
    ensures db.Value() == AllDisowned(old(db.Value()), actor, selected, now)
    ensures Inv(db.Value())
  {
    failed := {};
    ghost var start := db.Value();
    var todo := selected;
    ghost var done: set<nat> := {};
    NothingDisowned(start, actor, now);
    while todo != {}
      invariant todo + done == selected && todo !! done
      invariant Inv(db.Value()) && db.Value() == AllDisowned(start, actor, done, now)
      invariant failed == Failing(start, actor, done, now)
      decreases todo
    {
      var b :| b in todo;
      OneMoreDisowned(start, actor, done, now, b);
      FailingGrows(start, actor, done, now, b);
      var out := db.DisownInstance(b, actor, now);
      if out.Raised? {
        failed := failed + {b};
      }
      todo, done := todo - {b}, done + {b};
    }
    assert done == selected;
  }

  lemma NothingDisowned(db: Db, actor: Actor, now: int)
    ensures AllDisowned(db, actor, {}, now) == db
  {}
}
