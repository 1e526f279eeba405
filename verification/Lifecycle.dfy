/** Package bases with everything that hangs on them, the requests about them, and the
    steps the web interface and the API take on both. */
module Lifecycle {
  import opened Wrappers
  import opened Comaintainers
  import opened Requests

  /** A package base with the rows that refer to it: comaintainers, votes, notifications,
      comments and packages.  Deleting the base deletes them too. */
  datatype Base = Base(
    name: string, maintainer: Option<User>, comaintainers: Priorities,
    flagger: Option<User>, outOfDateTS: Option<int>, flaggerComment: string, submittedTS: int,
    votes: map<User, int>, numVotes: nat, notified: set<User>, comments: seq<nat>, packages: set<string>)

  datatype Db = Db(bases: map<nat, Base>, requests: Rows, next: nat)

  /** `trusted` stands for the credentials of Trusted Users and Developers. */
  datatype Actor = Actor(user: User, trusted: bool)

  datatype Outcome = Done | Refused | Raised(failure: Failure)

  /** What a step answers after handling requests. */
  function Answer(failure: Option<Failure>): Outcome
  {
    match failure case Some(f) => Raised(f) case None => Done
  }

  const REQUEST_IDLE_TIME := 1209600
  const AUTO_ORPHAN_AGE := 15552000
  const AUTO_DELETE_AGE := 86400

  // ---------------------------------------------------------------------------
  // Steps on one base

  datatype BaseAction =
    | Vote(now: int)
    | Unvote
    | Notify
    | Unnotify
    | Flag(comment: string, flagTime: int)
    | Unflag
    | Adopt
    | ApiAdopt
    | AddComment(id: nat, notify: bool)
    | SetComaintainers(requested: set<User>, users: set<User>, added: seq<User>)

  predicate IsMaintainer(base: Base, actor: Actor) { base.maintainer == Some(actor.user) }

  ghost predicate Feasible(base: Base, action: BaseAction)
  {
    action.SetComaintainers? ==> IsNewcomers(action.added, base.comaintainers, action.requested)
  }

  /** The recomputed vote count. */
  function Recounted(base: Base): Base { base.(numVotes := |base.votes|) }

  ghost function OnBase(base: Base, actor: Actor, action: BaseAction): Base
  {
    match action
    case SetComaintainers(requested, users, added) =>
      if !(actor.trusted || IsMaintainer(base, actor)) then base
      else base.(comaintainers := Number(EditedOrder(base.maintainer, base.comaintainers, requested, users, added), 1))
    case _ => OwnEdit(base, actor, action)
  }

  /** The steps that leave comaintainers alone. */
  function OwnEdit(base: Base, actor: Actor, action: BaseAction): Base
    requires !action.SetComaintainers?
  {
    var user := actor.user;
    match action
    case Vote(now) => if user in base.votes then base else Recounted(base.(votes := base.votes[user := now]))
    case Unvote => if user !in base.votes then base else Recounted(base.(votes := base.votes - {user}))
    case Notify => base.(notified := base.notified + {user})
    case Unnotify => base.(notified := base.notified - {user})
    case Flag(comment, now) =>
      if comment == "" || base.flagger.Some? then base
      else base.(outOfDateTS := Some(now), flagger := Some(user), flaggerComment := comment)
    case Unflag =>
      if actor.trusted || base.flagger == Some(user) || IsMaintainer(base, actor)
      then base.(outOfDateTS := None, flagger := None, flaggerComment := "") else base
    case Adopt => if actor.trusted || base.maintainer.None? then base.(maintainer := Some(user)) else base
    case ApiAdopt =>
      if base.maintainer.Some? then base else base.(maintainer := Some(user), notified := base.notified + {user})
    case AddComment(id, notify) =>
      base.(comments := base.comments + [id], notified := if notify then base.notified + {user} else base.notified)
  }

  /** Priorities are distinct and positive, and the vote count is the number of votes. */
  ghost predicate BaseOk(base: Base)
  {
    Distinct(base.comaintainers) && base.numVotes == |base.votes|
  }

  lemma EditedDistinct(base: Base, action: BaseAction)
    requires Distinct(base.comaintainers) && Feasible(base, action) && action.SetComaintainers?
    ensures Distinct(Number(EditedOrder(base.maintainer, base.comaintainers,
                                        action.requested, action.users, action.added), 1))
  {
    EditOutcome(base.maintainer, base.comaintainers, action.requested, action.users, action.added);
  }

  lemma OnBaseKeeps(base: Base, actor: Actor, action: BaseAction)
    requires BaseOk(base) && Feasible(base, action)
    ensures BaseOk(OnBase(base, actor, action)) && OnBase(base, actor, action).name == base.name
  {
    if action.SetComaintainers? {
      EditedDistinct(base, action);
    } else {
      OwnEditKeeps(base, actor, action);
    }
  }

  lemma OwnEditKeeps(base: Base, actor: Actor, action: BaseAction)
    requires base.numVotes == |base.votes| && !action.SetComaintainers?
    ensures var after := OwnEdit(base, actor, action);
            after.comaintainers == base.comaintainers && after.numVotes == |after.votes| && after.name == base.name
  {
    var after := OwnEdit(base, actor, action);
    if action.Vote? || action.Unvote? {
      assert after == base || after == Recounted(after);
    } else {
      assert after.votes == base.votes && after.numVotes == base.numVotes;
    }
  }

  // ---------------------------------------------------------------------------
  // Steps on bases and requests

  function SubjectOf(db: Db, b: nat, target: Option<string>): Subject
    requires b in db.bases
  {
    Subject(b, db.bases[b].name, target)
  }

  /** Deleting a base nulls the foreign key of its requests. */
  function Detached(rows: Rows, b: nat): Rows
  {
    map id | id in rows :: if rows[id].base == Some(b) then rows[id].(base := None) else rows[id]
  }

  function RemoveBase(db: Db, b: nat): Db
  {
    db.(bases := db.bases - {b}, requests := Detached(db.requests, b))
  }

  /** handle_request. */
  function HandleOn(db: Db, kind: Kind, user: User, b: nat, target: Option<string>, now: int): (Db, Option<Failure>)
    requires b in db.bases
  {
    var (rows, next, failure) :=
        Handled(db.requests, db.next, kind, user, SubjectOf(db, b, target), now, REQUEST_IDLE_TIME);
    (db.(requests := rows, next := next), failure)
  }

  function CommentOn(db: Db, kind: Kind, b: nat, comments: string, target: Option<string>): Db
  {
    db.(requests := Commented(db.requests, kind, b, comments, target))
  }

  /** pkgbase_disown_instance. */
  ghost function DisownInstance(db: Db, actor: Actor, b: nat, now: int): (Db, Outcome)
    requires b in db.bases
  {
    var base := db.bases[b];
    if IsMaintainer(base, actor) then
      var (maintainer, rest) := Succeed(base.comaintainers);
      (db.(bases := db.bases[b := base.(maintainer := maintainer, comaintainers := rest)]), Done)
    else if actor.trusted then
      var (db1, failure) := HandleOn(db, Orphan, actor.user, b, None, now);
      match failure
      case Some(f) => (db1, Raised(f))
      case None => (db1.(bases := db1.bases[b := base.(maintainer := None)]), Done)
    else (db, Done)
  }

  /** pkgbase_delete_instance. */
  function DeleteInstance(db: Db, actor: Actor, b: nat, comments: string, now: int): (Db, Outcome)
    requires b in db.bases
  {
    var (db1, failure) := HandleOn(db, Deletion, actor.user, b, None, now);
    match failure
    case Some(f) => (db1, Raised(f))
    case None => (RemoveBase(CommentOn(db1, Deletion, b, comments, None), b), Done)
  }

  /** The target after the rows of the source have moved over: its own votes and
      notifications stay, the source's others are added, all comments come along. */
  function Merged(source: Base, target: Base): Base
  {
    Recounted(target.(votes := target.votes + (source.votes - target.votes.Keys),
                      notified := target.notified + source.notified,
                      comments := target.comments + source.comments))
  }

  /** pkgbase_merge_instance. */
  function MergeInstance(db: Db, actor: Actor, b: nat, t: nat, now: int): (r: (Db, Outcome))
    requires b in db.bases && t in db.bases && b != t
    ensures t in r.0.bases
    ensures r.1 == Done ==> r.0.bases == db.bases[t := Merged(db.bases[b], db.bases[t])] - {b}
  {
    var (db1, failure) := HandleOn(db, Merge, actor.user, b, Some(db.bases[t].name), now);
    match failure
    case Some(f) => (db1, Raised(f))
    case None => (RemoveBase(db1.(bases := db1.bases[t := Merged(db.bases[b], db.bases[t])]), b), Done)
  }

  /** The request a user files; validate.request has passed. */
  function Filed(actor: Actor, b: nat, name: string, kind: Kind, mergeInto: Option<string>, comments: string,
      now: int): Request
  {
    Request(kind, Some(b), name, mergeInto, actor.user, comments, "", now, None, None, Pending)
  }

  predicate Acceptable(db: Db, b: nat, kind: Kind, mergeInto: Option<string>, comments: string)
  {
    comments != "" &&
    (kind.Merge? ==> mergeInto.Some? && exists t :: t in db.bases && t != b && db.bases[t].name == mergeInto.value)
  }

  function AddRequest(db: Db, r: Request): Db
  {
    db.(requests := db.requests[db.next := r], next := db.next + 1)
  }

  /** A request that orphans its base on the spot; nobody is recorded as closer. */
  function AutoOrphan(db: Db, b: nat, id: nat): Db
    requires b in db.bases && id in db.requests
  {
    db.(bases := db.bases[b := db.bases[b].(maintainer := None)],
        requests := db.requests[id := db.requests[id].(status := Accepted)])
  }

  predicate FlaggedLongAgo(base: Base, now: int)
  {
    base.outOfDateTS.Some? && base.outOfDateTS.value != 0 && now - base.outOfDateTS.value >= AUTO_ORPHAN_AGE
  }

  /** pkgbase_request_post, with its automatic orphaning and deletion. */
  function OpenRequest(db: Db, actor: Actor, b: nat, kind: Kind, mergeInto: Option<string>, comments: string,
      now: int): (Db, Outcome)
    requires b in db.bases
  {
    if !Acceptable(db, b, kind, mergeInto, comments) then (db, Refused)
    else
      var base := db.bases[b];
      var db1 := AddRequest(db, Filed(actor, b, base.name, kind, mergeInto, comments, now));
      if kind.Orphan? && FlaggedLongAgo(base, now) then (AutoOrphan(db1, b, db.next), Done)
      else if kind.Deletion? && IsMaintainer(base, actor) && now - base.submittedTS <= AUTO_DELETE_AGE then
        DeleteInstance(db1, actor, b, comments, now)
      else (db1, Done)
  }

  /** request_close_post. */
  function CloseRequest(db: Db, actor: Actor, id: nat, comments: string, now: int): (Db, Outcome)
    requires id in db.requests
  {
    var r := db.requests[id];
    if !(actor.trusted || r.requester == actor.user) then (db, Refused)
    else
      var closed := r.(closer := Some(actor.user), closure := comments, closedTS := Some(now), status := Rejected);
      (db.(requests := db.requests[id := closed]), Done)
  }

  /** The API's disown closes pending orphan requests, whatever name they recorded. */
  function ApiClosed(rows: Rows, b: nat): Rows
  {
    map id | id in rows ::
      var r := rows[id];
      if r.base == Some(b) && r.kind.Orphan? && r.status.Pending? then r.(status := Closed) else r
  }

  function ApiDisown(db: Db, actor: Actor, b: nat, pick: User): (Db, Outcome)
    requires b in db.bases && (db.bases[b].comaintainers != map[] ==> pick in db.bases[b].comaintainers)
  {
    var base := db.bases[b];
    if !IsMaintainer(base, actor) then (db, Refused)
    else
      var (maintainer, rest) := ApiSucceed(base.comaintainers, pick);
      (db.(bases := db.bases[b := base.(maintainer := maintainer, comaintainers := rest)],
          requests := ApiClosed(db.requests, b)), Done)
  }

  /** pkgbase_disown_post, confirmed. */
  ghost function PostDisown(db: Db, actor: Actor, b: nat, comments: string, now: int): (Db, Outcome)
    requires b in db.bases
  {
    if !(actor.trusted || IsMaintainer(db.bases[b], actor)) then (db, Refused)
    else DisownInstance(CommentOn(db, Orphan, b, comments, None), actor, b, now)
  }

  /** pkgbase_delete_post, confirmed. */
  function PostDelete(db: Db, actor: Actor, b: nat, comments: string, now: int): (Db, Outcome)
    requires b in db.bases
  {
    if !actor.trusted then (db, Refused)
    else DeleteInstance(CommentOn(db, Deletion, b, comments, None), actor, b, comments, now)
  }

  /** pkgbase_merge_post, confirmed, into an existing base. */
  function PostMerge(db: Db, actor: Actor, b: nat, t: nat, comments: string, now: int): (Db, Outcome)
    requires b in db.bases && t in db.bases
  {
    if !actor.trusted || b == t then (db, Refused)
    else MergeInstance(CommentOn(db, Merge, b, comments, Some(db.bases[t].name)), actor, b, t, now)
  }

  datatype Action =
    | Submit(b: nat, name: string, packages: set<string>, now: int)
    | Edit(b: nat, edit: BaseAction)
    | Disown(b: nat, comments: string, now: int)
    | DisownByApi(b: nat, pick: User)
    | Open(b: nat, kind: Kind, mergeInto: Option<string>, comments: string, now: int)
    | CloseOne(id: nat, comments: string, now: int)
    | Delete(b: nat, comments: string, now: int)
    | MergeInto(b: nat, target: nat, comments: string, now: int)

  function NewBase(name: string, user: User, packages: set<string>, now: int): Base
  {
    Base(name, Some(user), map[], None, None, "", now, map[], 0, {user}, [], packages)
  }

  ghost predicate Possible(db: Db, action: Action)
  {
    match action
    case Submit(b, name, packages, now) => b !in db.bases && forall c | c in db.bases :: db.bases[c].name != name
    case Edit(b, edit) => b in db.bases && Feasible(db.bases[b], edit)
    case DisownByApi(b, pick) =>
      b in db.bases && (db.bases[b].comaintainers != map[] ==> pick in db.bases[b].comaintainers)
    case CloseOne(id, comments, now) => id in db.requests
    case MergeInto(b, target, comments, now) => b in db.bases && target in db.bases
    case _ => action.b in db.bases
  }

  ghost function Step(db: Db, actor: Actor, action: Action): (Db, Outcome)
    requires Possible(db, action)
  {
    match action
    case Submit(b, name, packages, now) => (db.(bases := db.bases[b := NewBase(name, actor.user, packages, now)]), Done)
    case Edit(b, edit) => (db.(bases := db.bases[b := OnBase(db.bases[b], actor, edit)]), Done)
    case Disown(b, comments, now) => PostDisown(db, actor, b, comments, now)
    case DisownByApi(b, pick) => ApiDisown(db, actor, b, pick)
    case Open(b, kind, mergeInto, comments, now) => OpenRequest(db, actor, b, kind, mergeInto, comments, now)
    case CloseOne(id, comments, now) => CloseRequest(db, actor, id, comments, now)
    case Delete(b, comments, now) => PostDelete(db, actor, b, comments, now)
    case MergeInto(b, t, comments, now) => PostMerge(db, actor, b, t, comments, now)
  }

  // ---------------------------------------------------------------------------
  // Invariants of every run

  /** A request's foreign key leads to a base of the recorded name. */
  ghost predicate Refers(bases: map<nat, Base>, rows: Rows)
  {
    forall id | id in rows && rows[id].base.Some? ::
      rows[id].base.value in bases && bases[rows[id].base.value].name == rows[id].baseName
  }

  ghost predicate Inv(db: Db)
  {
    && (forall b | b in db.bases :: BaseOk(db.bases[b]))
    && IdsBelow(db.requests, db.next)
    && Refers(db.bases, db.requests)
  }

  /** What a step on requests may do: evolve them, and add some about an existing base. */
  ghost predicate Moves(db: Db, db': Db)
  {
    && Evolves(db.requests, db'.requests) && IdsBelow(db'.requests, db'.next)
    && Refers(db'.bases, db'.requests)
  }

  lemma HandleMoves(db: Db, kind: Kind, user: User, b: nat, target: Option<string>, now: int)
    requires Inv(db) && b in db.bases && (kind.Merge? ==> target.Some?)
    ensures Moves(db, HandleOn(db, kind, user, b, target, now).0)
    ensures HandleOn(db, kind, user, b, target, now).0.bases == db.bases
  {
    HandledEvolves(db.requests, db.next, kind, user, SubjectOf(db, b, target), now, REQUEST_IDLE_TIME);
    var rows' := HandleOn(db, kind, user, b, target, now).0.requests;
    forall id | id in rows' && rows'[id].base.Some?
      ensures rows'[id].base.value in db.bases && db.bases[rows'[id].base.value].name == rows'[id].baseName
    {
      if id in db.requests {
        assert EvolvesTo(db.requests[id], rows'[id]);
      }
    }
  }

  lemma CommentMoves(db: Db, kind: Kind, b: nat, comments: string, target: Option<string>)
    requires Inv(db)
    ensures Moves(db, CommentOn(db, kind, b, comments, target))
  {
    var rows' := CommentOn(db, kind, b, comments, target).requests;
    forall id | id in db.requests
      ensures id in rows' && EvolvesTo(db.requests[id], rows'[id]) && rows'[id].base == db.requests[id].base
    {}
  }

  lemma RemoveMoves(db: Db, b: nat)
    requires Inv(db)
    ensures Moves(db, RemoveBase(db, b)) && Inv(RemoveBase(db, b))
  {
    var rows' := Detached(db.requests, b);
    forall id | id in db.requests ensures id in rows' && EvolvesTo(db.requests[id], rows'[id]) {}
  }

  lemma BaseMoves(db: Db, b: nat, base: Base)
    requires Inv(db) && BaseOk(base) && (b in db.bases ==> base.name == db.bases[b].name)
    ensures Inv(db.(bases := db.bases[b := base]))
  {}

  lemma DeleteKeeps(db: Db, actor: Actor, b: nat, comments: string, now: int)
    requires Inv(db) && b in db.bases
    ensures var db' := DeleteInstance(db, actor, b, comments, now).0;
            Inv(db') && Evolves(db.requests, db'.requests)
  {
    HandleMoves(db, Deletion, actor.user, b, None, now);
    var (db1, failure) := HandleOn(db, Deletion, actor.user, b, None, now);
    if failure.None? {
      var db2 := CommentOn(db1, Deletion, b, comments, None);
      CommentMoves(db1, Deletion, b, comments, None);
      RemoveMoves(db2, b);
      EvolvesTransitive(db.requests, db1.requests, db2.requests);
      EvolvesTransitive(db.requests, db2.requests, RemoveBase(db2, b).requests);
    }
  }

  lemma MergeKeeps(db: Db, actor: Actor, b: nat, t: nat, now: int)
    requires Inv(db) && b in db.bases && t in db.bases && b != t
    ensures var db' := MergeInstance(db, actor, b, t, now).0;
            Inv(db') && Evolves(db.requests, db'.requests)
  {
    var target := Some(db.bases[t].name);
    HandleMoves(db, Merge, actor.user, b, target, now);
    var (db1, failure) := HandleOn(db, Merge, actor.user, b, target, now);
    if failure.None? {
      BaseMoves(db1, t, Merged(db.bases[b], db.bases[t]));
      var db2 := db1.(bases := db1.bases[t := Merged(db.bases[b], db.bases[t])]);
      RemoveMoves(db2, b);
      EvolvesTransitive(db.requests, db1.requests, RemoveBase(db2, b).requests);
    }
  }

  lemma DisownKeeps(db: Db, actor: Actor, b: nat, now: int)
    requires Inv(db) && b in db.bases
    ensures var db' := DisownInstance(db, actor, b, now).0;
            Inv(db') && Evolves(db.requests, db'.requests)
  {
    var base := db.bases[b];
    if IsMaintainer(base, actor) {
      if base.comaintainers != map[] {
        SucceedOrder(base.comaintainers);
      }
      var (maintainer, rest) := Succeed(base.comaintainers);
      BaseMoves(db, b, base.(maintainer := maintainer, comaintainers := rest));
    } else if actor.trusted {
      HandleMoves(db, Orphan, actor.user, b, None, now);
      var (db1, failure) := HandleOn(db, Orphan, actor.user, b, None, now);
      BaseMoves(db1, b, base.(maintainer := None));
    }
  }

  lemma AddRequestKeeps(db: Db, r: Request, b: nat)
    requires Inv(db) && b in db.bases && r.base == Some(b) && r.baseName == db.bases[b].name
    ensures Inv(AddRequest(db, r)) && Evolves(db.requests, AddRequest(db, r).requests)
  {}

  lemma AutoOrphanKeeps(db: Db, b: nat, id: nat)
    requires Inv(db) && b in db.bases && id in db.requests
    ensures Inv(AutoOrphan(db, b, id)) && Evolves(db.requests, AutoOrphan(db, b, id).requests)
  {
    var db1 := db.(requests := db.requests[id := db.requests[id].(status := Accepted)]);
    assert Inv(db1);
    BaseMoves(db1, b, db.bases[b].(maintainer := None));
  }

  lemma OpenKeeps(db: Db, actor: Actor, b: nat, kind: Kind, mergeInto: Option<string>, comments: string, now: int)
    requires Inv(db) && b in db.bases
    ensures var db' := OpenRequest(db, actor, b, kind, mergeInto, comments, now).0;
            Inv(db') && Evolves(db.requests, db'.requests)
  {
    var r := Filed(actor, b, db.bases[b].name, kind, mergeInto, comments, now);
    var db1 := AddRequest(db, r);
    AddRequestKeeps(db, r, b);
    FiledKeeps(db, db1, actor, b, db.next, comments, now);
    var db' := OpenRequest(db, actor, b, kind, mergeInto, comments, now).0;
    assert db' == db || db' == db1 || db' == AutoOrphan(db1, b, db.next)
        || db' == DeleteInstance(db1, actor, b, comments, now).0;
  }

  lemma FiledKeeps(db: Db, db1: Db, actor: Actor, b: nat, id: nat, comments: string, now: int)
    requires Inv(db1) && Evolves(db.requests, db1.requests) && b in db1.bases && id in db1.requests
    ensures Inv(AutoOrphan(db1, b, id)) && Evolves(db.requests, AutoOrphan(db1, b, id).requests)
    ensures var db' := DeleteInstance(db1, actor, b, comments, now).0; Inv(db') && Evolves(db.requests, db'.requests)
  {
    AutoOrphanKeeps(db1, b, id);
    EvolvesTransitive(db.requests, db1.requests, AutoOrphan(db1, b, id).requests);
    DeleteKeeps(db1, actor, b, comments, now);
    EvolvesTransitive(db.requests, db1.requests, DeleteInstance(db1, actor, b, comments, now).0.requests);
  }

  lemma ApiDisownKeeps(db: Db, actor: Actor, b: nat, pick: User)
    requires Inv(db) && b in db.bases && (db.bases[b].comaintainers != map[] ==> pick in db.bases[b].comaintainers)
    ensures var db' := ApiDisown(db, actor, b, pick).0;
            Inv(db') && Evolves(db.requests, db'.requests)
  {
    var base := db.bases[b];
    ApiSucceedDistinct(base.comaintainers, pick);
    var (maintainer, rest) := ApiSucceed(base.comaintainers, pick);
    BaseMoves(db, b, base.(maintainer := maintainer, comaintainers := rest));
    var rows' := ApiClosed(db.requests, b);
    forall id | id in db.requests
      ensures id in rows' && EvolvesTo(db.requests[id], rows'[id]) && rows'[id].base == db.requests[id].base
    {}
  }

  /** Every step keeps the invariants, removes no request and reopens none. */
  lemma StepKeeps(db: Db, actor: Actor, action: Action)
    requires Inv(db) && Possible(db, action)
    ensures Inv(Step(db, actor, action).0)
    ensures Evolves(db.requests, Step(db, actor, action).0.requests)
  {
    match action
    case Submit(b, name, packages, now) => BaseMoves(db, b, NewBase(name, actor.user, packages, now));
    case Edit(b, edit) =>
      OnBaseKeeps(db.bases[b], actor, edit);
      BaseMoves(db, b, OnBase(db.bases[b], actor, edit));
    case Disown(b, comments, now) =>
      var db1 := CommentOn(db, Orphan, b, comments, None);
      CommentMoves(db, Orphan, b, comments, None);
      DisownKeeps(db1, actor, b, now);
      EvolvesTransitive(db.requests, db1.requests, DisownInstance(db1, actor, b, now).0.requests);
    case DisownByApi(b, pick) => ApiDisownKeeps(db, actor, b, pick);
    case Open(b, kind, mergeInto, comments, now) => OpenKeeps(db, actor, b, kind, mergeInto, comments, now);
    case CloseOne(id, comments, now) =>
    case Delete(b, comments, now) =>
      var db1 := CommentOn(db, Deletion, b, comments, None);
      CommentMoves(db, Deletion, b, comments, None);
      DeleteKeeps(db1, actor, b, comments, now);
      EvolvesTransitive(db.requests, db1.requests, DeleteInstance(db1, actor, b, comments, now).0.requests);
    case MergeInto(b, t, comments, now) =>
      if actor.trusted && b != t {
        var target := Some(db.bases[t].name);
        var db1 := CommentOn(db, Merge, b, comments, target);
        CommentMoves(db, Merge, b, comments, target);
        MergeKeeps(db1, actor, b, t, now);
        EvolvesTransitive(db.requests, db1.requests, MergeInstance(db1, actor, b, t, now).0.requests);
      }
  }

  datatype Event = Event(actor: Actor, action: Action)

  ghost predicate IsRun(db: Db, events: seq<Event>)
    decreases |events|
  {
    events != [] ==> Possible(db, events[0].action) && IsRun(Step(db, events[0].actor, events[0].action).0, events[1..])
  }

  ghost function Run(db: Db, events: seq<Event>): Db
    requires IsRun(db, events)
    decreases |events|
  {
    if events == [] then db else Run(Step(db, events[0].actor, events[0].action).0, events[1..])
  }

  const EMPTY := Db(map[], map[], 0)

  /** Over every run of steps: distinct positive priorities, exact vote counts, references
      that match recorded names; no request row disappears and none is pending again. */
  lemma {:induction false} RunKeeps(db: Db, events: seq<Event>)
    requires Inv(db) && IsRun(db, events)
    ensures Inv(Run(db, events))
    ensures Evolves(db.requests, Run(db, events).requests)
    decreases |events|
  {
    if events != [] {
      var db1 := Step(db, events[0].actor, events[0].action).0;
      StepKeeps(db, events[0].actor, events[0].action);
      RunKeeps(db1, events[1..]);
      EvolvesTransitive(db.requests, db1.requests, Run(db, events).requests);
    }
  }

  // ---------------------------------------------------------------------------
  // Succession

  /** The maintainer of the time disowns the base, again and again. */
  ghost predicate OwnDisowns(db: Db, b: nat, events: seq<Event>)
    requires IsRun(db, events)
    decreases |events|
  {
    events != [] ==>
      var e := events[0];
      && e.action.Disown? && e.action.b == b && IsMaintainer(db.bases[b], e.actor)
      && OwnDisowns(Step(db, e.actor, e.action).0, b, events[1..])
  }

  /** Who maintains a base after `k` such steps: first `maintainer`, then the others in order. */
  function Successor(maintainer: User, order: seq<User>, k: nat): Option<User>
  {
    if k == 0 then Some(maintainer) else if k <= |order| then Some(order[k - 1]) else None
  }

  /** After `k` promotions: at most one more than there were comaintainers, the next in line
      maintains the base, those behind wait in their order, and other bases are as before. */
  ghost predicate Promoted(db: Db, db': Db, b: nat, maintainer: User, k: nat)
    requires b in db.bases
  {
    var order := Order(db.bases[b].comaintainers);
    && k <= |order| + 1 && |order| == |db.bases[b].comaintainers|
    && db'.bases.Keys == db.bases.Keys
    && (forall c | c in db.bases && c != b :: db'.bases[c] == db.bases[c])
    && db'.bases[b].maintainer == Successor(maintainer, order, k)
    && Order(db'.bases[b].comaintainers) == if k <= |order| then order[k..] else []
  }

  lemma OwnDisownStep(db: Db, b: nat, actor: Actor, comments: string, now: int)
    requires Inv(db) && b in db.bases && IsMaintainer(db.bases[b], actor)
    ensures Inv(Step(db, actor, Disown(b, comments, now)).0)
    ensures Promoted(db, Step(db, actor, Disown(b, comments, now)).0, b, actor.user, 1)
  {
    StepKeeps(db, actor, Disown(b, comments, now));
    var m := db.bases[b].comaintainers;
    SuccessorOrder(m);
    var db' := Step(db, actor, Disown(b, comments, now)).0;
    assert db'.bases == db.bases[b := db.bases[b].(maintainer := Succeed(m).0, comaintainers := Succeed(m).1)];
  }

  lemma SuccessorOrder(m: Priorities)
    requires Distinct(m)
    ensures |Order(m)| == |m|
    ensures Order(Succeed(m).1) == if m == map[] then [] else Order(m)[1..]
    ensures Succeed(m).0 == if m == map[] then None else Some(Order(m)[0])
  {
    OrderMembers(Order(m), m);
    if m != map[] {
      SucceedOrder(m);
    }
  }

  lemma PromotedAgain(db: Db, db1: Db, db2: Db, b: nat, maintainer: User, next: User, k: nat)
    requires b in db.bases && Promoted(db, db1, b, maintainer, 1)
    requires db1.bases[b].maintainer == Some(next) && Promoted(db1, db2, b, next, k)
    ensures Promoted(db, db2, b, maintainer, k + 1)
  {
    var order := Order(db.bases[b].comaintainers);
    assert order[0] == next && Order(db1.bases[b].comaintainers) == order[1..];
    if k + 1 <= |order| {
      assert order[1..][k..] == order[k + 1..];
    }
  }

  lemma PromotedNone(db: Db, b: nat, maintainer: User)
    requires Inv(db) && b in db.bases && db.bases[b].maintainer == Some(maintainer)
    ensures Promoted(db, db, b, maintainer, 0)
  {
    var order := Order(db.bases[b].comaintainers);
    OrderMembers(order, db.bases[b].comaintainers);
    assert order[0..] == order;
  }

  lemma FirstOwnDisown(db: Db, b: nat, maintainer: User, events: seq<Event>) returns (db1: Db)
    requires Inv(db) && b in db.bases && db.bases[b].maintainer == Some(maintainer)
    requires events != [] && IsRun(db, events) && OwnDisowns(db, b, events)
    ensures Inv(db1) && Promoted(db, db1, b, maintainer, 1)
    ensures IsRun(db1, events[1..]) && OwnDisowns(db1, b, events[1..]) && Run(db, events) == Run(db1, events[1..])
    ensures db1.bases[b].maintainer.None? ==> |events| == 1 && db1 == Run(db, events)
  {
    var e := events[0];
    db1 := Step(db, e.actor, e.action).0;
    OwnDisownStep(db, b, e.actor, e.action.comments, e.action.now);
  }

  lemma {:induction false} SuccessionRun(db: Db, b: nat, maintainer: User, events: seq<Event>) returns (db': Db)
    requires Inv(db) && b in db.bases && db.bases[b].maintainer == Some(maintainer)
    requires IsRun(db, events) && OwnDisowns(db, b, events)
    ensures db' == Run(db, events) && Promoted(db, db', b, maintainer, |events|)
    decreases |events|
  {
    if events == [] {
      PromotedNone(db, b, maintainer);
      db' := db;
    } else {
      var db1 := FirstOwnDisown(db, b, maintainer, events);
      if db1.bases[b].maintainer == None {
        db' := db1;
      } else {
        var next := db1.bases[b].maintainer.value;
        db' := SuccessionRun(db1, b, next, events[1..]);
        PromotedAgain(db, db1, db', b, maintainer, next, |events| - 1);
      }
    }
  }

  /** Succession over every run of such steps: they promote the comaintainers in ascending
      order of priority, one by one, and there are at most one more of them than
      comaintainers, the last of which orphans the base. */
  lemma SuccessionOrder(db: Db, b: nat, maintainer: User, events: seq<Event>)
    requires Inv(db) && b in db.bases && db.bases[b].maintainer == Some(maintainer)
    requires IsRun(db, events) && OwnDisowns(db, b, events)
    ensures Promoted(db, Run(db, events), b, maintainer, |events|)
  {
    var db' := SuccessionRun(db, b, maintainer, events);
  }

  /** And that many steps can always be taken. */
  lemma {:induction false} SuccessionGoesOn(db: Db, b: nat, k: nat, comments: string, now: int)
    returns (events: seq<Event>)
    requires Inv(db) && b in db.bases && (k > 0 ==> db.bases[b].maintainer.Some?)
    requires k <= |db.bases[b].comaintainers| + 1
    ensures |events| == k && IsRun(db, events) && OwnDisowns(db, b, events)
    decreases k
  {
    if k == 0 {
      events := [];
    } else {
      var actor := Actor(db.bases[b].maintainer.value, false);
      var first := Event(actor, Disown(b, comments, now));
      OwnDisownStep(db, b, actor, comments, now);
      var db1 := Step(db, actor, first.action).0;
      OrderMembers(Order(db1.bases[b].comaintainers), db1.bases[b].comaintainers);
      var rest := SuccessionGoesOn(db1, b, k - 1, comments, now);
      events := [first] + rest;
      assert events[1..] == rest;
    }
  }

  // ---------------------------------------------------------------------------
  // What the large steps do

  /** No step ever raises the unsupported-type error. */
  lemma UnsupportedIsUnreachable(db: Db, actor: Actor, action: Action)
    requires Possible(db, action)
    ensures Step(db, actor, action).1 != Raised(UnsupportedType)
  {
    if action.Disown? {
      var db1 := CommentOn(db, Orphan, action.b, action.comments, None);
      NeverUnsupported(db1, Orphan, actor.user, action.b, None, action.now);
    } else if action.Delete? {
      var db1 := CommentOn(db, Deletion, action.b, action.comments, None);
      NeverUnsupported(db1, Deletion, actor.user, action.b, None, action.now);
    } else if action.MergeInto? {
      var target := Some(db.bases[action.target].name);
      var db1 := CommentOn(db, Merge, action.b, action.comments, target);
      NeverUnsupported(db1, Merge, actor.user, action.b, target, action.now);
    } else if action.Open? {
      var r := Filed(actor, action.b, db.bases[action.b].name, action.kind, action.mergeInto, action.comments,
          action.now);
      NeverUnsupported(AddRequest(db, r), Deletion, actor.user, action.b, None, action.now);
    }
  }

  lemma NeverUnsupported(db: Db, kind: Kind, user: User, b: nat, target: Option<string>, now: int)
    requires b in db.bases && (kind.Merge? <==> target.Some?)
    ensures HandleOn(db, kind, user, b, target, now).1 != Some(UnsupportedType)
  {
    UnsupportedIff(db.requests, db.next, kind, user, SubjectOf(db, b, target), now, REQUEST_IDLE_TIME);
  }

  /** Pending requests of one kind about a base. */
  function PendingAbout(rows: Rows, kind: Kind, b: nat): set<nat>
  {
    set id | id in rows && rows[id].base == Some(b) && rows[id].kind == kind && rows[id].status.Pending?
  }

  /** Recorded names match, so handling a kind finds all pending requests of that kind. */
  lemma QueryFindsAll(db: Db, kind: Kind, b: nat, target: Option<string>)
    requires Inv(db) && b in db.bases
    ensures Query(db.requests, kind, SubjectOf(db, b, target)) == PendingAbout(db.requests, kind, b)
  {}

  /** Requests with the pending orphan requests about `b` accepted. */
  function OrphansAccepted(db: Db, user: User, b: nat, now: int): Rows
    requires b in db.bases
  {
    map id | id in db.requests ::
      if id in PendingAbout(db.requests, Orphan, b) then
        CloseOr(db.requests[id], user, SubjectOf(db, b, None), Accepted, now)
      else db.requests[id]
  }

  /** Handling orphan requests when one is due accepts all of them and creates none. */
  lemma DueOrphansHandled(db: Db, user: User, b: nat, now: int)
    requires Inv(db) && b in db.bases && HasDueOrphan(db.requests, b, now, REQUEST_IDLE_TIME)
    ensures HandleOn(db, Orphan, user, b, None, now) == (db.(requests := OrphansAccepted(db, user, b, now)), None)
    ensures PendingAbout(db.requests, Orphan, b) != {}
  {
    var s := SubjectOf(db, b, None);
    QueryFindsAll(db, Orphan, b, None);
    NeverUnsupported(db, Orphan, user, b, None, now);
    var due :| due in db.requests && db.requests[due].base == Some(b)
            && db.requests[due].kind.Orphan? && db.requests[due].status.Pending?;
    assert due in PendingAbout(db.requests, Orphan, b);
    assert ToAccept(db.requests, Orphan, s) == Query(db.requests, Orphan, s);
    assert ToReject(db.requests, Orphan, s) == {};
    assert CloseAll(db.requests, PendingAbout(db.requests, Orphan, b), {}, user, s, now)
        == OrphansAccepted(db, user, b, now);
  }

  /** A privileged disown fails exactly when no pending orphan request about the base is
      older than the idle time, and changes nothing then; otherwise it accepts all pending
      orphan requests of the base, creates none, touches no other request, and leaves the
      base without a maintainer. */
  lemma PrivilegedDisown(db: Db, actor: Actor, b: nat, now: int)
    requires Inv(db) && b in db.bases && actor.trusted && !IsMaintainer(db.bases[b], actor)
    ensures var (db', out) := DisownInstance(db, actor, b, now);
            var pending := PendingAbout(db.requests, Orphan, b);
            if exists id :: id in db.requests && IsDue(db.requests[id], b, now, REQUEST_IDLE_TIME) then
              && out == Done && db'.bases == db.bases[b := db.bases[b].(maintainer := None)]
              && db'.requests.Keys == db.requests.Keys && pending != {}
              && (forall id | id in pending :: ClosedAs(db.requests[id], db'.requests[id], actor.user, Accepted, now))
              && (forall id | id in db.requests && id !in pending :: db'.requests[id] == db.requests[id])
            else out == Raised(NoDueRequest) && db' == db
  {
    DueIff(db.requests, b, now, REQUEST_IDLE_TIME);
    if HasDueOrphan(db.requests, b, now, REQUEST_IDLE_TIME) {
      DueOrphansHandled(db, actor.user, b, now);
    }
  }

  /** What handling does before a base is deleted: all pending deletion requests about it,
      at least one, end up accepted. */
  lemma DeletionHandled(db: Db, user: User, b: nat, now: int)
    requires Inv(db) && b in db.bases
    ensures var (db1, failure) := HandleOn(db, Deletion, user, b, None, now);
            var pending := PendingAbout(db.requests, Deletion, b);
            && failure == None && db1.bases == db.bases && PendingAbout(db1.requests, Deletion, b) == {}
            && (forall id | id in pending :: id in db1.requests && db1.requests[id].status.Accepted?)
            && db1.requests.Keys == if pending == {} then db.requests.Keys + {db.next} else db.requests.Keys
  {
    var s := SubjectOf(db, b, None);
    NeverUnsupported(db, Deletion, user, b, None, now);
    HandledOutcome(db.requests, db.next, Deletion, user, s, now, REQUEST_IDLE_TIME);
    QueryFindsAll(db, Deletion, b, None);
    assert ToAccept(db.requests, Deletion, s) == Query(db.requests, Deletion, s);
    DeleteKeepsNames(db, user, b, now);
    QueryFindsAll(HandleOn(db, Deletion, user, b, None, now).0, Deletion, b, None);
  }

  /** Deleting succeeds, accepts every pending deletion request of the base (making one up
      if there is none), and by then the closure-comment update inside finds nothing to do;
      the base is gone, other bases are as before, and no request refers to it any more. */
  lemma DeleteOutcome(db: Db, actor: Actor, b: nat, comments: string, now: int)
    requires Inv(db) && b in db.bases
    ensures var (db', out) := DeleteInstance(db, actor, b, comments, now);
            var handled := HandleOn(db, Deletion, actor.user, b, None, now).0;
            && out == Done && db'.bases == db.bases - {b}
            && CommentOn(handled, Deletion, b, comments, None) == handled
            && (forall id | id in PendingAbout(db.requests, Deletion, b) ::
                  id in db'.requests && db'.requests[id].status.Accepted?)
            && (forall id | id in db'.requests :: db'.requests[id].base != Some(b))
            && (PendingAbout(db.requests, Deletion, b) == {} <==> db'.requests.Keys == db.requests.Keys + {db.next})
  {
    DeletionHandled(db, actor.user, b, now);
    var handled := HandleOn(db, Deletion, actor.user, b, None, now).0;
    NoOpenNoChange(handled.requests, Deletion, b, comments, None);
    assert db.next !in db.requests;
  }

  lemma DeleteKeepsNames(db: Db, user: User, b: nat, now: int)
    requires Inv(db) && b in db.bases
    ensures Inv(HandleOn(db, Deletion, user, b, None, now).0)
  {
    HandleMoves(db, Deletion, user, b, None, now);
  }

  /** A closure comment changes something only where a request of the kind is pending. */
  lemma NoOpenNoChange(rows: Rows, kind: Kind, b: nat, comments: string, target: Option<string>)
    requires PendingAbout(rows, kind, b) == {}
    ensures Commented(rows, kind, b, comments, target) == rows
  {
    forall id | id in rows ensures !IsOpen(rows[id], kind, b, target) {
      assert id !in PendingAbout(rows, kind, b);
    }
  }

  lemma UnionSize(a: set<User>, b: set<User>)
    ensures |a + b| == |a| + |b| - |a * b|
  {
    assert a + b == a + (b - a);
    assert b == (b - a) + (a * b);
  }

  /** Merging: the voters and the notified users are the unions, the target's vote times
      win, comments are conserved, and the vote count is |S| + |T| - |S and T|. */
  ghost predicate MergedWell(source: Base, target: Base, after: Base)
  {
    && after.votes.Keys == source.votes.Keys + target.votes.Keys
    && (forall u | u in target.votes :: after.votes[u] == target.votes[u])
    && (forall u | u in source.votes && u !in target.votes :: after.votes[u] == source.votes[u])
    && after.numVotes == |source.votes| + |target.votes| - |source.votes.Keys * target.votes.Keys|
    && after.notified == source.notified + target.notified
    && |after.comments| == |source.comments| + |target.comments|
    && multiset(after.comments) == multiset(source.comments) + multiset(target.comments)
    && after == target.(votes := after.votes, numVotes := after.numVotes,
                        notified := after.notified, comments := after.comments)
  }

  /** The source and its packages are gone and every base other than the target is as before. */
  lemma MergeOutcome(db: Db, actor: Actor, b: nat, t: nat, now: int)
    requires Inv(db) && b in db.bases && t in db.bases && b != t
    ensures MergeInstance(db, actor, b, t, now).1 == Done
    ensures var after := MergeInstance(db, actor, b, t, now).0.bases;
            && after.Keys == db.bases.Keys - {b}
            && (forall c | c in after && c != t :: after[c] == db.bases[c])
            && MergedWell(db.bases[b], db.bases[t], after[t])
  {
    MergeSucceeds(db, actor, b, t, now);
    VotesMerged(db.bases[b], db.bases[t]);
  }

  lemma MergeSucceeds(db: Db, actor: Actor, b: nat, t: nat, now: int)
    requires b in db.bases && t in db.bases && b != t
    ensures MergeInstance(db, actor, b, t, now).1 == Done
  {
    NeverUnsupported(db, Merge, actor.user, b, Some(db.bases[t].name), now);
  }

  /** Of the pending merge requests about the source, those into the target are accepted
      and the others rejected. */
  lemma MergeSettlesRequests(db: Db, actor: Actor, b: nat, t: nat, now: int, id: nat)
    requires Inv(db) && b in db.bases && t in db.bases && b != t
    requires id in PendingAbout(db.requests, Merge, b)
    ensures var db' := MergeInstance(db, actor, b, t, now).0;
            && id in db'.requests && db'.requests[id].base == None
            && db'.requests[id].status
                 == if db.requests[id].mergeInto == Some(db.bases[t].name) then Accepted else Rejected
  {
    var name := Some(db.bases[t].name);
    var s := SubjectOf(db, b, name);
    NeverUnsupported(db, Merge, actor.user, b, name, now);
    HandledOutcome(db.requests, db.next, Merge, actor.user, s, now, REQUEST_IDLE_TIME);
    QueryFindsAll(db, Merge, b, name);
    var handled := HandleOn(db, Merge, actor.user, b, name, now).0.requests;
    var wanted := db.requests[id].mergeInto == name;
    assert if wanted then id in ToAccept(db.requests, Merge, s) else id in ToReject(db.requests, Merge, s);
    assert ClosedAs(db.requests[id], handled[id], actor.user, if wanted then Accepted else Rejected, now);
  }

  lemma VotesMerged(source: Base, target: Base)
    ensures MergedWell(source, target, Merged(source, target))
  {
    var after := Merged(source, target);
    assert after.votes.Keys == source.votes.Keys + target.votes.Keys;
    UnionSize(source.votes.Keys, target.votes.Keys);
  }

  /** A vote can be taken back, and a flag by whoever set it; nothing else is left behind. */
  lemma UndoRestores(base: Base, actor: Actor, comment: string, now: int)
    requires BaseOk(base)
    ensures actor.user !in base.votes ==> OnBase(OnBase(base, actor, Vote(now)), actor, Unvote) == base
    ensures base.flagger.None? && base.outOfDateTS.None? && base.flaggerComment == "" ==>
              OnBase(OnBase(base, actor, Flag(comment, now)), actor, Unflag) == base
    ensures actor.user !in base.notified ==> OnBase(OnBase(base, actor, Notify), actor, Unnotify) == base
  {
    if actor.user !in base.votes {
      AddRemove(base.votes, actor.user, now);
    }
    if actor.user !in base.notified {
      assert base.notified + {actor.user} - {actor.user} == base.notified;
    }
  }

  lemma AddRemove<K, V>(m: map<K, V>, k: K, v: V)
    requires k !in m
    ensures m[k := v] - {k} == m
  {}

  /** A request that is accepted for filing gets a fresh row.  It stays pending, except that
      an orphan request about a base flagged long ago orphans it at once, and a maintainer's
      deletion request soon after submission deletes the base; both end up accepted. */
  lemma OpenOutcome(db: Db, actor: Actor, b: nat, kind: Kind, mergeInto: Option<string>, comments: string, now: int)
    requires Inv(db) && b in db.bases && Acceptable(db, b, kind, mergeInto, comments)
    ensures var (db', out) := OpenRequest(db, actor, b, kind, mergeInto, comments, now);
            var base, id := db.bases[b], db.next;
            var orphaned := kind.Orphan? && FlaggedLongAgo(base, now);
            var deleted := kind.Deletion? && IsMaintainer(base, actor) && now - base.submittedTS <= AUTO_DELETE_AGE;
            && out == Done && id !in db.requests && db'.requests.Keys == db.requests.Keys + {id}
            && db'.requests[id].requester == actor.user && db'.requests[id].kind == kind
            && db'.requests[id].baseName == base.name
            && db'.requests[id].status == (if orphaned || deleted then Accepted else Pending)
            && db'.bases == (if deleted then db.bases - {b}
                             else if orphaned then db.bases[b := base.(maintainer := None)]
                             else db.bases)
  {
    var base := db.bases[b];
    var db1 := AddRequest(db, Filed(actor, b, base.name, kind, mergeInto, comments, now));
    AddRequestKeeps(db, Filed(actor, b, base.name, kind, mergeInto, comments, now), b);
    if kind.Deletion? && IsMaintainer(base, actor) && now - base.submittedTS <= AUTO_DELETE_AGE {
      FiledIsDeleted(db1, actor, b, comments, now, db.next);
    }
  }

  lemma FiledIsDeleted(db: Db, actor: Actor, b: nat, comments: string, now: int, id: nat)
    requires Inv(db) && b in db.bases && id in PendingAbout(db.requests, Deletion, b)
    ensures var (db', out) := DeleteInstance(db, actor, b, comments, now);
            && out == Done && db'.bases == db.bases - {b} && db'.requests.Keys == db.requests.Keys
            && db'.requests[id].status.Accepted? && db'.requests[id].requester == db.requests[id].requester
            && db'.requests[id].kind.Deletion? && db'.requests[id].baseName == db.requests[id].baseName
  {
    DeleteOutcome(db, actor, b, comments, now);
    DeleteKeeps(db, actor, b, comments, now);
    var db' := DeleteInstance(db, actor, b, comments, now).0;
    assert EvolvesTo(db.requests[id], db'.requests[id]);
    QueryFindsAll(db, Deletion, b, None);
    HandledOutcome(db.requests, db.next, Deletion, actor.user, SubjectOf(db, b, None), now, REQUEST_IDLE_TIME);
    assert id in ToAccept(db.requests, Deletion, SubjectOf(db, b, None));
    assert db'.requests.Keys == HandleOn(db, Deletion, actor.user, b, None, now).0.requests.Keys;
  }

  lemma ApiClosedOutcome(rows: Rows, b: nat)
    ensures var rows' := ApiClosed(rows, b);
            && PendingAbout(rows', Orphan, b) == {} && rows'.Keys == rows.Keys
            && forall id | id in rows ::
                 rows'[id].status == if id in PendingAbout(rows, Orphan, b) then Closed else rows[id].status
  {}

  lemma ApiSucceedOutcome(m: Priorities, pick: User)
    requires m != map[] ==> pick in m
    ensures var (maintainer, rest) := ApiSucceed(m, pick);
            if m == map[] then maintainer == None && rest == map[]
            else && maintainer == Some(pick) && pick !in rest && rest.Keys + {pick} == m.Keys
                 && forall u | u in rest :: rest[u] == m[u]
  {}

  /** The API's disown leaves no orphan request about the base pending, promotes one of the
      comaintainers and removes that one's row only, or orphans the base without any. */
  lemma ApiDisownOutcome(db: Db, actor: Actor, b: nat, pick: User)
    requires b in db.bases && (db.bases[b].comaintainers != map[] ==> pick in db.bases[b].comaintainers)
    requires IsMaintainer(db.bases[b], actor)
    ensures var (db', out) := ApiDisown(db, actor, b, pick);
            var base, base' := db.bases[b], db'.bases[b];
            && out == Done && PendingAbout(db'.requests, Orphan, b) == {} && db'.requests.Keys == db.requests.Keys
            && (forall id | id in db.requests :: db'.requests[id].status ==
                  if id in PendingAbout(db.requests, Orphan, b) then Closed else db.requests[id].status)
            && base' == base.(maintainer := base'.maintainer, comaintainers := base'.comaintainers)
            && (base.comaintainers == map[] ==> base'.maintainer == None)
            && (base.comaintainers != map[] ==>
                  && base'.maintainer == Some(pick) && pick !in base'.comaintainers
                  && base'.comaintainers.Keys + {pick} == base.comaintainers.Keys
                  && forall u | u in base'.comaintainers :: base'.comaintainers[u] == base.comaintainers[u])
  {
    ApiClosedOutcome(db.requests, b);
    ApiSucceedOutcome(db.bases[b].comaintainers, pick);
  }
}
