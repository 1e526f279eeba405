/** Who may take which step, and what each step leaves behind, told without the functions
    that compute it. */
module Steps {
  import opened Wrappers
  import opened Comaintainers
  import opened Requests
  import opened Lifecycle

  // ---------------------------------------------------------------------------
  // Who may

  /** What a step is refused for: a missing credential, or a form that does not validate. */
  ghost predicate Forbidden(db: Db, actor: Actor, action: Action)
    requires Possible(db, action)
  {
    match action
    case Delete(_, _, _) => !actor.trusted
    case MergeInto(b, t, _, _) => !actor.trusted || b == t
    case Disown(b, _, _) => !actor.trusted && db.bases[b].maintainer != Some(actor.user)
    case DisownByApi(b, _) => db.bases[b].maintainer != Some(actor.user)
    case CloseOne(id, _, _) => !actor.trusted && db.requests[id].requester != actor.user
    case Open(b, kind, mergeInto, comments, _) =>
      comments == "" || (kind == Merge && forall t | t in db.bases && t != b :: mergeInto != Some(db.bases[t].name))
    case _ => false
  }

  /** A step is refused exactly when it is forbidden, and then changes nothing. */
  lemma RefusedIff(db: Db, actor: Actor, action: Action)
    requires Possible(db, action)
    ensures Step(db, actor, action).1 == Refused <==> Forbidden(db, actor, action)
    ensures Forbidden(db, actor, action) ==> Step(db, actor, action).0 == db
  {}

  /** The steps that make an existing base go: a trusted user's deletion or merge, and its
      maintainer's deletion request within a day of submission. */
  ghost predicate Removes(db: Db, actor: Actor, action: Action, b: nat)
    requires b in db.bases
  {
    match action
    case Delete(of, _, _) => of == b && actor.trusted
    case MergeInto(of, t, _, _) => of == b && t != b && actor.trusted
    case Open(of, kind, _, comments, now) =>
      && of == b && kind == Deletion && comments != ""
      && db.bases[b].maintainer == Some(actor.user) && now - db.bases[b].submittedTS <= AUTO_DELETE_AGE
    case _ => false
  }

  /** A base goes in a step exactly when the step is one of those. */
  lemma RemovedIff(db: Db, actor: Actor, action: Action, b: nat)
    requires Inv(db) && Possible(db, action) && b in db.bases
    ensures b !in Step(db, actor, action).0.bases <==> Removes(db, actor, action, b)
  {
    match action
    case Delete(of, comments, now) =>
      if actor.trusted {
        CommentKeeps(db, Deletion, of, comments, None);
        DeleteOutcome(CommentOn(db, Deletion, of, comments, None), actor, of, comments, now);
      }
    case MergeInto(of, t, comments, now) =>
      if actor.trusted && of != t {
        MergeSucceeds(CommentOn(db, Merge, of, comments, Some(db.bases[t].name)), actor, of, t, now);
      }
    case Open(of, kind, mergeInto, comments, now) =>
      if !Forbidden(db, actor, action) {
        OpenOutcome(db, actor, of, kind, mergeInto, comments, now);
      }
    case _ =>
  }

  lemma CommentKeeps(db: Db, kind: Kind, b: nat, comments: string, target: Option<string>)
    requires Inv(db)
    ensures Inv(CommentOn(db, kind, b, comments, target))
  {
    CommentMoves(db, kind, b, comments, target);
  }

  /** A base stays through every run without such a step. */
  ghost predicate NeverRemoves(db: Db, events: seq<Event>, b: nat)
    requires IsRun(db, events) && b in db.bases
    decreases |events|
  {
    events != [] ==>
      var db1 := Step(db, events[0].actor, events[0].action).0;
      && !Removes(db, events[0].actor, events[0].action, b)
      && (b in db1.bases ==> NeverRemoves(db1, events[1..], b))
  }

  lemma {:induction false} BaseStays(db: Db, events: seq<Event>, b: nat)
    requires Inv(db) && IsRun(db, events) && b in db.bases && NeverRemoves(db, events, b)
    ensures b in Run(db, events).bases
    decreases |events|
  {
    if events != [] {
      RemovedIff(db, events[0].actor, events[0].action, b);
      StepKeeps(db, events[0].actor, events[0].action);
      BaseStays(Step(db, events[0].actor, events[0].action).0, events[1..], b);
    }
  }

  // ---------------------------------------------------------------------------
  // Edits of one base

  /** An edit changes one base and nothing else. */
  lemma EditIsLocal(db: Db, actor: Actor, b: nat, edit: BaseAction)
    requires Possible(db, Edit(b, edit))
    ensures var (db', out) := Step(db, actor, Edit(b, edit));
            && out == Done && db'.requests == db.requests && db'.next == db.next
            && db'.bases.Keys == db.bases.Keys && db'.bases[b] == OnBase(db.bases[b], actor, edit)
            && forall c | c in db.bases && c != b :: db'.bases[c] == db.bases[c]
  {}

  /** After voting there is exactly one vote of the user, the old one if there was one. */
  lemma VoteOutcome(base: Base, actor: Actor, now: int)
    requires BaseOk(base)
    ensures var after := OnBase(base, actor, Vote(now));
            && after.votes.Keys == base.votes.Keys + {actor.user}
            && (forall u | u in base.votes :: after.votes[u] == base.votes[u])
            && (actor.user !in base.votes ==> after.votes[actor.user] == now)
            && after.numVotes == |base.votes| + (if actor.user in base.votes then 0 else 1)
            && after == base.(votes := after.votes, numVotes := after.numVotes)
  {
    if actor.user !in base.votes {
      assert base.votes[actor.user := now].Keys == base.votes.Keys + {actor.user};
    } else {
      assert base.votes.Keys + {actor.user} == base.votes.Keys;
    }
  }

  /** After taking a vote back there is none of the user. */
  lemma UnvoteOutcome(base: Base, actor: Actor)
    requires BaseOk(base)
    ensures var after := OnBase(base, actor, Unvote);
            && after.votes.Keys == base.votes.Keys - {actor.user}
            && (forall u | u in after.votes :: after.votes[u] == base.votes[u])
            && after.numVotes == |base.votes| - (if actor.user in base.votes then 1 else 0)
            && after == base.(votes := after.votes, numVotes := after.numVotes)
  {
    if actor.user in base.votes {
      assert base.votes.Keys == (base.votes - {actor.user}).Keys + {actor.user};
    } else {
      assert base.votes.Keys - {actor.user} == base.votes.Keys;
    }
  }

  /** Notifications: the user is on the list afterwards, or off it; nobody else moves. */
  lemma NotifyOutcome(base: Base, actor: Actor, u: User)
    ensures var on, off := OnBase(base, actor, Notify), OnBase(base, actor, Unnotify);
            && (u in on.notified <==> u in base.notified || u == actor.user)
            && (u in off.notified <==> u in base.notified && u != actor.user)
            && on == base.(notified := on.notified) && off == base.(notified := off.notified)
  {}

  /** A flag is set with its comment unless there is one or the comment is empty; it is
      taken off by trusted users, its setter and the maintainer only. */
  lemma FlagOutcome(base: Base, actor: Actor, comment: string, now: int)
    ensures var on, off := OnBase(base, actor, Flag(comment, now)), OnBase(base, actor, Unflag);
            var mayUnflag := actor.trusted || Some(actor.user) == base.flagger || Some(actor.user) == base.maintainer;
            && (comment != "" && base.flagger == None ==>
                  on.flagger == Some(actor.user) && on.outOfDateTS == Some(now) && on.flaggerComment == comment)
            && (comment == "" || base.flagger != None ==> on == base)
            && (mayUnflag ==> off.flagger == None && off.outOfDateTS == None && off.flaggerComment == "")
            && (!mayUnflag ==> off == base)
            && on == base.(flagger := on.flagger, outOfDateTS := on.outOfDateTS, flaggerComment := on.flaggerComment)
            && off == base.(flagger := off.flagger, outOfDateTS := off.outOfDateTS,
                            flaggerComment := off.flaggerComment)
  {}

  /** Only trusted users take a base over from somebody, and the API gives orphans only; the
      API also puts the new maintainer on the list. */
  lemma AdoptOutcome(base: Base, actor: Actor)
    ensures var web, api := OnBase(base, actor, Adopt), OnBase(base, actor, ApiAdopt);
            && web.maintainer
                 == (if actor.trusted || base.maintainer == None then Some(actor.user) else base.maintainer)
            && api.maintainer == (if base.maintainer == None then Some(actor.user) else base.maintainer)
            && api.notified == (if base.maintainer == None then base.notified + {actor.user} else base.notified)
            && web == base.(maintainer := web.maintainer)
            && api == base.(maintainer := api.maintainer, notified := api.notified)
  {}

  lemma AddCommentOutcome(base: Base, actor: Actor, id: nat, notify: bool)
    ensures var after := OnBase(base, actor, AddComment(id, notify));
            && |after.comments| == |base.comments| + 1 && base.comments <= after.comments
            && after.comments[|base.comments|] == id
            && after.notified == (if notify then base.notified + {actor.user} else base.notified)
            && after == base.(comments := after.comments, notified := after.notified)
  {}

  /** The requested comaintainers, as far as they may be, with the priorities 1 to n. */
  ghost predicate WellEdited(base: Base, after: Priorities, requested: set<User>, users: set<User>)
  {
    var allKnown := forall u | u in requested && u !in base.comaintainers :: u in users;
    && (forall i :: i in after.Values <==> 1 <= i <= |after|)
    && forall u :: u in after <==>
         u in requested && (u in base.comaintainers || (allKnown && Some(u) != base.maintainer))
  }

  lemma EditedWell(base: Base, requested: set<User>, users: set<User>, added: seq<User>)
    requires Distinct(base.comaintainers) && IsNewcomers(added, base.comaintainers, requested)
    ensures WellEdited(base, Number(EditedOrder(base.maintainer, base.comaintainers, requested, users, added), 1),
                       requested, users)
  {
    EditOutcome(base.maintainer, base.comaintainers, requested, users, added);
  }

  /** Comaintainers are edited by trusted users and the maintainer only. */
  lemma SetComaintainersOutcome(base: Base, actor: Actor, requested: set<User>, users: set<User>, added: seq<User>)
    requires BaseOk(base) && IsNewcomers(added, base.comaintainers, requested)
    ensures var after := OnBase(base, actor, SetComaintainers(requested, users, added));
            && after == base.(comaintainers := after.comaintainers)
            && if actor.trusted || base.maintainer == Some(actor.user)
               then WellEdited(base, after.comaintainers, requested, users) else after == base
  {
    EditedWell(base, requested, users, added);
    assert base.(comaintainers := base.comaintainers) == base;
  }

  /** A base that is submitted belongs to its submitter, who is on the list; all else is empty. */
  lemma SubmitOutcome(db: Db, actor: Actor, b: nat, name: string, packages: set<string>, now: int)
    requires Possible(db, Submit(b, name, packages, now))
    ensures var db' := Step(db, actor, Submit(b, name, packages, now)).0;
            && db'.bases.Keys == db.bases.Keys + {b} && db'.requests == db.requests
            && (forall c | c in db.bases :: db'.bases[c] == db.bases[c])
            && var base := db'.bases[b];
               && base.name == name && base.maintainer == Some(actor.user) && base.packages == packages
               && base.submittedTS == now && base.notified == {actor.user}
               && base.comaintainers == map[] && base.votes == map[] && base.numVotes == 0 && base.comments == []
               && base.flagger == None && base.outOfDateTS == None && base.flaggerComment == ""
  {}

  // ---------------------------------------------------------------------------
  // Requests

  /** `r'` is `r` closed by `closer`; `comments` stand in it if there were any, else the old
      closure comment, else some text. */
  ghost predicate Settled(r: Request, r': Request, closer: User, status: Status, now: int, comments: string)
  {
    && r'.status == status && r'.closer == Some(closer) && r'.closedTS == Some(now) && r'.closure != ""
    && (comments != "" ==> r'.closure == comments)
    && (comments == "" && r.closure != "" ==> r'.closure == r.closure)
    && r' == r.(status := status, closer := r'.closer, closedTS := r'.closedTS, closure := r'.closure, base := r'.base)
  }

  ghost predicate IsPending(r: Request, kind: Kind, b: nat)
  {
    r.base == Some(b) && r.kind == kind && r.status == Pending
  }

  /** `r'` is the request `r` after its comment and a successful handling for the base `b`. */
  ghost predicate HandledFrom(r: Request, r': Request, kind: Kind, b: nat, target: Option<string>,
                              closer: User, now: int, comments: string)
  {
    if !IsPending(r, kind, b) then r' == r
    else r'.base == r.base &&
         if kind == Merge && r.mergeInto != target then Settled(r, r', closer, Rejected, now, "")
         else Settled(r, r', closer, Accepted, now, comments)
  }

  lemma CommentedAndHandled(db: Db, kind: Kind, user: User, b: nat, comments: string, target: Option<string>,
                            now: int, id: nat)
    requires Inv(db) && b in db.bases && id in db.requests && (kind == Merge <==> target.Some?)
    requires HandleOn(CommentOn(db, kind, b, comments, target), kind, user, b, target, now).1 == None
    ensures var rows' := HandleOn(CommentOn(db, kind, b, comments, target), kind, user, b, target, now).0.requests;
            id in rows' && HandledFrom(db.requests[id], rows'[id], kind, b, target, user, now, comments)
  {
    var db1 := CommentOn(db, kind, b, comments, target);
    CommentKeeps(db, kind, b, comments, target);
    CommentedOutcome(db.requests, kind, b, comments, target, id);
    HandledRow(db1.requests, db1.next, kind, user, SubjectOf(db1, b, target), now, REQUEST_IDLE_TIME, id);
  }

  ghost predicate DetachedFrom(r: Request, r': Request, b: nat)
  {
    r' == if r.base == Some(b) then r.(base := None) else r
  }

  lemma DetachedOutcome(rows: Rows, b: nat, id: nat)
    requires id in rows
    ensures id in Detached(rows, b) && DetachedFrom(rows[id], Detached(rows, b)[id], b)
  {}

  /** `r'` is the request `r` after its base `b` has gone: no longer about a base, and
      otherwise as `kept` says. */
  ghost predicate DeletedRow(r: Request, r': Request, b: nat, closer: User, now: int, comments: string)
  {
    if r.base != Some(b) then r' == r
    else r'.base == None &&
         if IsPending(r, Deletion, b) then Settled(r, r', closer, Accepted, now, comments) else r' == r.(base := None)
  }

  lemma DeleteInstanceIs(db: Db, actor: Actor, b: nat, comments: string, now: int)
    requires Inv(db) && b in db.bases
    ensures var handled := HandleOn(db, Deletion, actor.user, b, None, now);
            var (db', out) := DeleteInstance(db, actor, b, comments, now);
            && handled.1 == None && out == Done && db'.bases == db.bases - {b}
            && db'.requests == Detached(handled.0.requests, b)
  {
    DeleteOutcome(db, actor, b, comments, now);
    DeletionHandled(db, actor.user, b, now);
  }

  lemma StepIsDelete(db: Db, actor: Actor, b: nat, comments: string, now: int)
    requires b in db.bases && actor.trusted
    ensures Step(db, actor, Delete(b, comments, now))
         == DeleteInstance(CommentOn(db, Deletion, b, comments, None), actor, b, comments, now)
  {}

  lemma DetachedIsDeleted(r: Request, handled: Request, r': Request, b: nat, closer: User, now: int, comments: string)
    requires HandledFrom(r, handled, Deletion, b, None, closer, now, comments) && DetachedFrom(handled, r', b)
    ensures DeletedRow(r, r', b, closer, now, comments)
  {}

  lemma DeleteRow(db: Db, actor: Actor, b: nat, comments: string, now: int, id: nat)
    requires Inv(db) && b in db.bases && actor.trusted && id in db.requests
    ensures var rows' := Step(db, actor, Delete(b, comments, now)).0.requests;
            id in rows' && DeletedRow(db.requests[id], rows'[id], b, actor.user, now, comments)
  {
    var db1 := CommentOn(db, Deletion, b, comments, None);
    CommentKeeps(db, Deletion, b, comments, None);
    StepIsDelete(db, actor, b, comments, now);
    DeleteInstanceIs(db1, actor, b, comments, now);
    CommentedAndHandled(db, Deletion, actor.user, b, comments, None, now, id);
    var rows1 := HandleOn(db1, Deletion, actor.user, b, None, now).0.requests;
    DetachedOutcome(rows1, b, id);
    DetachedIsDeleted(db.requests[id], rows1[id], Detached(rows1, b)[id], b, actor.user, now, comments);
  }

  /** A trusted user's deletion: the base is gone, others are as before; pending deletion
      requests about it are accepted, with the comment given; all requests about it lose
      their reference and nothing else; requests about other bases are as before. */
  lemma DeleteStep(db: Db, actor: Actor, b: nat, comments: string, now: int)
    requires Inv(db) && b in db.bases && actor.trusted
    ensures Step(db, actor, Delete(b, comments, now)).1 == Done
    ensures Step(db, actor, Delete(b, comments, now)).0.bases == db.bases - {b}
    ensures forall id | id in db.requests ::
              && id in Step(db, actor, Delete(b, comments, now)).0.requests
              && DeletedRow(db.requests[id], Step(db, actor, Delete(b, comments, now)).0.requests[id], b,
                            actor.user, now, comments)
  {
    CommentKeeps(db, Deletion, b, comments, None);
    StepIsDelete(db, actor, b, comments, now);
    DeleteInstanceIs(CommentOn(db, Deletion, b, comments, None), actor, b, comments, now);
    forall id | id in db.requests
      ensures id in Step(db, actor, Delete(b, comments, now)).0.requests
      ensures DeletedRow(db.requests[id], Step(db, actor, Delete(b, comments, now)).0.requests[id], b,
                         actor.user, now, comments)
    {
      DeleteRow(db, actor, b, comments, now, id);
    }
  }

  /** `r'` is the request `r` after its base `b` has been merged into the base called `into`. */
  ghost predicate MergedRow(r: Request, r': Request, b: nat, into: string, closer: User, now: int, comments: string)
  {
    if r.base != Some(b) then r' == r
    else r'.base == None &&
         if !IsPending(r, Merge, b) then r' == r.(base := None)
         else if r.mergeInto == Some(into) then Settled(r, r', closer, Accepted, now, comments)
         else Settled(r, r', closer, Rejected, now, "")
  }

  lemma MergeInstanceIs(db: Db, actor: Actor, b: nat, t: nat, now: int)
    requires b in db.bases && t in db.bases && b != t
    ensures var handled := HandleOn(db, Merge, actor.user, b, Some(db.bases[t].name), now);
            var (db', out) := MergeInstance(db, actor, b, t, now);
            && handled.1 == None && out == Done
            && db'.bases == db.bases[t := Merged(db.bases[b], db.bases[t])] - {b}
            && db'.requests == Detached(handled.0.requests, b)
  {
    NeverUnsupported(db, Merge, actor.user, b, Some(db.bases[t].name), now);
    MergeSucceeds(db, actor, b, t, now);
  }

  lemma PostIsMerge(db: Db, actor: Actor, b: nat, t: nat, comments: string, now: int)
    requires b in db.bases && t in db.bases && b != t && actor.trusted
    ensures PostMerge(db, actor, b, t, comments, now)
         == MergeInstance(CommentOn(db, Merge, b, comments, Some(db.bases[t].name)), actor, b, t, now)
  {}

  lemma StepIsMerge(db: Db, actor: Actor, b: nat, t: nat, comments: string, now: int)
    requires b in db.bases && t in db.bases && b != t && actor.trusted
    ensures Step(db, actor, MergeInto(b, t, comments, now))
         == MergeInstance(CommentOn(db, Merge, b, comments, Some(db.bases[t].name)), actor, b, t, now)
  {
    PostIsMerge(db, actor, b, t, comments, now);
  }

  lemma DetachedIsMerged(r: Request, handled: Request, r': Request, b: nat, into: string, closer: User, now: int,
                         comments: string)
    requires HandledFrom(r, handled, Merge, b, Some(into), closer, now, comments) && DetachedFrom(handled, r', b)
    ensures MergedRow(r, r', b, into, closer, now, comments)
  {}

  lemma MergeRow(db: Db, actor: Actor, b: nat, t: nat, comments: string, now: int, id: nat)
    requires Inv(db) && b in db.bases && t in db.bases && b != t && actor.trusted && id in db.requests
    ensures var rows' := Step(db, actor, MergeInto(b, t, comments, now)).0.requests;
            && id in rows'
            && MergedRow(db.requests[id], rows'[id], b, db.bases[t].name, actor.user, now, comments)
  {
    var into := db.bases[t].name;
    var db1 := CommentOn(db, Merge, b, comments, Some(into));
    StepIsMerge(db, actor, b, t, comments, now);
    MergeInstanceIs(db1, actor, b, t, now);
    CommentedAndHandled(db, Merge, actor.user, b, comments, Some(into), now, id);
    var rows1 := HandleOn(db1, Merge, actor.user, b, Some(into), now).0.requests;
    DetachedOutcome(rows1, b, id);
    DetachedIsMerged(db.requests[id], rows1[id], Detached(rows1, b)[id], b, into, actor.user, now, comments);
  }

  /** A trusted user's merge: the target has taken everything over, the source is gone,
      others are as before; requests are settled as its rows say. */
  lemma MergeStep(db: Db, actor: Actor, b: nat, t: nat, comments: string, now: int)
    requires Inv(db) && b in db.bases && t in db.bases && b != t && actor.trusted
    ensures Step(db, actor, MergeInto(b, t, comments, now)).1 == Done
    ensures var after := Step(db, actor, MergeInto(b, t, comments, now)).0.bases;
            && after.Keys == db.bases.Keys - {b}
            && (forall c | c in after && c != t :: after[c] == db.bases[c])
            && MergedWell(db.bases[b], db.bases[t], after[t])
    ensures forall id | id in db.requests ::
              && id in Step(db, actor, MergeInto(b, t, comments, now)).0.requests
              && MergedRow(db.requests[id], Step(db, actor, MergeInto(b, t, comments, now)).0.requests[id], b,
                           db.bases[t].name, actor.user, now, comments)
  {
    StepIsMerge(db, actor, b, t, comments, now);
    MergeInstanceIs(CommentOn(db, Merge, b, comments, Some(db.bases[t].name)), actor, b, t, now);
    VotesMerged(db.bases[b], db.bases[t]);
    forall id | id in db.requests
      ensures id in Step(db, actor, MergeInto(b, t, comments, now)).0.requests
      ensures MergedRow(db.requests[id], Step(db, actor, MergeInto(b, t, comments, now)).0.requests[id], b,
                        db.bases[t].name, actor.user, now, comments)
    {
      MergeRow(db, actor, b, t, comments, now, id);
    }
  }

  ghost predicate SomeDue(db: Db, b: nat, now: int)
  {
    exists id :: id in db.requests && IsDue(db.requests[id], b, now, REQUEST_IDLE_TIME)
  }

  /** `r'` is the request `r` after a trusted user tried to disown `b` with some being due or not. */
  ghost predicate DisownedRow(r: Request, r': Request, b: nat, due: bool, closer: User, now: int, comments: string)
  {
    if !IsPending(r, Orphan, b) then r' == r
    else if due then r'.base == r.base && Settled(r, r', closer, Accepted, now, comments)
    else r' == r.(closure := if comments != "" then comments else r.closure)
  }

  lemma CommentKeepsDue(db: Db, b: nat, comments: string, now: int)
    ensures SomeDue(CommentOn(db, Orphan, b, comments, None), b, now) <==> SomeDue(db, b, now)
  {
    var rows' := CommentOn(db, Orphan, b, comments, None).requests;
    forall id | id in db.requests
      ensures id in rows'
      ensures IsDue(rows'[id], b, now, REQUEST_IDLE_TIME) <==> IsDue(db.requests[id], b, now, REQUEST_IDLE_TIME)
    {
      CommentedOutcome(db.requests, Orphan, b, comments, None, id);
    }
  }

  lemma DisownRow(db: Db, actor: Actor, b: nat, comments: string, now: int, id: nat)
    requires Inv(db) && b in db.bases && actor.trusted && db.bases[b].maintainer != Some(actor.user)
    requires id in db.requests
    ensures var rows' := Step(db, actor, Disown(b, comments, now)).0.requests;
            id in rows' && DisownedRow(db.requests[id], rows'[id], b, SomeDue(db, b, now), actor.user, now, comments)
  {
    var db1 := CommentOn(db, Orphan, b, comments, None);
    CommentKeeps(db, Orphan, b, comments, None);
    CommentKeepsDue(db, b, comments, now);
    CommentedOutcome(db.requests, Orphan, b, comments, None, id);
    PrivilegedDisown(db1, actor, b, now);
    assert id in PendingAbout(db1.requests, Orphan, b) <==> IsPending(db.requests[id], Orphan, b);
  }

  /** A trusted user's disown of somebody else's base goes through exactly when an orphan
      request is due.  If none is, an error is raised and the maintainer stays, although the
      comment given has been written into the pending orphan requests by then. */
  lemma DisownStep(db: Db, actor: Actor, b: nat, comments: string, now: int)
    requires Inv(db) && b in db.bases && actor.trusted && db.bases[b].maintainer != Some(actor.user)
    ensures var (db', out) := Step(db, actor, Disown(b, comments, now));
            && out == (if SomeDue(db, b, now) then Done else Raised(NoDueRequest))
            && db'.bases == (if SomeDue(db, b, now) then db.bases[b := db.bases[b].(maintainer := None)] else db.bases)
            && db'.requests.Keys == db.requests.Keys
    ensures forall id | id in db.requests ::
              && id in Step(db, actor, Disown(b, comments, now)).0.requests
              && DisownedRow(db.requests[id], Step(db, actor, Disown(b, comments, now)).0.requests[id], b,
                             SomeDue(db, b, now), actor.user, now, comments)
  {
    CommentKeeps(db, Orphan, b, comments, None);
    CommentKeepsDue(db, b, comments, now);
    PrivilegedDisown(CommentOn(db, Orphan, b, comments, None), actor, b, now);
    forall id | id in db.requests
      ensures id in Step(db, actor, Disown(b, comments, now)).0.requests
      ensures DisownedRow(db.requests[id], Step(db, actor, Disown(b, comments, now)).0.requests[id], b,
                          SomeDue(db, b, now), actor.user, now, comments)
    {
      DisownRow(db, actor, b, comments, now, id);
    }
  }

  /** pkgbase_disown_instance for anybody else does nothing, should a caller not have checked. */
  lemma StrangersDisownNothing(db: Db, actor: Actor, b: nat, now: int)
    requires b in db.bases && !actor.trusted && db.bases[b].maintainer != Some(actor.user)
    ensures DisownInstance(db, actor, b, now) == (db, Done)
  {}

  /** Closing by hand rejects the request in the name of whoever closed it; it touches no
      other request and no base. */
  lemma CloseOutcome(db: Db, actor: Actor, id: nat, comments: string, now: int)
    requires id in db.requests && (actor.trusted || db.requests[id].requester == actor.user)
    ensures var (db', out) := Step(db, actor, CloseOne(id, comments, now));
            && out == Done && db'.bases == db.bases && db'.next == db.next
            && db'.requests.Keys == db.requests.Keys
            && (forall other | other in db.requests && other != id :: db'.requests[other] == db.requests[other])
            && var (r, r') := (db.requests[id], db'.requests[id]);
               && r'.status == Rejected && r'.closer == Some(actor.user)
               && r'.closure == comments && r'.closedTS == Some(now)
               && r' == r.(status := r'.status, closer := r'.closer, closure := r'.closure, closedTS := r'.closedTS)
  {}

  /** What a user files, with everything the form says and nothing decided. */
  ghost predicate AsFiled(r: Request, actor: Actor, name: string, kind: Kind, mergeInto: Option<string>,
                          comments: string, now: int)
  {
    && r.kind == kind && r.baseName == name && r.mergeInto == mergeInto && r.requester == actor.user
    && r.comments == comments && r.requestTS == now
  }

  ghost predicate Undecided(r: Request) { r.closure == "" && r.closer == None && r.closedTS == None }

  /** The base has been flagged for half a year. */
  ghost predicate LongFlagged(base: Base, now: int)
  {
    exists ts :: base.outOfDateTS == Some(ts) && ts != 0 && now - ts >= AUTO_ORPHAN_AGE
  }

  /** Filing adds one request.  It stays pending; but an orphan request about a base flagged
      long ago is accepted on the spot, by nobody, and orphans the base, and a maintainer's
      deletion request soon after submission is accepted as closed by the maintainer and
      takes the base away.  Other bases and requests about them are as before. */
  lemma FiledOutcome(db: Db, actor: Actor, b: nat, kind: Kind, mergeInto: Option<string>, comments: string, now: int)
    requires Inv(db) && b in db.bases && !Forbidden(db, actor, Open(b, kind, mergeInto, comments, now))
    ensures var action := Open(b, kind, mergeInto, comments, now);
            var (db', out) := Step(db, actor, action);
            var base := db.bases[b];
            && out == Done && db.next !in db.requests && db'.requests.Keys == db.requests.Keys + {db.next}
            && (forall id | id in db.requests && db.requests[id].base != Some(b) :: db'.requests[id] == db.requests[id])
            && AsFiled(db'.requests[db.next], actor, base.name, kind, mergeInto, comments, now)
            && if Removes(db, actor, action, b) then
                 && db'.bases == db.bases - {b}
                 && db'.requests[db.next].status == Accepted && db'.requests[db.next].closer == Some(actor.user)
               else
                 && db'.requests[db.next].base == Some(b) && Undecided(db'.requests[db.next])
                 && (forall id | id in db.requests :: db'.requests[id] == db.requests[id])
                 && if kind == Orphan && LongFlagged(base, now) then
                      && db'.bases == db.bases[b := base.(maintainer := None)]
                      && db'.requests[db.next].status == Accepted
                    else db'.bases == db.bases && db'.requests[db.next].status == Pending
  {
    OpenOutcome(db, actor, b, kind, mergeInto, comments, now);
    if Removes(db, actor, Open(b, kind, mergeInto, comments, now), b) {
      FiledAndDeleted(db, actor, b, mergeInto, comments, now);
    } else {
      assert db.bases[b].outOfDateTS.Some? ==> db.bases[b].outOfDateTS == Some(db.bases[b].outOfDateTS.value);
    }
  }

  lemma DeletedRequests(db: Db, actor: Actor, b: nat, comments: string, now: int, id: nat)
    requires Inv(db) && b in db.bases && id in db.requests
    ensures var (rows', r) := (DeleteInstance(db, actor, b, comments, now).0.requests, db.requests[id]);
            && id in rows' && (r.base != Some(b) ==> rows'[id] == r)
            && (IsPending(r, Deletion, b) ==>
                  && rows'[id].status == Accepted && rows'[id].closer == Some(actor.user)
                  && rows'[id] == r.(status := Accepted, closer := rows'[id].closer, closedTS := rows'[id].closedTS,
                                     closure := rows'[id].closure, base := None))
  {
    DeletionHandled(db, actor.user, b, now);
    DeleteOutcome(db, actor, b, comments, now);
    HandledRow(db.requests, db.next, Deletion, actor.user, SubjectOf(db, b, None), now, REQUEST_IDLE_TIME, id);
    DetachedOutcome(HandleOn(db, Deletion, actor.user, b, None, now).0.requests, b, id);
  }

  lemma FiledAndDeleted(db: Db, actor: Actor, b: nat, mergeInto: Option<string>, comments: string, now: int)
    requires Inv(db) && b in db.bases && Removes(db, actor, Open(b, Deletion, mergeInto, comments, now), b)
    ensures var rows' := Step(db, actor, Open(b, Deletion, mergeInto, comments, now)).0.requests;
            && db.next in rows' && rows'[db.next].status == Accepted && rows'[db.next].closer == Some(actor.user)
            && AsFiled(rows'[db.next], actor, db.bases[b].name, Deletion, mergeInto, comments, now)
            && forall id | id in db.requests && db.requests[id].base != Some(b) ::
                 id in rows' && rows'[id] == db.requests[id]
  {
    var r := Filed(actor, b, db.bases[b].name, Deletion, mergeInto, comments, now);
    var db1 := AddRequest(db, r);
    AddRequestKeeps(db, r, b);
    assert Step(db, actor, Open(b, Deletion, mergeInto, comments, now)) == DeleteInstance(db1, actor, b, comments, now);
    DeletedRequests(db1, actor, b, comments, now, db.next);
    forall id | id in db.requests ensures id in db1.requests && db1.requests[id] == db.requests[id] {}
    forall id | id in db.requests && db.requests[id].base != Some(b)
      ensures id in DeleteInstance(db1, actor, b, comments, now).0.requests
      ensures DeleteInstance(db1, actor, b, comments, now).0.requests[id] == db.requests[id]
    {
      DeletedRequests(db1, actor, b, comments, now, id);
    }
  }

  /** The API's disown closes pending orphan requests about the base and no others. */
  lemma ApiDisownRow(db: Db, actor: Actor, b: nat, pick: User, id: nat)
    requires Possible(db, DisownByApi(b, pick)) && db.bases[b].maintainer == Some(actor.user) && id in db.requests
    ensures var db' := Step(db, actor, DisownByApi(b, pick)).0;
            && (forall c | c in db.bases && c != b :: c in db'.bases && db'.bases[c] == db.bases[c])
            && db'.requests.Keys == db.requests.Keys
            && db'.requests[id] == if IsPending(db.requests[id], Orphan, b) then db.requests[id].(status := Closed)
                                   else db.requests[id]
  {}
}
