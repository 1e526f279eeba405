/** The steps on package bases as they are carried out: loops over rows that reassign
    fields, several transactions to a step. */
module Store {
  import opened Wrappers
  import opened Comaintainers
  import opened Requests
  import opened Lifecycle

  /** The source's and the target's votes while users in `todo` have not been looked at. */
  ghost function Left(source: map<User, int>, target: map<User, int>, todo: set<User>): map<User, int>
  {
    map u | u in source && (u in target || u in todo) :: source[u]
  }

  ghost function Arrived(source: map<User, int>, target: map<User, int>, todo: set<User>): map<User, int>
  {
    target + map u | u in source && u !in target && u !in todo :: source[u]
  }

  lemma NothingMoved(source: map<User, int>, target: map<User, int>)
    ensures Left(source, target, source.Keys) == source && Arrived(source, target, source.Keys) == target
  {}

  lemma OneMoved(source: map<User, int>, target: map<User, int>, todo: set<User>, user: User)
    requires user in todo && todo <= source.Keys
    ensures user in Left(source, target, todo) && Left(source, target, todo)[user] == source[user]
    ensures user !in target ==> user !in Arrived(source, target, todo)
    ensures Left(source, target, todo - {user})
         == if user in target then Left(source, target, todo) else Left(source, target, todo) - {user}
    ensures Arrived(source, target, todo - {user})
         == if user in target then Arrived(source, target, todo)
            else Arrived(source, target, todo)[user := source[user]]
  {}

  lemma AllMoved(source: map<User, int>, target: map<User, int>)
    ensures Left(source, target, {}) == source - (source.Keys - target.Keys)
    ensures Arrived(source, target, {}) == target + (source - target.Keys)
  {}

  lemma DropUpdated<K, V>(m: map<K, V>, b: K, x: V, t: K, y: V)
    requires b != t
    ensures m[b := x][t := y] - {b} == m[t := y] - {b}
  {}

  class Database {
    var bases: map<nat, Base>
    const requests: RequestTable

    ghost function Value(): Db
      reads this, requests
    {
      Db(bases, requests.rows, requests.next)
    }

    constructor ()
      ensures Value() == EMPTY && Inv(Value()) && fresh(requests)
    {
      bases := map[];
      requests := new RequestTable();
    }

    /** Votes, notifications, flags, adoption, comments and comaintainer edits. */
    method EditBase(b: nat, actor: Actor, action: BaseAction)
      requires b in bases && BaseOk(bases[b]) && Feasible(bases[b], action)
      modifies this
      ensures bases == old(bases)[b := OnBase(old(bases)[b], actor, action)]
    {
      var base, user := bases[b], actor.user;
      match action
      case Vote(now) =>
        if user !in base.votes {
          bases := bases[b := base.(votes := base.votes[user := now])];
          RunSingle(b);
        }
      case Unvote =>
        if user in base.votes {
          bases := bases[b := base.(votes := base.votes - {user})];
          RunSingle(b);
        }
      case Notify => bases := bases[b := base.(notified := base.notified + {user})];
      case Unnotify => bases := bases[b := base.(notified := base.notified - {user})];
      case Flag(comment, now) =>
        if comment != "" && base.flagger.None? {
          bases := bases[b := base.(outOfDateTS := Some(now), flagger := Some(user), flaggerComment := comment)];
        }
      case Unflag =>
        if actor.trusted || base.flagger == Some(user) || IsMaintainer(base, actor) {
          bases := bases[b := base.(outOfDateTS := None, flagger := None, flaggerComment := "")];
        }
      case Adopt =>
        if actor.trusted || base.maintainer.None? {
          bases := bases[b := base.(maintainer := Some(user))];
        }
      case ApiAdopt =>
        if base.maintainer.None? {
          bases := bases[b := base.(maintainer := Some(user), notified := base.notified + {user})];
        }
      case AddComment(id, notify) =>
        var notified := if notify then base.notified + {user} else base.notified;
        bases := bases[b := base.(comments := base.comments + [id], notified := notified)];
      case SetComaintainers(requested, users, added) =>
        if actor.trusted || IsMaintainer(base, actor) {
          var edited, error := EditComaintainers(base.maintainer, base.comaintainers, requested, users, added);
          bases := bases[b := base.(comaintainers := edited)];
        }
    }

    /** popupdate.run_single, as far as the vote count goes. */
    method RunSingle(b: nat)
      requires b in bases
      modifies this
      ensures bases == old(bases)[b := Recounted(old(bases)[b])]
    {
      bases := bases[b := Recounted(bases[b])];
    }

    /** pkgbase_disown_instance. */
    method DisownInstance(b: nat, actor: Actor, now: int) returns (out: Outcome)
      requires b in bases && Inv(Value())
      modifies this, requests
      ensures (Value(), out) == Lifecycle.DisownInstance(old(Value()), actor, b, now)
      ensures Inv(Value())
    {
      DisownKeeps(Value(), actor, b, now);
      var base := bases[b];
      if IsMaintainer(base, actor) {
        var next, rest := DisownAsMaintainer(base.comaintainers);
        bases := bases[b := base.(maintainer := next, comaintainers := rest)];
      } else if actor.trusted {
        var failure := requests.HandleRequest(Orphan, actor.user, Subject(b, base.name, None), now, REQUEST_IDLE_TIME);
        if failure.None? {
          bases := bases[b := base.(maintainer := None)];
        }
        return Answer(failure);
      }
      out := Done;
    }

    /** The cascade of a deleted base, and the foreign keys set to null. */
    method DropBase(b: nat)
      modifies this, requests`rows
      ensures Value() == RemoveBase(old(Value()), b)
    {
      ghost var start := requests.rows;
      var todo := set id | id in requests.rows && requests.rows[id].base == Some(b);
      while todo != {}
        invariant bases == old(bases) && requests.next == old(requests.next)
        invariant requests.rows.Keys == start.Keys && todo <= start.Keys
        invariant forall id | id in todo :: requests.rows[id] == start[id] && start[id].base == Some(b)
        invariant forall id | id in start && id !in todo ::
                    requests.rows[id] == if start[id].base == Some(b) then start[id].(base := None) else start[id]
        decreases todo
      {
        var id :| id in todo;
        requests.rows := requests.rows[id := requests.rows[id].(base := None)];
        todo := todo - {id};
      }
      assert requests.rows == Detached(start, b);
      bases := bases - {b};
    }

    /** pkgbase_delete_instance. */
    method DeleteInstance(b: nat, actor: Actor, comments: string, now: int) returns (out: Outcome)
      requires b in bases && Inv(Value())
      modifies this, requests
      ensures (Value(), out) == Lifecycle.DeleteInstance(old(Value()), actor, b, comments, now)
      ensures Inv(Value())
    {
      DeleteKeeps(Value(), actor, b, comments, now);
      var subject := Subject(b, bases[b].name, None);
      var failure := requests.HandleRequest(Deletion, actor.user, subject, now, REQUEST_IDLE_TIME);
      if failure.None? {
        requests.UpdateClosureComment(Deletion, b, comments, None);
        DropBase(b);
      }
      out := Answer(failure);
    }

    /** The loop over the source's comments. */
    method MoveComments(b: nat, t: nat)
      requires b in bases && t in bases && b != t
      modifies this
      ensures bases == old(bases)[b := old(bases)[b].(comments := [])]
                                 [t := old(bases)[t].(comments := old(bases)[t].comments + old(bases)[b].comments)]
    {
      ghost var source, target := bases[b], bases[t];
      ghost var done: seq<nat> := [];
      while bases[b].comments != []
        invariant bases.Keys == old(bases).Keys
        invariant forall c | c in bases && c != b && c != t :: bases[c] == old(bases)[c]
        invariant done + bases[b].comments == source.comments
        invariant bases[b] == source.(comments := bases[b].comments)
        invariant bases[t] == target.(comments := target.comments + done)
        decreases |bases[b].comments|
      {
        var comment := bases[b].comments[0];
        done := done + [comment];
        bases := bases[b := bases[b].(comments := bases[b].comments[1..])]
                      [t := bases[t].(comments := bases[t].comments + [comment])];
      }
      assert done == source.comments;
    }

    /** The loop over the source's notifications: those the target lacks move over. */
    method MoveNotifications(b: nat, t: nat)
      requires b in bases && t in bases && b != t
      modifies this
      ensures bases == old(bases)[b := old(bases)[b].(notified := old(bases)[b].notified * old(bases)[t].notified)]
                                 [t := old(bases)[t].(notified := old(bases)[t].notified + old(bases)[b].notified)]
    {
      var targetNotifs, todo := bases[t].notified, bases[b].notified;
      ghost var source, target := bases[b], bases[t];
      while todo != {}
        invariant bases.Keys == old(bases).Keys
        invariant forall c | c in bases && c != b && c != t :: bases[c] == old(bases)[c]
        invariant todo <= source.notified
        invariant bases[b] == source.(notified := todo + source.notified * targetNotifs)
        invariant bases[t] == target.(notified := target.notified + (source.notified - todo))
        decreases todo
      {
        var user :| user in todo;
        if user !in targetNotifs {
          bases := bases[b := bases[b].(notified := bases[b].notified - {user})]
                        [t := bases[t].(notified := bases[t].notified + {user})];
        }
        todo := todo - {user};
        assert todo + source.notified * targetNotifs == bases[b].notified;
        assert target.notified + (source.notified - todo) == bases[t].notified;
      }
      assert source.notified - {} == source.notified;
      assert {} + source.notified * targetNotifs == source.notified * target.notified;
    }

    /** The loop over the source's votes: those of users without a vote for the target move
        over, so no (user, base) pair ever occurs twice. */
    method MoveVotes(b: nat, t: nat)
      requires b in bases && t in bases && b != t
      modifies this
      ensures var (source, target) := (old(bases)[b], old(bases)[t]);
              bases == old(bases)[b := source.(votes := source.votes - (source.votes.Keys - target.votes.Keys))]
                                 [t := target.(votes := target.votes + (source.votes - target.votes.Keys))]
    {
      var targetVotes, todo := bases[t].votes.Keys, bases[b].votes.Keys;
      ghost var source, target := bases[b], bases[t];
      NothingMoved(source.votes, target.votes);
      while todo != {}
        invariant bases.Keys == old(bases).Keys
        invariant forall c | c in bases && c != b && c != t :: bases[c] == old(bases)[c]
        invariant todo <= source.votes.Keys
        invariant bases[b] == source.(votes := Left(source.votes, target.votes, todo))
        invariant bases[t] == target.(votes := Arrived(source.votes, target.votes, todo))
        decreases todo
      {
        var user :| user in todo;
        OneMoved(source.votes, target.votes, todo, user);
        if user !in targetVotes {
          var ts := bases[b].votes[user];
          bases := bases[b := bases[b].(votes := bases[b].votes - {user})]
                        [t := bases[t].(votes := bases[t].votes[user := ts])];
        }
        todo := todo - {user};
      }
      AllMoved(source.votes, target.votes);
    }

    /** All rows of the source that the target lacks, or takes along, move over. */
    method MoveRows(b: nat, t: nat)
      requires b in bases && t in bases && b != t
      modifies this
      ensures b in bases && bases == old(bases)[b := bases[b]]
                [t := old(bases)[t].(votes := old(bases)[t].votes + (old(bases)[b].votes - old(bases)[t].votes.Keys),
                                     notified := old(bases)[t].notified + old(bases)[b].notified,
                                     comments := old(bases)[t].comments + old(bases)[b].comments)]
    {
      MoveComments(b, t);
      MoveNotifications(b, t);
      MoveVotes(b, t);
    }

    /** pkgbase_merge_instance. */
    method MergeInstance(b: nat, t: nat, actor: Actor, now: int) returns (out: Outcome)
      requires b in bases && t in bases && b != t && Inv(Value())
      modifies this, requests
      ensures (Value(), out) == Lifecycle.MergeInstance(old(Value()), actor, b, t, now)
      ensures Inv(Value())
    {
      MergeKeeps(Value(), actor, b, t, now);
      var subject := Subject(b, bases[b].name, Some(bases[t].name));
      var failure := requests.HandleRequest(Merge, actor.user, subject, now, REQUEST_IDLE_TIME);
      if failure.None? {
        Absorb(b, t);
      }
      out := Answer(failure);
    }

    /** Move the rows, recount, delete the source. */
    method Absorb(b: nat, t: nat)
      requires b in bases && t in bases && b != t
      modifies this, requests`rows
      ensures Value() == RemoveBase(old(Value()).(bases := old(bases)[t := Merged(old(bases)[b], old(bases)[t])]), b)
    {
      MoveRows(b, t);
      RunSingle(t);
      assert bases[t] == Merged(old(bases)[b], old(bases)[t]);
      DropUpdated(old(bases), b, bases[b], t, bases[t]);
      DropBase(b);
    }

    /** pkgbase_disown_post, confirmed. */
    method DisownPost(b: nat, actor: Actor, comments: string, now: int) returns (out: Outcome)
      requires b in bases && Inv(Value())
      modifies this, requests
      ensures (Value(), out) == Step(old(Value()), actor, Disown(b, comments, now))
      ensures Inv(Value())
    {
      StepKeeps(Value(), actor, Disown(b, comments, now));
      if !(actor.trusted || IsMaintainer(bases[b], actor)) {
        return Refused;
      }
      CommentMoves(Value(), Orphan, b, comments, None);
      requests.UpdateClosureComment(Orphan, b, comments, None);
      out := DisownInstance(b, actor, now);
    }

    /** pkgbase_delete_post, confirmed. */
    method DeletePost(b: nat, actor: Actor, comments: string, now: int) returns (out: Outcome)
      requires b in bases && Inv(Value())
      modifies this, requests
      ensures (Value(), out) == Step(old(Value()), actor, Delete(b, comments, now))
      ensures Inv(Value())
    {
      StepKeeps(Value(), actor, Delete(b, comments, now));
      if !actor.trusted {
        return Refused;
      }
      CommentMoves(Value(), Deletion, b, comments, None);
      requests.UpdateClosureComment(Deletion, b, comments, None);
      out := DeleteInstance(b, actor, comments, now);
    }

    /** pkgbase_merge_post, confirmed. */
    method MergePost(b: nat, t: nat, actor: Actor, comments: string, now: int) returns (out: Outcome)
      requires b in bases && t in bases && Inv(Value())
      modifies this, requests
      ensures (Value(), out) == Step(old(Value()), actor, MergeInto(b, t, comments, now))
      ensures Inv(Value())
    {
      StepKeeps(Value(), actor, MergeInto(b, t, comments, now));
      if !actor.trusted || b == t {
        return Refused;
      }
      CommentMoves(Value(), Merge, b, comments, Some(bases[t].name));
      requests.UpdateClosureComment(Merge, b, comments, Some(bases[t].name));
      out := MergeInstance(b, t, actor, now);
    }

    /** pkgbase_request_post for a known request type. */
    method RequestPost(b: nat, actor: Actor, kind: Kind, mergeInto: Option<string>, comments: string, now: int)
        returns (out: Outcome)
      requires b in bases && Inv(Value())
      modifies this, requests
      ensures (Value(), out) == Step(old(Value()), actor, Open(b, kind, mergeInto, comments, now))
      ensures Inv(Value())
    {
      StepKeeps(Value(), actor, Open(b, kind, mergeInto, comments, now));
      if !Acceptable(Db(bases, requests.rows, requests.next), b, kind, mergeInto, comments) {
        return Refused;
      }
      var base, id := bases[b], requests.next;
      File(b, Filed(actor, b, base.name, kind, mergeInto, comments, now));
      if kind.Orphan? && FlaggedLongAgo(base, now) {
        bases := bases[b := base.(maintainer := None)];
        requests.rows := requests.rows[id := requests.rows[id].(status := Accepted)];
        out := Done;
      } else if kind.Deletion? && IsMaintainer(base, actor) && now - base.submittedTS <= AUTO_DELETE_AGE {
        out := DeleteInstance(b, actor, comments, now);
      } else {
        out := Done;
      }
    }

    method File(b: nat, r: Request)
      requires Inv(Value()) && b in bases && r.base == Some(b) && r.baseName == bases[b].name
      modifies requests
      ensures Value() == AddRequest(old(Value()), r)
      ensures Inv(Value())
    {
      AddRequestKeeps(Value(), r, b);
      requests.rows := requests.rows[requests.next := r];
      requests.next := requests.next + 1;
    }

    /** request_close_post. */
    method ClosePost(id: nat, actor: Actor, comments: string, now: int) returns (out: Outcome)
      requires id in requests.rows && Inv(Value())
      modifies this, requests
      ensures (Value(), out) == Step(old(Value()), actor, CloseOne(id, comments, now))
      ensures Inv(Value())
    {
      StepKeeps(Value(), actor, CloseOne(id, comments, now));
      var r := requests.rows[id];
      if !(actor.trusted || r.requester == actor.user) {
        return Refused;
      }
      r := r.(closer := Some(actor.user), closure := comments, closedTS := Some(now), status := Rejected);
      requests.rows := requests.rows[id := r];
      out := Done;
    }

    /** The API's disown_pkgbase; `pick` is the row its unordered query happens to return first. */
    method ApiDisownPost(b: nat, actor: Actor, pick: User) returns (out: Outcome)
      requires b in bases && Inv(Value())
      requires bases[b].comaintainers != map[] ==> pick in bases[b].comaintainers
      modifies this, requests
      ensures (Value(), out) == Step(old(Value()), actor, DisownByApi(b, pick))
      ensures Inv(Value())
    {
      StepKeeps(Value(), actor, DisownByApi(b, pick));
      var base := bases[b];
      if !IsMaintainer(base, actor) {
        return Refused;
      }
      CloseOrphanRequests(b);
      if base.comaintainers != map[] {
        bases := bases[b := base.(maintainer := Some(pick), comaintainers := base.comaintainers - {pick})];
      } else {
        bases := bases[b := base.(maintainer := None)];
      }
      out := Done;
    }

    method CloseOrphanRequests(b: nat)
      modifies requests`rows
      ensures requests.rows == ApiClosed(old(requests.rows), b)
    {
      ghost var start := requests.rows;
      var todo := PendingAbout(requests.rows, Orphan, b);
      while todo != {}
        invariant requests.rows.Keys == start.Keys && todo <= PendingAbout(start, Orphan, b)
        invariant forall id | id in todo :: requests.rows[id] == start[id]
        invariant forall id | id in start && id !in todo :: requests.rows[id] == ApiClosed(start, b)[id]
        decreases todo
      {
        var id :| id in todo;
        requests.rows := requests.rows[id := requests.rows[id].(status := Closed)];
        todo := todo - {id};
      }
    }
  }
}
