/** Package requests: opening, closing, and the sweep over pending requests that delete,
    disown and merge perform first. */
module Requests {
  import opened Wrappers
  import opened Comaintainers

  datatype Kind = Deletion | Orphan | Merge

  datatype Status = Pending | Closed | Accepted | Rejected

  /** `base` is the foreign key, nulled when the base is deleted; `baseName` stays. */
  datatype Request = Request(
    kind: Kind, base: Option<nat>, baseName: string, mergeInto: Option<string>, requester: User,
    comments: string, closure: string, requestTS: int, closer: Option<User>, closedTS: Option<int>, status: Status)

  type Rows = map<nat, Request>

  datatype Failure = NoDueRequest | UnsupportedType

  /** The package base a request is handled for, and the target of a merge. */
  datatype Subject = Subject(base: nat, name: string, target: Option<string>)

  // ---------------------------------------------------------------------------
  // Closing

  /** ClosureFactory: None stands for an exception, as the type is not supported. */
  function AutoClosure(kind: Kind, status: Status, s: Subject): (text: Option<string>)
    ensures text.None? <==> (status.Rejected? && !kind.Merge?) || (kind.Merge? && s.target.None?)
    ensures text.Some? ==> text.value != ""
  {
    match kind
    case Deletion => if status.Rejected? then None else Some("[Autogenerated] Accepted deletion for " + s.name + ".")
    case Orphan => if status.Rejected? then None else Some("[Autogenerated] Accepted orphan for " + s.name + ".")
    case Merge =>
      if s.target.None? then None
      else if status.Rejected? then
        Some("[Autogenerated] Another request to merge " + s.name + " into " + s.target.value
             + " has rendered this request invalid.")
      else Some("[Autogenerated] Accepted merge for " + s.name + " into " + s.target.value + ".")
  }

  /** A closed request: who closed it, when and how; a closure comment, the old one if there was one. */
  ghost predicate ClosedAs(r: Request, r': Request, closer: User, status: Status, now: int)
  {
    && r'.status == status && r'.closer == Some(closer) && r'.closedTS == Some(now)
    && r'.closure != "" && (r.closure != "" ==> r'.closure == r.closure)
    && r' == r.(status := status, closer := r'.closer, closedTS := r'.closedTS, closure := r'.closure)
  }

  /** close_pkgreq; None when making up a closure comment raises an exception. */
  function Close(r: Request, closer: User, s: Subject, status: Status, now: int): (closed: Option<Request>)
    ensures closed.Some? ==> ClosedAs(r, closed.value, closer, status, now)
    ensures closed.None?
        <==> r.closure == "" && ((status.Rejected? && !r.kind.Merge?) || (r.kind.Merge? && s.target.None?))
  {
    var closure := if r.closure != "" then Some(r.closure) else AutoClosure(r.kind, status, s);
    match closure
    case None => None
    case Some(text) => Some(r.(status := status, closer := Some(closer), closure := text, closedTS := Some(now)))
  }

  function CloseOr(r: Request, closer: User, s: Subject, status: Status, now: int): Request
  {
    match Close(r, closer, s, status, now) case Some(closed) => closed case None => r
  }

  // ---------------------------------------------------------------------------
  // Queries

  /** The base query: pending requests of the kind about the base. */
  predicate Matches(r: Request, kind: Kind, s: Subject)
  {
    r.base == Some(s.base) && r.kind == kind && r.status.Pending? && r.baseName == s.name
  }

  function Query(rows: Rows, kind: Kind, s: Subject): set<nat>
  {
    set id | id in rows && Matches(rows[id], kind, s)
  }

  function ToAccept(rows: Rows, kind: Kind, s: Subject): set<nat>
  {
    set id | id in rows && Matches(rows[id], kind, s) && (s.target.Some? ==> rows[id].mergeInto == s.target)
  }

  function ToReject(rows: Rows, kind: Kind, s: Subject): set<nat>
  {
    Query(rows, kind, s) - ToAccept(rows, kind, s)
  }

  /** verify_orphan_request: a pending orphan request old enough to be due. */
  predicate HasDueOrphan(rows: Rows, base: nat, now: int, idle: int)
  {
    exists id :: id in rows && rows[id].base == Some(base) && rows[id].kind.Orphan?
              && rows[id].status.Pending? && now - rows[id].requestTS > idle
  }

  function Autogenerated(kind: Kind, user: User, s: Subject): Request
  {
    Request(kind, Some(s.base), s.name, if kind.Merge? then s.target else None, user,
            "Autogenerated by aurweb.", "", 0, None, None, Pending)
  }

  /** Rows with those in `accept` and in `reject` closed. */
  function CloseAll(rows: Rows, accept: set<nat>, reject: set<nat>, closer: User, s: Subject, now: int): Rows
  {
    map id | id in rows ::
      if id in accept then CloseOr(rows[id], closer, s, Accepted, now)
      else if id in reject then CloseOr(rows[id], closer, s, Rejected, now)
      else rows[id]
  }

  /** The request created when there is none to accept, and the requests to accept then. */
  function WithOne(rows: Rows, next: nat, kind: Kind, user: User, s: Subject): (Rows, nat, set<nat>)
  {
    var accept := ToAccept(rows, kind, s);
    if accept == {} then (rows[next := Autogenerated(kind, user, s)], next + 1, {next}) else (rows, next, accept)
  }

  /** handle_request on the table: rows, next free id, and the exception if one is raised.
      The autogenerated request is committed before the closing transaction, which is
      rolled back as a whole when a closure comment is missing. */
  function Handled(rows: Rows, next: nat, kind: Kind, user: User, s: Subject, now: int, idle: int)
      : (Rows, nat, Option<Failure>)
  {
    if kind.Orphan? && !HasDueOrphan(rows, s.base, now, idle) then (rows, next, Some(NoDueRequest))
    else
      var (rows1, next1, accept) := WithOne(rows, next, kind, user, s);
      var reject := ToReject(rows, kind, s);
      if exists id :: id in reject && Close(rows[id], user, s, Rejected, now).None? then
        (rows1, next1, Some(UnsupportedType))
      else (CloseAll(rows1, accept, reject, user, s, now), next1, None)
  }

  /** update_closure_comment. */
  function Commented(rows: Rows, kind: Kind, base: nat, comments: string, target: Option<string>): Rows
  {
    if comments == "" then rows
    else
      map id | id in rows :: Comment(rows[id], kind, base, comments, target)
  }

  function Comment(r: Request, kind: Kind, base: nat, comments: string, target: Option<string>): Request
  {
    if IsOpen(r, kind, base, target) then r.(closure := comments) else r
  }

  predicate IsOpen(r: Request, kind: Kind, base: nat, target: Option<string>)
  {
    r.base == Some(base) && r.kind == kind && r.status.Pending? && (kind.Merge? ==> r.mergeInto == target)
  }

  // ---------------------------------------------------------------------------
  // What handling does

  /** Ids in use lie below the next one. */
  ghost predicate IdsBelow(rows: Rows, next: nat)
  {
    forall id | id in rows :: id < next
  }

  /** A successful run splits the pending requests of the kind and base into accepted and
      rejected ones, leaves none of them pending, keeps closure comments that were there,
      creates one request exactly when none was to be accepted, and touches no other. */
  ghost predicate HandledWell(rows: Rows, next: nat, kind: Kind, user: User, s: Subject, now: int, rows': Rows,
      next': nat)
  {
    var accept, reject := ToAccept(rows, kind, s), ToReject(rows, kind, s);
    && accept !! reject && accept + reject == Query(rows, kind, s)
    && rows'.Keys == (if accept == {} then rows.Keys + {next} else rows.Keys)
    && next' == (if accept == {} then next + 1 else next)
    && Query(rows', kind, s) == {}
    && (forall id | id in accept :: ClosedAs(rows[id], rows'[id], user, Accepted, now))
    && (forall id | id in reject :: ClosedAs(rows[id], rows'[id], user, Rejected, now))
    && (forall id | id in rows && id !in accept && id !in reject :: rows'[id] == rows[id])
    && (accept == {} ==> ClosedAs(Autogenerated(kind, user, s), rows'[next], user, Accepted, now))
  }

  lemma HandledOutcome(rows: Rows, next: nat, kind: Kind, user: User, s: Subject, now: int, idle: int)
    requires kind.Merge? ==> s.target.Some?
    requires IdsBelow(rows, next)
    requires Handled(rows, next, kind, user, s, now, idle).2.None?
    ensures var (rows', next', _) := Handled(rows, next, kind, user, s, now, idle);
            HandledWell(rows, next, kind, user, s, now, rows', next')
  {
    var (rows1, next1, accept) := WithOne(rows, next, kind, user, s);
    var reject := ToReject(rows, kind, s);
    ClosedNoMatch(rows1, accept, reject, user, s, now, kind);
    assert CloseAll(rows1, accept, reject, user, s, now).Keys == rows1.Keys;
  }

  lemma ClosedNoMatch(rows: Rows, accept: set<nat>, reject: set<nat>, user: User, s: Subject, now: int, kind: Kind)
    requires Query(rows, kind, s) <= accept + reject
    requires kind.Merge? ==> s.target.Some?
    requires forall id | id in reject && id in rows :: Close(rows[id], user, s, Rejected, now).Some?
    requires forall id | id in accept && id in rows :: rows[id].kind == kind
    ensures Query(CloseAll(rows, accept, reject, user, s, now), kind, s) == {}
  {
    var rows' := CloseAll(rows, accept, reject, user, s, now);
    forall id | id in rows' ensures !Matches(rows'[id], kind, s) {
      if id !in accept && id !in reject {
        assert !Matches(rows[id], kind, s) by { assert id !in Query(rows, kind, s); }
      }
    }
  }

  /** Is `r` a pending orphan request about `base` filed more than `idle` seconds ago? */
  ghost predicate IsDue(r: Request, base: nat, now: int, idle: int)
  {
    r.base == Some(base) && r.kind == Orphan && r.status == Pending && now - r.requestTS > idle
  }

  lemma DueIff(rows: Rows, base: nat, now: int, idle: int)
    ensures HasDueOrphan(rows, base, now, idle) <==> exists id :: id in rows && IsDue(rows[id], base, now, idle)
  {}

  /** Handling orphan requests fails exactly when every pending one is too young. */
  lemma NoDueRequestIff(rows: Rows, next: nat, kind: Kind, user: User, s: Subject, now: int, idle: int)
    ensures Handled(rows, next, kind, user, s, now, idle).2 == Some(NoDueRequest) <==>
              kind == Orphan && forall id | id in rows :: !IsDue(rows[id], s.base, now, idle)
  {
    DueIff(rows, s.base, now, idle);
  }

  /** The unsupported-type error needs a target together with a kind other than merge, and
      an unmatched pending request without closure comment: no caller provides that. */
  lemma UnsupportedIff(rows: Rows, next: nat, kind: Kind, user: User, s: Subject, now: int, idle: int)
    requires kind.Merge? ==> s.target.Some?
    ensures Handled(rows, next, kind, user, s, now, idle).2 == Some(UnsupportedType) <==>
              && !kind.Merge? && s.target.Some?
              && (kind.Orphan? ==> exists id :: id in rows && IsDue(rows[id], s.base, now, idle))
              && exists id :: id in Query(rows, kind, s) && rows[id].mergeInto != s.target && rows[id].closure == ""
  {
    DueIff(rows, s.base, now, idle);
    forall id ensures id in ToReject(rows, kind, s)
        <==> id in Query(rows, kind, s) && s.target.Some? && rows[id].mergeInto != s.target {}
  }

  /** One request after a successful handling: closed if it was pending, of the kind and
      about the base, and rejected only if it names another target; otherwise as before. */
  lemma HandledRow(rows: Rows, next: nat, kind: Kind, user: User, s: Subject, now: int, idle: int, id: nat)
    requires (kind.Merge? ==> s.target.Some?) && IdsBelow(rows, next) && id in rows
    requires Handled(rows, next, kind, user, s, now, idle).2.None?
    ensures var rows', r := Handled(rows, next, kind, user, s, now, idle).0, rows[id];
            && id in rows'
            && if r.base == Some(s.base) && r.kind == kind && r.status == Pending && r.baseName == s.name
               then ClosedAs(r, rows'[id], user,
                             if s.target.Some? && r.mergeInto != s.target then Rejected else Accepted, now)
               else rows'[id] == r
  {
    HandledOutcome(rows, next, kind, user, s, now, idle);
    assert id in ToAccept(rows, kind, s)
      <==> Matches(rows[id], kind, s) && (s.target.Some? ==> rows[id].mergeInto == s.target);
  }

  /** Handling leaves requests about other bases as they are, and creates at most one. */
  lemma OthersAsBefore(rows: Rows, next: nat, kind: Kind, user: User, s: Subject, now: int, idle: int)
    requires IdsBelow(rows, next)
    ensures var rows' := Handled(rows, next, kind, user, s, now, idle).0;
            && rows.Keys <= rows'.Keys <= rows.Keys + {next}
            && forall id | id in rows && rows[id].base != Some(s.base) :: rows'[id] == rows[id]
  {}

  /** The request made up for an action nobody asked for. */
  lemma AutogeneratedOutcome(rows: Rows, next: nat, kind: Kind, user: User, s: Subject, now: int, idle: int)
    requires (kind.Merge? ==> s.target.Some?) && IdsBelow(rows, next)
    requires Handled(rows, next, kind, user, s, now, idle).2.None?
    requires forall id | id in rows && rows[id].base == Some(s.base) && rows[id].kind == kind
                         && rows[id].status.Pending? && rows[id].baseName == s.name ::
               s.target.Some? && rows[id].mergeInto != s.target
    ensures var rows' := Handled(rows, next, kind, user, s, now, idle).0;
            && next !in rows && next in rows'
            && var r := rows'[next];
               && r.kind == kind && r.base == Some(s.base) && r.baseName == s.name && r.requester == user
               && r.mergeInto == (if kind == Merge then s.target else None)
               && r.status == Accepted && r.closer == Some(user) && r.closedTS == Some(now) && r.closure != ""
               && r.comments == "Autogenerated by aurweb." && r.requestTS == 0
  {
    HandledOutcome(rows, next, kind, user, s, now, idle);
    assert ToAccept(rows, kind, s) == {};
  }

  /** update_closure_comment, row by row: pending requests of the kind about the base, for
      merges only those into the target, get a comment that is not empty; nothing else changes. */
  lemma CommentedOutcome(rows: Rows, kind: Kind, base: nat, comments: string, target: Option<string>, id: nat)
    requires id in rows
    ensures var rows', r := Commented(rows, kind, base, comments, target), rows[id];
            && rows'.Keys == rows.Keys
            && rows'[id] == r.(closure := rows'[id].closure)
            && rows'[id].closure
                 == if && comments != "" && r.base == Some(base) && r.kind == kind && r.status == Pending
                       && (kind == Merge ==> r.mergeInto == target)
                    then comments else r.closure
  {
    assert rows[id].(closure := rows[id].closure) == rows[id];
  }

  /** `text` names `who` somewhere. */
  ghost predicate Mentions(text: string, who: string) { exists front, back :: text == front + who + back }

  lemma MentionsIn(front: string, who: string, back: string)
    ensures Mentions(front + who + back, who)
  {}

  /** A made-up closure comment names the base, and for a merge what goes into what. */
  lemma ClosureNames(kind: Kind, status: Status, s: Subject)
    requires AutoClosure(kind, status, s).Some?
    ensures Mentions(AutoClosure(kind, status, s).value,
                     if kind == Merge then s.name + " into " + s.target.value else s.name + ".")
  {
    match kind
    case Deletion =>
      var front := "[Autogenerated] Accepted deletion for ";
      MentionsIn(front, s.name + ".", "");
      assert front + (s.name + ".") + "" == front + s.name + ".";
    case Orphan =>
      var front := "[Autogenerated] Accepted orphan for ";
      MentionsIn(front, s.name + ".", "");
      assert front + (s.name + ".") + "" == front + s.name + ".";
    case Merge =>
      MergeClosureNames(status, s);
  }

  lemma MergeClosureNames(status: Status, s: Subject)
    requires s.target.Some?
    ensures Mentions(AutoClosure(Merge, status, s).value, s.name + " into " + s.target.value)
  {
    var into := s.name + " into " + s.target.value;
    if status.Rejected? {
      var front, back := "[Autogenerated] Another request to merge ", " has rendered this request invalid.";
      MentionsIn(front, into, back);
      assert front + into + back == front + s.name + " into " + s.target.value + back;
    } else {
      var front := "[Autogenerated] Accepted merge for ";
      MentionsIn(front, into, ".");
      assert front + into + "." == front + s.name + " into " + s.target.value + ".";
    }
  }

  /** Requests never disappear, keep what they are about, and never reopen; a foreign key
      can only be nulled. */
  ghost predicate Evolves(old': Rows, new': Rows)
  {
    forall id | id in old' :: id in new' && EvolvesTo(old'[id], new'[id])
  }

  ghost predicate EvolvesTo(r: Request, r': Request)
  {
    && (!r.status.Pending? ==> !r'.status.Pending?)
    && r'.kind == r.kind && r'.baseName == r.baseName && r'.mergeInto == r.mergeInto
    && r'.requester == r.requester && r'.requestTS == r.requestTS
    && (r'.base == r.base || r'.base == None)
  }

  lemma EvolvesTransitive(a: Rows, b: Rows, c: Rows)
    requires Evolves(a, b) && Evolves(b, c)
    ensures Evolves(a, c)
  {
    forall id | id in a ensures id in c && EvolvesTo(a[id], c[id]) {
      assert EvolvesTo(a[id], b[id]) && EvolvesTo(b[id], c[id]);
    }
  }

  lemma HandledEvolves(rows: Rows, next: nat, kind: Kind, user: User, s: Subject, now: int, idle: int)
    requires kind.Merge? ==> s.target.Some?
    requires IdsBelow(rows, next)
    ensures var (rows', next', _) := Handled(rows, next, kind, user, s, now, idle);
            Evolves(rows, rows') && IdsBelow(rows', next') && next <= next'
    ensures var (rows', _, _) := Handled(rows, next, kind, user, s, now, idle);
            forall id | id in rows' && id !in rows :: rows'[id].base == Some(s.base) && rows'[id].baseName == s.name
  {
    if Handled(rows, next, kind, user, s, now, idle).2.None? {
      HandledOutcome(rows, next, kind, user, s, now, idle);
      var (rows', next', _) := Handled(rows, next, kind, user, s, now, idle);
      WellEvolves(rows, next, kind, user, s, now, rows', next');
    }
  }

  lemma WellEvolves(rows: Rows, next: nat, kind: Kind, user: User, s: Subject, now: int, rows': Rows, next': nat)
    requires IdsBelow(rows, next) && HandledWell(rows, next, kind, user, s, now, rows', next')
    ensures Evolves(rows, rows') && IdsBelow(rows', next') && next <= next'
    ensures forall id | id in rows' && id !in rows :: rows'[id].base == Some(s.base) && rows'[id].baseName == s.name
  {
    forall id | id in rows ensures id in rows' && EvolvesTo(rows[id], rows'[id]) {
      if id in ToAccept(rows, kind, s) {
        assert ClosedAs(rows[id], rows'[id], user, Accepted, now);
      } else if id in ToReject(rows, kind, s) {
        assert ClosedAs(rows[id], rows'[id], user, Rejected, now);
      }
    }
  }

  // ---------------------------------------------------------------------------
  // The table

  class RequestTable {
    var rows: Rows
    var next: nat

    constructor ()
      ensures rows == map[] && next == 0
    {
      rows, next := map[], 0;
    }

    method UpdateClosureComment(kind: Kind, base: nat, comments: string, target: Option<string>)
      modifies this`rows
      ensures rows == Commented(old(rows), kind, base, comments, target)
    {
      if comments != "" {
        var found := set id | id in rows && IsOpen(rows[id], kind, base, target);
        SetClosures(found, comments);
      }
    }

    /** The loop over the requests the query returned. */
    method SetClosures(ids: set<nat>, comments: string)
      requires ids <= rows.Keys
      modifies this`rows
      ensures rows == map id | id in old(rows) ::
                        if id in ids then old(rows)[id].(closure := comments) else old(rows)[id]
    {
      ghost var start := rows;
      var todo := ids;
      while todo != {}
        invariant rows.Keys == start.Keys && todo <= ids
        invariant forall id | id in start ::
          rows[id] == if id in ids && id !in todo then start[id].(closure := comments) else start[id]
        decreases todo
      {
        var id :| id in todo;
        rows := rows[id := rows[id].(closure := comments)];
        todo := todo - {id};
      }
    }

    /** close_pkgreq for every id of a list; stops at the first that cannot be closed. */
    method CloseEach(ids: set<nat>, closer: User, s: Subject, status: Status, now: int) returns (ok: bool)
      requires ids <= rows.Keys
      modifies this`rows
      ensures ok <==> forall id | id in ids :: Close(old(rows)[id], closer, s, status, now).Some?
      ensures ok ==> rows == map id | id in old(rows) ::
                       if id in ids then CloseOr(old(rows)[id], closer, s, status, now) else old(rows)[id]
    {
      ghost var start := rows;
      var todo := ids;
      while todo != {}
        invariant todo <= ids && rows.Keys == start.Keys
        invariant forall id | id in ids && id !in todo :: Close(start[id], closer, s, status, now) == Some(rows[id])
        invariant forall id | id in start && (id !in ids || id in todo) :: rows[id] == start[id]
        decreases todo
      {
        var id :| id in todo;
        var closed := Close(rows[id], closer, s, status, now);
        if closed.None? {
          return false;
        }
        rows := rows[id := closed.value];
        todo := todo - {id};
      }
      ok := true;
    }

    method HandleRequest(kind: Kind, user: User, s: Subject, now: int, idle: int) returns (failure: Option<Failure>)
      requires kind.Merge? ==> s.target.Some?
      requires IdsBelow(rows, next)
      modifies this
      ensures (rows, next, failure) == Handled(old(rows), old(next), kind, user, s, now, idle)
    {
      ghost var start := rows;
      if kind.Orphan? && !HasDueOrphan(rows, s.base, now, idle) {
        return Some(NoDueRequest);
      }
      var accept, reject := ToAccept(rows, kind, s), ToReject(rows, kind, s);
      if accept == {} {
        rows := rows[next := Autogenerated(kind, user, s)];
        accept := {next};
        next := next + 1;
      }
      failure := CloseBoth(accept, reject, user, s, now);
    }

    /** The closing transaction: accept, then reject, or roll back. */
    method CloseBoth(accept: set<nat>, reject: set<nat>, user: User, s: Subject, now: int)
        returns (failure: Option<Failure>)
      requires accept <= rows.Keys && reject <= rows.Keys && accept !! reject
      requires forall id | id in accept :: rows[id].kind.Merge? ==> s.target.Some?
      modifies this`rows
      ensures var failed := exists id :: id in reject && Close(old(rows)[id], user, s, Rejected, now).None?;
              && (failed ==> failure == Some(UnsupportedType) && rows == old(rows))
              && (!failed ==> failure == None && rows == CloseAll(old(rows), accept, reject, user, s, now))
    {
      var before := rows;
      var ok := CloseEach(accept, user, s, Accepted, now);
      assert forall id | id in reject :: rows[id] == before[id];
      ok := CloseEach(reject, user, s, Rejected, now);
      if !ok {
        rows := before;
        return Some(UnsupportedType);
      }
      assert rows == CloseAll(before, accept, reject, user, s, now);
      failure := None;
    }
  }
}
