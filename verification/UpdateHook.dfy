/** The Git update hook as a step on the repositories and the package tables, and what
    holds over every run of pushes. */
module UpdateHook {
  import opened Wrappers
  import opened Metadata
  import opened CommitGraph
  import opened Srcinfo

  type History = Commit<Content>

  datatype PackageRow = PackageRow(base: string, version: string, description: string, url: Option<string>,
      rows: seq<Row>)

  /** `masters` and `tags` are refs; `packages` is keyed by the unique package name. */
  datatype State = State(
    masters: map<string, History>, tags: map<(string, string), History>,
    bases: set<string>, packages: map<string, PackageRow>, blacklist: set<string>)

  /** A push of `head` to the repository `repo`; `order` is the walk over its new commits. */
  datatype Push = Push(repo: string, head: History, privileged: bool, overwrite: bool, order: seq<History>)

  datatype Reason = NonFastForward | InvalidCommit | NothingWalked | NoPackages | VersionNotUpdated
                  | WrongBase | Blacklisted | OwnedElsewhere | NoDescription | DuplicateName

  datatype Outcome = Accepted(updated: bool) | Denied(reason: Reason)

  // ---------------------------------------------------------------------------
  // The step

  predicate ValidCommit(c: History) { ValidTree(c.content.tree) }

  function Info(c: History): Srcinfo
    requires ValidCommit(c)
  {
    Parsed(c.content.tree).value
  }

  /** What the walk over new commits hides. */
  ghost function Hidden(s: State, repo: string): set<History>
  {
    if repo in s.masters then Reachable(s.masters[repo]) else {}
  }

  ghost predicate IsPush(s: State, p: Push)
  {
    IsWalk(p.order, p.head, Hidden(s, p.repo))
  }

  predicate MayOverwrite(p: Push) { p.overwrite && p.privileged }

  function PackagesOf(packages: map<string, PackageRow>, base: string): map<string, PackageRow>
  {
    map name | name in packages && packages[name].base == base :: packages[name]
  }

  function Others(packages: map<string, PackageRow>, base: string): map<string, PackageRow>
  {
    map name | name in packages && packages[name].base != base :: packages[name]
  }

  /** All packages of one base carry the same version. */
  ghost predicate OneVersionPerBase(packages: map<string, PackageRow>)
  {
    forall a, b | a in packages && b in packages && packages[a].base == packages[b].base ::
      packages[a].version == packages[b].version
  }

  /** Does the database already hold `version` for `base`? */
  predicate Stored(packages: map<string, PackageRow>, base: string, version: string)
  {
    exists name :: name in packages && packages[name].base == base && packages[name].version == version
  }

  /** The first reason in pkgname order to refuse a package name. */
  function FirstConflict(s: State, p: Push, names: seq<string>): Option<Reason>
  {
    if names == [] then None
    else if names[0] in s.blacklist && !p.privileged then Some(Blacklisted)
    else if names[0] in s.packages && s.packages[names[0]].base != p.repo then Some(OwnedElsewhere)
    else FirstConflict(s, p, names[1..])
  }

  /** Package rows are created one by one; the unique index refuses a name already there. */
  function InsertAll(packages: map<string, PackageRow>, names: seq<string>, row: PackageRow)
      : (map<string, PackageRow>, bool)
    decreases |names|
  {
    if names == [] then (packages, true)
    else if names[0] in packages then (packages, false)
    else InsertAll(packages[names[0] := row], names[1..], row)
  }

  function UrlOf(info: Srcinfo): Option<string> { if |info.url| == 1 then Some(info.url[0]) else None }

  function RowFor(base: string, info: Srcinfo): PackageRow
    requires info.pkgver != [] && info.pkgrel != [] && info.pkgdesc != []
  {
    PackageRow(base, VersionOf(info), info.pkgdesc[0], UrlOf(info), Flatten(info.table))
  }

  /** save_metadata on the package table: the base's rows go, then one row per name comes. */
  function Save(packages: map<string, PackageRow>, repo: string, info: Srcinfo)
      : (map<string, PackageRow>, Option<Reason>)
    requires info.pkgver != [] && info.pkgrel != []
  {
    if info.pkgdesc == [] then (packages, Some(NoDescription))
    else
      var (after, ok) := InsertAll(Others(packages, repo), info.pkgname, RowFor(repo, info));
      (after, if ok then None else Some(DuplicateName))
  }

  function TagName(version: string): string
  {
    if version == "" then ""
    else [if version[0] == ':' then '!' else version[0]] + TagName(version[1..])
  }

  function AddTag(tags: map<(string, string), History>, p: Push, version: string): map<(string, string), History>
  {
    var tag := (p.repo, TagName(version));
    if tag in tags then tags else tags[tag := p.head]
  }

  /** The push passed every check on commits: its head and its last walked commit are valid. */
  ghost predicate Walked(p: Push)
  {
    p.order != [] && ValidCommit(p.head) && ValidCommit(Last(p))
  }

  function Last(p: Push): History
    requires p.order != []
  {
    p.order[|p.order| - 1]
  }

  /** `version_updated`: the stored version against that of the last commit walked. */
  ghost predicate Updates(s: State, p: Push)
    requires Walked(p)
  {
    p.repo in s.bases ==> !Stored(s.packages, p.repo, VersionOf(Info(Last(p))))
  }

  /** The checks of `main` on commits, in order. */
  ghost function CommitRefusal(s: State, p: Push): Option<Reason>
  {
    if p.repo in s.masters && !MayOverwrite(p) && s.masters[p.repo] !in Reachable(p.head) then Some(NonFastForward)
    else if exists c :: c in p.order && !ValidCommit(c) then Some(InvalidCommit)
    else if p.order == [] then Some(NothingWalked)
    else None
  }

  /** The checks of `main` on the database, up to the first write. */
  ghost function DatabaseRefusal(s: State, p: Push): Option<Reason>
    requires Walked(p)
  {
    if p.repo in s.bases && PackagesOf(s.packages, p.repo) == map[] then Some(NoPackages)
    else if !Updates(s, p) && !p.privileged then Some(VersionNotUpdated)
    else if Info(p.head).pkgbase[0] != p.repo then Some(WrongBase)
    else FirstConflict(s, p, Info(p.head).pkgname)
  }

  /** The writes of a push that passed all checks.  Each database transaction commits on
      its own, so a late failure leaves the earlier ones behind; master moves only when
      the hook succeeds. */
  ghost function Write(s: State, p: Push): (State, Outcome)
    requires Walked(p)
  {
    var head, s1 := Info(p.head), s.(bases := s.bases + {p.repo});
    if !Updates(s, p) then (s1.(masters := s.masters[p.repo := p.head]), Accepted(false))
    else
      var (packages, failure) := Save(s.packages, p.repo, head);
      var s2 := s1.(packages := packages);
      match failure
      case Some(reason) => (s2, Denied(reason))
      case None =>
        var tags := AddTag(s.tags, p, VersionOf(Info(Last(p))));
        (s2.(masters := s.masters[p.repo := p.head], tags := tags), Accepted(true))
  }

  lemma HiddenClosed(s: State, repo: string)
    ensures Closed(Hidden(s, repo))
  {
    if repo in s.masters {
      ReachableClosed(s.masters[repo]);
    }
  }

  /** HEAD is among the commits walked, so it has been checked before it is read. */
  lemma HeadIsWalked(s: State, p: Push)
    requires IsPush(s, p) && p.order != []
    ensures p.order[0] == p.head && p.head in p.order && Last(p) in p.order
  {
    HiddenClosed(s, p.repo);
    WalkStartsAtHead(p.order, p.head, Hidden(s, p.repo));
  }

  ghost function Next(s: State, p: Push): (State, Outcome)
    requires IsPush(s, p)
  {
    match CommitRefusal(s, p)
    case Some(reason) => (s, Denied(reason))
    case None =>
      HeadIsWalked(s, p);
      match DatabaseRefusal(s, p)
      case Some(reason) => (s, Denied(reason))
      case None => Write(s, p)
  }

  // ---------------------------------------------------------------------------
  // Inserting package rows

  predicate NoDuplicates(names: seq<string>) { forall i, j | 0 <= i < j < |names| :: names[i] != names[j] }

  lemma NoDuplicatesCons(names: seq<string>)
    requires names != []
    ensures NoDuplicates(names) <==> names[0] !in names[1..] && NoDuplicates(names[1..])
  {
    var rest := names[1..];
    if NoDuplicates(names) {
      forall i, j | 0 <= i < j < |rest| ensures rest[i] != rest[j] { assert names[i + 1] != names[j + 1]; }
      forall i | 0 <= i < |rest| ensures rest[i] != names[0] { assert names[0] != names[i + 1]; }
    }
    if names[0] !in rest && NoDuplicates(rest) {
      forall i, j | 0 <= i < j < |names| ensures names[i] != names[j] {
        assert names[j] == rest[j - 1] && rest[j - 1] in rest;
        assert i > 0 ==> names[i] == rest[i - 1];
      }
    }
  }

  /** All names go in exactly when they are distinct and none is taken; then each gets the row. */
  lemma {:induction false} InsertAllIff(packages: map<string, PackageRow>, names: seq<string>, row: PackageRow)
    ensures InsertAll(packages, names, row).1
        <==> NoDuplicates(names) && forall name | name in names :: name !in packages
    ensures InsertAll(packages, names, row).1 ==>
              InsertAll(packages, names, row).0 == packages + map name | name in names :: row
    decreases |names|
  {
    if names != [] {
      var rest := names[1..];
      assert names[0] in names;
      NoDuplicatesCons(names);
      assert forall name :: name in names <==> name == names[0] || name in rest;
      if names[0] !in packages {
        var next := packages[names[0] := row];
        InsertAllIff(next, rest, row);
        assert (forall name | name in rest :: name !in next)
          <==> names[0] !in rest && (forall name | name in rest :: name !in packages);
        assert next + (map name | name in rest :: row) == packages + map name | name in names :: row;
      }
    }
  }

  /** Whatever happens, earlier rows stay and every new row is the one being written. */
  lemma {:induction false} InsertAllAdds(packages: map<string, PackageRow>, names: seq<string>, row: PackageRow)
    ensures var after := InsertAll(packages, names, row).0;
            && (forall name | name in packages :: name in after && after[name] == packages[name])
            && (forall name | name in after && name !in packages :: after[name] == row)
    decreases |names|
  {
    if names != [] && names[0] !in packages {
      InsertAllAdds(packages[names[0] := row], names[1..], row);
    }
  }

  /** Saving touches rows of its own base only, and leaves it with new rows only. */
  lemma SaveEffect(packages: map<string, PackageRow>, repo: string, info: Srcinfo)
    requires info.pkgver != [] && info.pkgrel != []
    ensures var (after, failure) := Save(packages, repo, info);
            && (forall name | name in after && after[name].base != repo ::
                name in packages && after[name] == packages[name])
            && (forall name | name in packages && packages[name].base != repo ::
                name in after && after[name] == packages[name])
            && (info.pkgdesc == [] ==> after == packages)
            && (info.pkgdesc != [] ==>
                forall name | name in after && after[name].base == repo :: after[name] == RowFor(repo, info))
  {
    if info.pkgdesc != [] {
      InsertAllAdds(Others(packages, repo), info.pkgname, RowFor(repo, info));
    }
  }

  /** It succeeds exactly for distinct, free names and a description, and then the base's
      rows are the ones described. */
  lemma SaveIff(packages: map<string, PackageRow>, repo: string, info: Srcinfo)
    requires info.pkgver != [] && info.pkgrel != []
    ensures Save(packages, repo, info).1.None? <==>
              && info.pkgdesc != [] && NoDuplicates(info.pkgname)
              && (forall name | name in info.pkgname && name in packages :: packages[name].base == repo)
    ensures Save(packages, repo, info).1.None? ==>
              PackagesOf(Save(packages, repo, info).0, repo) == map name | name in info.pkgname :: RowFor(repo, info)
  {
    if info.pkgdesc != [] {
      InsertAllIff(Others(packages, repo), info.pkgname, RowFor(repo, info));
      assert (forall name | name in info.pkgname :: name !in Others(packages, repo))
        <==> (forall name | name in info.pkgname && name in packages :: packages[name].base == repo);
    }
  }

  /** The names up to the first one that is taken or repeated. */
  function BeforeTaken(names: seq<string>, taken: set<string>): seq<string>
  {
    if names == [] || names[0] in taken then []
    else [names[0]] + BeforeTaken(names[1..], taken + {names[0]})
  }

  /** The rows that saving gets to write for its base. */
  function Written(packages: map<string, PackageRow>, repo: string, info: Srcinfo): map<string, PackageRow>
    requires info.pkgver != [] && info.pkgrel != [] && info.pkgdesc != []
  {
    map name | name in BeforeTaken(info.pkgname, Others(packages, repo).Keys) :: RowFor(repo, info)
  }

  lemma AddRow(packages: map<string, PackageRow>, name: string, rest: seq<string>, row: PackageRow)
    ensures packages[name := row] + (map n | n in rest :: row) == packages + map n | n in [name] + rest :: row
  {
    assert forall n :: n in [name] + rest <==> n == name || n in rest;
  }

  lemma {:induction false} InsertAllWrites(packages: map<string, PackageRow>, names: seq<string>, row: PackageRow)
    ensures InsertAll(packages, names, row).0 ==
              packages + map name | name in BeforeTaken(names, packages.Keys) :: row
    decreases |names|
  {
    if names != [] && names[0] !in packages {
      var next := packages[names[0] := row];
      assert next.Keys == packages.Keys + {names[0]};
      InsertAllWrites(next, names[1..], row);
      AddRow(packages, names[0], BeforeTaken(names[1..], next.Keys), row);
    }
  }

  lemma {:induction false} BeforeTakenFree(names: seq<string>, taken: set<string>)
    ensures forall name | name in BeforeTaken(names, taken) :: name !in taken
  {
    if names != [] && names[0] !in taken {
      BeforeTakenFree(names[1..], taken + {names[0]});
    }
  }

  /** Failing half-way or not, the rows of the base are then the ones written up to there. */
  lemma SaveWrites(packages: map<string, PackageRow>, repo: string, info: Srcinfo)
    requires info.pkgver != [] && info.pkgrel != [] && info.pkgdesc != []
    ensures Save(packages, repo, info).0 == Others(packages, repo) + Written(packages, repo, info)
    ensures PackagesOf(Save(packages, repo, info).0, repo) == Written(packages, repo, info)
  {
    InsertAllWrites(Others(packages, repo), info.pkgname, RowFor(repo, info));
    BeforeTakenFree(info.pkgname, Others(packages, repo).Keys);
  }

  /** Saving changes nothing exactly when the rows it writes were there. */
  lemma SaveRestores(packages: map<string, PackageRow>, repo: string, info: Srcinfo)
    requires info.pkgver != [] && info.pkgrel != []
    ensures var after := Save(packages, repo, info).0;
            && (after == packages <==> PackagesOf(after, repo) == PackagesOf(packages, repo))
            && (info.pkgdesc != [] ==> PackagesOf(after, repo) == Written(packages, repo, info))
  {
    if info.pkgdesc != [] {
      SaveWrites(packages, repo, info);
      assert packages == Others(packages, repo) + PackagesOf(packages, repo);
    }
  }

  lemma SaveKeepsOneVersion(packages: map<string, PackageRow>, repo: string, info: Srcinfo)
    requires info.pkgver != [] && info.pkgrel != [] && OneVersionPerBase(packages)
    ensures OneVersionPerBase(Save(packages, repo, info).0)
  {
    SaveEffect(packages, repo, info);
  }

  /** Package names in `after` that belong to another base are as before. */
  lemma SaveKeepsBase(packages: map<string, PackageRow>, repo: string, info: Srcinfo, other: string)
    requires info.pkgver != [] && info.pkgrel != [] && other != repo
    ensures PackagesOf(Save(packages, repo, info).0, other) == PackagesOf(packages, other)
  {
    SaveEffect(packages, repo, info);
  }

  // ---------------------------------------------------------------------------
  // What every push keeps

  /** Every commit reachable from a master branch or a tag has been validated. */
  ghost predicate RefsValid(s: State)
  {
    && (forall repo, c | repo in s.masters && c in Reachable(s.masters[repo]) :: ValidCommit(c))
    && (forall tag, c | tag in s.tags && c in Reachable(s.tags[tag]) :: ValidCommit(c))
  }

  ghost predicate Consistent(s: State)
  {
    && RefsValid(s)
    && OneVersionPerBase(s.packages)
    && (forall name | name in s.packages :: s.packages[name].base in s.bases)
  }

  /** Checking only the commits not yet reachable from master suffices. */
  lemma HeadHistoryValid(s: State, p: Push)
    requires RefsValid(s) && IsPush(s, p) && CommitRefusal(s, p).None?
    ensures forall c | c in Reachable(p.head) :: ValidCommit(c)
  {
    forall c | c in Reachable(p.head) ensures ValidCommit(c) {
      if c !in Hidden(s, p.repo) {
        assert c in p.order;
      }
    }
  }

  /** All a push can do: nothing, or write its own base, its own master and a new tag. */
  ghost predicate Effect(s: State, p: Push, s': State, out: Outcome)
  {
    || (s' == s && out.Denied?)
    || (&& Walked(p) && CommitRefusal(s, p).None?
        && s'.bases == s.bases + {p.repo} && s'.blacklist == s.blacklist
        && (s'.packages == s.packages || s'.packages == Save(s.packages, p.repo, Info(p.head)).0)
        && s'.masters == (if out.Accepted? then s.masters[p.repo := p.head] else s.masters)
        && (s'.tags == s.tags || s'.tags == AddTag(s.tags, p, VersionOf(Info(Last(p))))))
  }

  lemma SavingEffect(s: State, p: Push)
    requires Walked(p) && Updates(s, p)
    ensures var (s', out) := Write(s, p);
            && s'.bases == s.bases + {p.repo} && s'.blacklist == s.blacklist
            && s'.packages == Save(s.packages, p.repo, Info(p.head)).0
            && s'.masters == (if out.Accepted? then s.masters[p.repo := p.head] else s.masters)
            && s'.tags == if out.Accepted? then AddTag(s.tags, p, VersionOf(Info(Last(p)))) else s.tags
  {}

  lemma WriteEffect(s: State, p: Push)
    requires Walked(p) && CommitRefusal(s, p).None?
    ensures Effect(s, p, Write(s, p).0, Write(s, p).1)
  {
    if Updates(s, p) {
      SavingEffect(s, p);
    }
  }

  lemma NextEffect(s: State, p: Push)
    requires IsPush(s, p)
    ensures Effect(s, p, Next(s, p).0, Next(s, p).1)
  {
    if CommitRefusal(s, p).None? {
      HeadIsWalked(s, p);
      WriteEffect(s, p);
    }
  }

  lemma EffectLeavesOthers(s: State, p: Push, s': State, out: Outcome, repo: string)
    requires Effect(s, p, s', out) && repo != p.repo
    ensures PackagesOf(s'.packages, repo) == PackagesOf(s.packages, repo)
    ensures forall tag | tag in s.tags :: tag in s'.tags && s'.tags[tag] == s.tags[tag]
    ensures forall name | (repo, name) in s'.tags :: (repo, name) in s.tags
  {
    if s' != s {
      SaveKeepsBase(s.packages, p.repo, Info(p.head), repo);
    }
  }

  /** A push changes no package row, master branch or tag of another base, and leaves its
      own master alone unless it is accepted. */
  lemma OtherBasesUntouched(s: State, p: Push, repo: string)
    requires IsPush(s, p) && repo != p.repo
    ensures var (s', out) := Next(s, p);
            && PackagesOf(s'.packages, repo) == PackagesOf(s.packages, repo)
            && (repo in s'.masters <==> repo in s.masters)
            && (repo in s.masters ==> s'.masters[repo] == s.masters[repo])
            && (forall tag | tag in s.tags :: tag in s'.tags && s'.tags[tag] == s.tags[tag])
            && (forall name | (repo, name) in s'.tags :: (repo, name) in s.tags)
            && s.bases <= s'.bases <= s.bases + {p.repo}
            && (out.Denied? ==> s'.masters == s.masters)
  {
    NextEffect(s, p);
    EffectLeavesOthers(s, p, Next(s, p).0, Next(s, p).1, repo);
  }

  lemma EffectKeepsRefsValid(s: State, p: Push, s': State, out: Outcome)
    requires RefsValid(s) && IsPush(s, p) && Effect(s, p, s', out)
    ensures RefsValid(s')
  {
    if CommitRefusal(s, p).None? {
      HeadHistoryValid(s, p);
    }
  }

  lemma NextConsistent(s: State, p: Push)
    requires Consistent(s) && IsPush(s, p)
    ensures Consistent(Next(s, p).0)
  {
    NextEffect(s, p);
    EffectKeepsRefsValid(s, p, Next(s, p).0, Next(s, p).1);
    if Walked(p) {
      SaveEffect(s.packages, p.repo, Info(p.head));
      SaveKeepsOneVersion(s.packages, p.repo, Info(p.head));
    }
  }

  /** An accepted push that updates leaves exactly HEAD's package names, each with HEAD's
      version, description and dependency rows. */
  lemma UpdateMirrorsHead(s: State, p: Push)
    requires IsPush(s, p)
    ensures var (s', out) := Next(s, p);
            out == Accepted(true) ==>
              && ValidCommit(p.head) && Info(p.head).pkgdesc != []
              && Info(p.head).pkgbase[0] == p.repo
              && NoDuplicates(Info(p.head).pkgname)
              && s'.masters[p.repo] == p.head
              && PackagesOf(s'.packages, p.repo) == HeadPackages(p.repo, p.head)
  {
    if Next(s, p).1 == Accepted(true) {
      HeadIsWalked(s, p);
      SaveIff(s.packages, p.repo, Info(p.head));
    }
  }

  /** The package rows a commit describes. */
  function HeadPackages(repo: string, c: History): map<string, PackageRow>
    requires ValidCommit(c) && Info(c).pkgdesc != []
  {
    map name | name in Info(c).pkgname :: RowFor(repo, Info(c))
  }

  lemma MirroredVersion(packages: map<string, PackageRow>, repo: string, c: History, version: string)
    requires ValidCommit(c) && Info(c).pkgdesc != [] && PackagesOf(packages, repo) == HeadPackages(repo, c)
    ensures Stored(packages, repo, version) <==> version == VersionOf(Info(c))
  {
    var first := Info(c).pkgname[0];
    assert first in HeadPackages(repo, c) && first in PackagesOf(packages, repo);
    assert packages[first] == PackagesOf(packages, repo)[first];
    forall name | name in packages && packages[name].base == repo
      ensures packages[name].version == VersionOf(Info(c))
    {
      assert name in PackagesOf(packages, repo) && packages[name] == PackagesOf(packages, repo)[name];
    }
  }

  /** From then on HEAD's version is the one and only version stored. */
  lemma UpdateStoresVersion(s: State, p: Push)
    requires IsPush(s, p) && Next(s, p).1 == Accepted(true)
    ensures ValidCommit(p.head)
    ensures forall version :: Stored(Next(s, p).0.packages, p.repo, version) <==> version == VersionOf(Info(p.head))
  {
    UpdateMirrorsHead(s, p);
    forall version ensures Stored(Next(s, p).0.packages, p.repo, version) <==> version == VersionOf(Info(p.head)) {
      MirroredVersion(Next(s, p).0.packages, p.repo, p.head, version);
    }
  }

  /** A package name owned by another base, or twice in pkgname, never gets through. */
  lemma AcceptedNamesAreFree(s: State, p: Push)
    requires IsPush(s, p) && Next(s, p).1.Accepted?
    ensures ValidCommit(p.head)
    ensures forall name | name in Info(p.head).pkgname && name in s.packages :: s.packages[name].base == p.repo
  {
    HeadIsWalked(s, p);
    NoConflict(s, p, Info(p.head).pkgname);
  }

  lemma {:induction false} NoConflict(s: State, p: Push, names: seq<string>)
    ensures FirstConflict(s, p, names).None? <==>
              forall name | name in names ::
                && (name in s.blacklist ==> p.privileged)
                && (name in s.packages ==> s.packages[name].base == p.repo)
  {
    if names != [] {
      assert names[0] in names;
      assert forall name :: name in names <==> name == names[0] || name in names[1..];
      NoConflict(s, p, names[1..]);
    }
  }

  /** Saving HEAD's data changes the rows that are there. */
  predicate SaveMatters(s: State, p: Push)
    requires ValidCommit(p.head)
  {
    var info := Info(p.head);
    info.pkgdesc != [] && PackagesOf(s.packages, p.repo) != Written(s.packages, p.repo, info)
  }

  lemma LateFailureWritesIff(s: State, p: Push)
    requires Walked(p) && Write(s, p).1.Denied?
    ensures Write(s, p).0 != s <==> p.repo !in s.bases || SaveMatters(s, p)
    ensures Updates(s, p)
    ensures Write(s, p).0.masters == s.masters && Write(s, p).0.tags == s.tags
  {
    SavingEffect(s, p);
    SaveRestores(s.packages, p.repo, Info(p.head));
  }

  // ---------------------------------------------------------------------------
  // When a push is accepted, and what it leaves

  /** The push is a fast-forward, or a privileged user asked to overwrite. */
  ghost predicate MayMoveMaster(s: State, p: Push)
  {
    p.repo in s.masters ==> s.masters[p.repo] in Reachable(p.head) || (p.overwrite && p.privileged)
  }

  ghost predicate IsNew(s: State, repo: string, c: History)
  {
    repo in s.masters ==> c !in Reachable(s.masters[repo])
  }

  ghost predicate HasRows(s: State, base: string)
  {
    exists name :: name in s.packages && s.packages[name].base == base
  }

  /** The base is unknown, or none of its packages has `version`. */
  ghost predicate IsUpdate(s: State, base: string, version: string)
  {
    base in s.bases ==> forall name | name in s.packages && s.packages[name].base == base ::
      s.packages[name].version != version
  }

  /** A name the push may use: no other base's, and on the blacklist only for the privileged. */
  ghost predicate MayName(s: State, p: Push, name: string)
  {
    && (name in s.packages ==> s.packages[name].base == p.repo)
    && (name in s.blacklist ==> p.privileged)
  }

  /** All that is asked of a push before anything is written. */
  ghost predicate PassesChecks(s: State, p: Push)
  {
    && MayMoveMaster(s, p)
    && IsNew(s, p.repo, p.head)
    && (forall c | c in Reachable(p.head) && IsNew(s, p.repo, c) :: ValidCommit(c))
    && Walked(p)
    && (p.repo in s.bases ==> HasRows(s, p.repo))
    && (IsUpdate(s, p.repo, VersionOf(Info(Last(p)))) || p.privileged)
    && Info(p.head).pkgbase[0] == p.repo
    && (forall name | name in Info(p.head).pkgname :: MayName(s, p, name))
  }

  lemma HiddenIff(s: State, repo: string, c: History)
    ensures IsNew(s, repo, c) <==> c !in Hidden(s, repo)
  {}

  lemma CommitChecksIff(s: State, p: Push)
    requires IsPush(s, p)
    ensures CommitRefusal(s, p).None? <==>
              && MayMoveMaster(s, p) && IsNew(s, p.repo, p.head)
              && forall c | c in Reachable(p.head) && IsNew(s, p.repo, c) :: ValidCommit(c)
    ensures CommitRefusal(s, p).None? ==> Walked(p)
  {
    assert p.head in Reachable(p.head);
    if p.order != [] {
      HeadIsWalked(s, p);
    }
  }

  lemma DatabaseChecksIff(s: State, p: Push)
    requires Walked(p)
    ensures DatabaseRefusal(s, p).None? <==>
              && (p.repo in s.bases ==> HasRows(s, p.repo))
              && (IsUpdate(s, p.repo, VersionOf(Info(Last(p)))) || p.privileged)
              && Info(p.head).pkgbase[0] == p.repo
              && forall name | name in Info(p.head).pkgname :: MayName(s, p, name)
    ensures Updates(s, p) <==> IsUpdate(s, p.repo, VersionOf(Info(Last(p))))
  {
    NoConflict(s, p, Info(p.head).pkgname);
    RowsIff(s, p.repo);
  }

  lemma RowsIff(s: State, base: string)
    ensures HasRows(s, base) <==> PackagesOf(s.packages, base) != map[]
  {
    if name :| name in s.packages && s.packages[name].base == base {
      assert name in PackagesOf(s.packages, base);
    }
    if PackagesOf(s.packages, base) != map[] {
      var name :| name in PackagesOf(s.packages, base).Keys;
    }
  }

  lemma ChecksIff(s: State, p: Push)
    requires IsPush(s, p)
    ensures PassesChecks(s, p) <==> CommitRefusal(s, p).None? && Walked(p) && DatabaseRefusal(s, p).None?
    ensures CommitRefusal(s, p).None? ==> Walked(p)
    ensures Walked(p) ==> (Updates(s, p) <==> IsUpdate(s, p.repo, VersionOf(Info(Last(p)))))
  {
    CommitChecksIff(s, p);
    if Walked(p) {
      DatabaseChecksIff(s, p);
    }
  }

  /** A push is accepted exactly when it passes the checks and, if it updates, HEAD has a
      description and no package name twice.  A version that is already stored stops
      ordinary users only. */
  lemma AcceptedIff(s: State, p: Push)
    requires IsPush(s, p)
    ensures Next(s, p).1.Accepted? <==>
              && PassesChecks(s, p)
              && (IsUpdate(s, p.repo, VersionOf(Info(Last(p)))) ==>
                    Info(p.head).pkgdesc != [] && NoDuplicates(Info(p.head).pkgname))
  {
    ChecksIff(s, p);
    if PassesChecks(s, p) && Updates(s, p) {
      CompleteIsAccepted(s, p);
    }
  }

  /** The row of a package is what the metadata say, field by field. */
  ghost predicate Describes(row: PackageRow, base: string, info: Srcinfo)
    requires info.pkgver != [] && info.pkgrel != [] && info.pkgdesc != []
  {
    && row.base == base && row.version == VersionOf(info) && row.description == info.pkgdesc[0]
    && (forall url | info.url == [url] :: row.url == Some(url)) && (|info.url| != 1 ==> row.url == None)
    && row.rows == Flatten(info.table)
  }

  /** The tables after HEAD has been stored for `base`. */
  ghost predicate Stores(before: map<string, PackageRow>, after: map<string, PackageRow>, base: string, info: Srcinfo)
    requires info.pkgver != [] && info.pkgrel != [] && info.pkgdesc != []
  {
    && (forall name | name in info.pkgname :: name in after && Describes(after[name], base, info))
    && (forall name | name in after && name !in info.pkgname :: name in before && after[name] == before[name])
    && (forall name | name in before && name !in info.pkgname ::
          name in after <==> before[name].base != base)
  }

  /** What an accepted push leaves: master is HEAD; if it updates, the base's rows are HEAD's
      and there is a tag for the version it was judged by; otherwise tables and tags stay. */
  lemma AcceptedEffect(s: State, p: Push)
    requires IsPush(s, p) && Next(s, p).1.Accepted?
    ensures Walked(p)
    ensures var (s', out) := Next(s, p);
            var version := VersionOf(Info(Last(p)));
            && out == Accepted(IsUpdate(s, p.repo, version))
            && s'.masters == s.masters[p.repo := p.head] && s'.bases == s.bases + {p.repo}
            && s'.blacklist == s.blacklist
            && (out.updated ==>
                  && Info(p.head).pkgdesc != [] && Stores(s.packages, s'.packages, p.repo, Info(p.head))
                  && (p.repo, TagName(version)) in s'.tags)
            && (!out.updated ==> s'.packages == s.packages && s'.tags == s.tags)
  {
    ChecksIff(s, p);
    AcceptedIff(s, p);
    if Updates(s, p) {
      SaveStores(s.packages, p.repo, Info(p.head));
    }
  }

  lemma SaveStores(packages: map<string, PackageRow>, repo: string, info: Srcinfo)
    requires info.pkgver != [] && info.pkgrel != [] && Save(packages, repo, info).1.None?
    ensures info.pkgdesc != [] && Stores(packages, Save(packages, repo, info).0, repo, info)
  {
    InsertAllIff(Others(packages, repo), info.pkgname, RowFor(repo, info));
  }

  /** The tag of an update: the version with '!' for ':', put on HEAD unless it exists. */
  lemma TagOfUpdate(s: State, p: Push)
    requires IsPush(s, p) && Next(s, p).1 == Accepted(true)
    ensures Walked(p)
    ensures var tag, tags := (p.repo, TagName(VersionOf(Info(Last(p))))), Next(s, p).0.tags;
            && tag in tags && tags[tag] == (if tag in s.tags then s.tags[tag] else p.head)
            && forall t | t != tag :: (t in tags <==> t in s.tags) && (t in tags ==> tags[t] == s.tags[t])
  {
    ChecksIff(s, p);
  }

  lemma {:induction false} TagNameReplaces(version: string)
    ensures |TagName(version)| == |version|
    ensures forall i | 0 <= i < |version| :: TagName(version)[i] == if version[i] == ':' then '!' else version[i]
  {
    if version != "" {
      TagNameReplaces(version[1..]);
    }
  }

  /** A push is refused for the reason it is given. */
  ghost predicate IsReason(s: State, p: Push, reason: Reason)
  {
    match reason
    case NonFastForward => !MayMoveMaster(s, p)
    case InvalidCommit => exists c :: c in Reachable(p.head) && IsNew(s, p.repo, c) && !ValidCommit(c)
    case NothingWalked => !IsNew(s, p.repo, p.head)
    case NoPackages => p.repo in s.bases && !HasRows(s, p.repo)
    case VersionNotUpdated => Walked(p) && !IsUpdate(s, p.repo, VersionOf(Info(Last(p)))) && !p.privileged
    case WrongBase => Walked(p) && Info(p.head).pkgbase[0] != p.repo
    case Blacklisted => Walked(p) && !p.privileged && exists name :: name in Info(p.head).pkgname && name in s.blacklist
    case OwnedElsewhere =>
      Walked(p) && exists name :: name in Info(p.head).pkgname && name in s.packages && s.packages[name].base != p.repo
    case NoDescription => Walked(p) && Info(p.head).pkgdesc == []
    case DuplicateName => Walked(p) && !NoDuplicates(Info(p.head).pkgname)
  }

  lemma {:induction false} ConflictIsReason(s: State, p: Push, names: seq<string>)
    ensures FirstConflict(s, p, names) == Some(Blacklisted) ==>
              !p.privileged && exists name :: name in names && name in s.blacklist
    ensures FirstConflict(s, p, names) == Some(OwnedElsewhere) ==>
              exists name :: name in names && name in s.packages && s.packages[name].base != p.repo
    ensures FirstConflict(s, p, names).Some? ==> FirstConflict(s, p, names).value in {Blacklisted, OwnedElsewhere}
  {
    if names != [] {
      assert names[0] in names;
      ConflictIsReason(s, p, names[1..]);
    }
  }

  lemma CommitReason(s: State, p: Push)
    requires IsPush(s, p) && CommitRefusal(s, p).Some?
    ensures IsReason(s, p, CommitRefusal(s, p).value)
  {
    if p.order == [] {
      assert p.head in Reachable(p.head);
      assert p.head in Hidden(s, p.repo);
    }
  }

  lemma DatabaseReason(s: State, p: Push)
    requires Walked(p) && DatabaseRefusal(s, p).Some?
    ensures IsReason(s, p, DatabaseRefusal(s, p).value)
  {
    RowsIff(s, p.repo);
    ConflictIsReason(s, p, Info(p.head).pkgname);
  }

  lemma DeniedForItsReason(s: State, p: Push)
    requires IsPush(s, p) && Next(s, p).1.Denied?
    ensures IsReason(s, p, Next(s, p).1.reason)
  {
    if CommitRefusal(s, p).Some? {
      CommitReason(s, p);
    } else {
      HeadIsWalked(s, p);
      if DatabaseRefusal(s, p).Some? {
        DatabaseReason(s, p);
      } else {
        LateFailureReason(s, p);
      }
    }
  }

  lemma LateFailureReason(s: State, p: Push)
    requires IsPush(s, p) && Walked(p) && CommitRefusal(s, p).None? && DatabaseRefusal(s, p).None?
    requires Write(s, p).1.Denied?
    ensures IsReason(s, p, Write(s, p).1.reason)
  {
    NoConflict(s, p, Info(p.head).pkgname);
    SaveIff(s.packages, p.repo, Info(p.head));
  }

  /** A denied push leaves writes behind exactly when it passed all checks, and so failed
      while saving, and either had created its base or had begun to write rows that were not
      there; the refs stay put. */
  lemma DeniedPushWritesIff(s: State, p: Push)
    requires IsPush(s, p) && Next(s, p).1.Denied?
    ensures Next(s, p).0 != s <==> PassesChecks(s, p) && (p.repo !in s.bases || SaveMatters(s, p))
    ensures Next(s, p).0.masters == s.masters && Next(s, p).0.tags == s.tags
  {
    ChecksIff(s, p);
    if CommitRefusal(s, p).None? {
      HeadIsWalked(s, p);
      if DatabaseRefusal(s, p).None? {
        LateFailureWritesIff(s, p);
      }
    }
  }

  // ---------------------------------------------------------------------------
  // Runs of pushes

  ghost predicate IsRun(s: State, pushes: seq<Push>)
    decreases |pushes|
  {
    pushes != [] ==> IsPush(s, pushes[0]) && IsRun(Next(s, pushes[0]).0, pushes[1..])
  }

  ghost function Run(s: State, pushes: seq<Push>): State
    requires IsRun(s, pushes)
    decreases |pushes|
  {
    if pushes == [] then s else Run(Next(s, pushes[0]).0, pushes[1..])
  }

  function Empty(blacklist: set<string>): State { State(map[], map[], {}, map[], blacklist) }

  lemma {:induction false} RunConsistent(s: State, pushes: seq<Push>)
    requires Consistent(s) && IsRun(s, pushes)
    ensures Consistent(Run(s, pushes))
    decreases |pushes|
  {
    if pushes != [] {
      NextConsistent(s, pushes[0]);
      RunConsistent(Next(s, pushes[0]).0, pushes[1..]);
    }
  }

  /** From empty repositories, over every run of pushes, overwriting ones included: each
      commit reachable from a master branch has passed validation, although every push
      validated only its new commits. */
  lemma EveryReachableCommitIsValid(blacklist: set<string>, pushes: seq<Push>, repo: string, c: History)
    requires IsRun(Empty(blacklist), pushes)
    requires repo in Run(Empty(blacklist), pushes).masters
    requires c in Reachable(Run(Empty(blacklist), pushes).masters[repo])
    ensures ValidCommit(c)
  {
    RunConsistent(Empty(blacklist), pushes);
  }

  /** An accepted push keeps all commits exactly when it is a fast-forward, and it can be
      anything else only with both overwrite and privilege. */
  lemma AcceptedKeepsHistoryIff(s: State, p: Push)
    requires IsPush(s, p) && Next(s, p).1.Accepted? && p.repo in s.masters
    ensures Reachable(s.masters[p.repo]) <= Reachable(Next(s, p).0.masters[p.repo])
        <==> s.masters[p.repo] in Reachable(p.head)
    ensures s.masters[p.repo] !in Reachable(p.head) ==> p.overwrite && p.privileged
  {
    HeadIsWalked(s, p);
    var old' := s.masters[p.repo];
    assert old' in Reachable(old');
    if old' in Reachable(p.head) {
      ReachableTransitive(p.head, old');
    }
  }

  lemma PushKeepsHistory(s: State, p: Push, repo: string)
    requires IsPush(s, p) && repo in s.masters && !MayOverwrite(p)
    ensures repo in Next(s, p).0.masters && Reachable(s.masters[repo]) <= Reachable(Next(s, p).0.masters[repo])
  {
    if repo != p.repo {
      OtherBasesUntouched(s, p, repo);
    } else if Next(s, p).1.Accepted? {
      AcceptedKeepsHistoryIff(s, p);
    } else {
      NextEffect(s, p);
    }
  }

  /** Without overwriting pushes, over every run, no repository ever loses a commit. */
  lemma {:induction false} HistoryOnlyGrows(s: State, pushes: seq<Push>, repo: string)
    requires IsRun(s, pushes) && repo in s.masters
    requires forall p | p in pushes :: !MayOverwrite(p)
    ensures repo in Run(s, pushes).masters
    ensures Reachable(s.masters[repo]) <= Reachable(Run(s, pushes).masters[repo])
    decreases |pushes|
  {
    if pushes != [] {
      assert pushes[0] in pushes;
      PushKeepsHistory(s, pushes[0], repo);
      assert forall q | q in pushes[1..] :: q in pushes;
      HistoryOnlyGrows(Next(s, pushes[0]).0, pushes[1..], repo);
    }
  }

  // ---------------------------------------------------------------------------
  // When the database follows HEAD

  /** Nothing a half-way failure could come from. */
  predicate IsComplete(info: Srcinfo) { info.pkgdesc != [] && NoDuplicates(info.pkgname) }

  /** HEAD can be stored without failing half-way. */
  predicate Publishable(c: History) { ValidCommit(c) ==> IsComplete(Info(c)) }

  /** A base exists together with its repository, and its rows are what its HEAD describes. */
  ghost predicate Mirrors(s: State, repo: string)
  {
    && (repo in s.masters <==> repo in s.bases)
    && (repo in s.masters ==> MirrorsHead(s.packages, repo, s.masters[repo]))
    && (repo !in s.masters ==> PackagesOf(s.packages, repo) == map[])
  }

  ghost predicate MirrorsHead(packages: map<string, PackageRow>, repo: string, c: History)
  {
    ValidCommit(c) && Info(c).pkgdesc != [] && PackagesOf(packages, repo) == HeadPackages(repo, c)
  }

  /** A push that keeps the database in step with HEAD: if it gets past the checks, it
      either updates with HEAD's complete data, or finds the data it would write in place. */
  ghost predicate Faithful(s: State, p: Push)
  {
    PassesChecks(s, p) ==>
      if IsUpdate(s, p.repo, VersionOf(Info(Last(p)))) then
        IsComplete(Info(p.head)) || (p.repo in s.bases && !SaveMatters(s, p))
      else MirrorsHead(s.packages, p.repo, p.head)
  }

  /** A denied push keeps the correspondence exactly when it leaves nothing behind. */
  lemma DeniedMirrorsIff(s: State, p: Push)
    requires IsPush(s, p) && Mirrors(s, p.repo) && Next(s, p).1.Denied?
    ensures Mirrors(Next(s, p).0, p.repo) <==> Next(s, p).0 == s
  {
    var s' := Next(s, p).0;
    NextEffect(s, p);
    DeniedPushWritesIff(s, p);
    if s' != s {
      SaveRestores(s.packages, p.repo, Info(p.head));
    }
  }

  lemma AcceptedMirrorsIff(s: State, p: Push)
    requires IsPush(s, p) && Mirrors(s, p.repo) && Next(s, p).1.Accepted?
    ensures Walked(p) && CommitRefusal(s, p).None? && DatabaseRefusal(s, p).None?
    ensures Mirrors(Next(s, p).0, p.repo) <==> Updates(s, p) || MirrorsHead(s.packages, p.repo, p.head)
  {
    HeadIsWalked(s, p);
    UpdateMirrorsHead(s, p);
  }

  /** Past the checks, saving complete data cannot fail. */
  lemma CompleteIsAccepted(s: State, p: Push)
    requires IsPush(s, p) && CommitRefusal(s, p).None? && Walked(p) && DatabaseRefusal(s, p).None? && Updates(s, p)
    ensures Next(s, p).1.Accepted? <==> IsComplete(Info(p.head))
  {
    NoConflict(s, p, Info(p.head).pkgname);
    SaveIff(s.packages, p.repo, Info(p.head));
  }

  lemma DeniedIsFaithfulIff(s: State, p: Push)
    requires IsPush(s, p) && Next(s, p).1.Denied?
    ensures Faithful(s, p) <==> Next(s, p).0 == s
  {
    ChecksIff(s, p);
    DeniedPushWritesIff(s, p);
    AcceptedIff(s, p);
  }

  lemma AcceptedIsFaithfulIff(s: State, p: Push)
    requires IsPush(s, p) && Next(s, p).1.Accepted?
    ensures Walked(p)
    ensures Faithful(s, p) <==> Updates(s, p) || MirrorsHead(s.packages, p.repo, p.head)
  {
    ChecksIff(s, p);
    AcceptedIff(s, p);
  }

  /** The database still mirrors the pushed repository after a push exactly when the push,
      privileged or not, is faithful. */
  lemma NextMirrorsIff(s: State, p: Push)
    requires IsPush(s, p) && Mirrors(s, p.repo)
    ensures Mirrors(Next(s, p).0, p.repo) <==> Faithful(s, p)
  {
    if Next(s, p).1.Denied? {
      DeniedMirrorsIff(s, p);
      DeniedIsFaithfulIff(s, p);
    } else {
      AcceptedMirrorsIff(s, p);
      AcceptedIsFaithfulIff(s, p);
    }
  }

  lemma OthersMirrorAsBefore(s: State, p: Push, repo: string)
    requires IsPush(s, p) && repo != p.repo
    ensures Mirrors(Next(s, p).0, repo) <==> Mirrors(s, repo)
  {
    OtherBasesUntouched(s, p, repo);
  }

  /** All pushes to `repo` are faithful; those to other repositories may be what they like. */
  ghost predicate FaithfulRun(s: State, pushes: seq<Push>, repo: string)
    requires IsRun(s, pushes)
    decreases |pushes|
  {
    pushes != [] ==>
      && (pushes[0].repo == repo ==> Faithful(s, pushes[0]))
      && FaithfulRun(Next(s, pushes[0]).0, pushes[1..], repo)
  }

  ghost predicate MirrorsThroughout(s: State, pushes: seq<Push>, repo: string)
    requires IsRun(s, pushes)
    decreases |pushes|
  {
    Mirrors(s, repo) && (pushes != [] ==> MirrorsThroughout(Next(s, pushes[0]).0, pushes[1..], repo))
  }

  /** Over every run, the package tables are at all times the metadata of a repository's
      master branch exactly when every push to that repository is faithful. */
  lemma {:induction false} RunMirrors(s: State, pushes: seq<Push>, repo: string)
    requires IsRun(s, pushes) && Mirrors(s, repo)
    ensures MirrorsThroughout(s, pushes, repo) <==> FaithfulRun(s, pushes, repo)
    ensures FaithfulRun(s, pushes, repo) ==> Mirrors(Run(s, pushes), repo)
    decreases |pushes|
  {
    if pushes != [] {
      var p := pushes[0];
      if p.repo == repo {
        NextMirrorsIff(s, p);
      } else {
        OthersMirrorAsBefore(s, p, repo);
      }
      if Mirrors(Next(s, p).0, repo) {
        RunMirrors(Next(s, p).0, pushes[1..], repo);
      }
    }
  }

  /** Pushes by ordinary users of heads that can be stored completely are faithful. */
  lemma {:induction false} OrdinaryRunIsFaithful(s: State, pushes: seq<Push>, repo: string)
    requires IsRun(s, pushes)
    requires forall p | p in pushes && p.repo == repo :: !p.privileged && Publishable(p.head)
    ensures FaithfulRun(s, pushes, repo)
    decreases |pushes|
  {
    if pushes != [] {
      assert pushes[0] in pushes;
      assert forall q | q in pushes[1..] :: q in pushes;
      OrdinaryRunIsFaithful(Next(s, pushes[0]).0, pushes[1..], repo);
    }
  }

  // ---------------------------------------------------------------------------
  // Where the hook departs from judging HEAD

  ghost predicate VersionStored(s: State, repo: string, c: History)
    requires ValidCommit(c)
  {
    Stored(s.packages, repo, VersionOf(Info(c)))
  }

  ghost predicate NewCommitsValid(s: State, repo: string, head: History)
  {
    forall c | c in Reachable(head) && c !in Hidden(s, repo) :: ValidCommit(c)
  }

  /** `p` pushes `head` to `repo`, by whomever and walked in whatever order. */
  ghost predicate Pushes(s: State, p: Push, repo: string, head: History)
  {
    p.repo == repo && p.head == head && IsPush(s, p)
  }

  lemma NewHeadIsWalked(s: State, p: Push, repo: string, head: History)
    requires Pushes(s, p, repo, head)
    requires head !in Hidden(s, repo) && NewCommitsValid(s, repo, head)
    ensures Walked(p) && IsOldest(Last(p), head, Hidden(s, repo))
    ensures forall c | c in p.order :: ValidCommit(c)
  {
    assert head in Reachable(head);
    HeadIsWalked(s, p);
    WalkEndsAtOldest(p.order, head, Hidden(s, repo));
  }

  lemma OldestCanDecide(s: State, repo: string, head: History, c: History) returns (p: Push)
    requires NewCommitsValid(s, repo, head) && IsOldest(c, head, Hidden(s, repo))
    ensures Pushes(s, p, repo, head) && !p.privileged && p.order != [] && Last(p) == c
  {
    var order := OldestCanComeLast(c, head, Hidden(s, repo));
    p := Push(repo, head, false, false, order);
  }

  /** For a known base and a new head whose new commits all pass: whatever topological
      order libgit2 chooses, the version decision is the one HEAD deserves, exactly when
      every oldest new commit agrees with HEAD on being stored. */
  lemma VersionJudgedByOldestCommit(s: State, repo: string, head: History)
    requires repo in s.bases && head !in Hidden(s, repo) && NewCommitsValid(s, repo, head)
    ensures ValidCommit(head)
    ensures (forall p | Pushes(s, p, repo, head) :: Walked(p) && (Updates(s, p) <==> !VersionStored(s, repo, head)))
       <==> (forall c | IsOldest(c, head, Hidden(s, repo)) ::
               VersionStored(s, repo, c) <==> VersionStored(s, repo, head))
  {
    assert head in Reachable(head);
    if forall p | Pushes(s, p, repo, head) :: Walked(p) && (Updates(s, p) <==> !VersionStored(s, repo, head)) {
      forall c | IsOldest(c, head, Hidden(s, repo))
        ensures VersionStored(s, repo, c) <==> VersionStored(s, repo, head)
      {
        var p := OldestCanDecide(s, repo, head, c);
        assert Updates(s, p) <==> !VersionStored(s, repo, c);
      }
    }
    forall p | Pushes(s, p, repo, head) ensures Walked(p) && IsOldest(Last(p), head, Hidden(s, repo)) {
      NewHeadIsWalked(s, p, repo, head);
    }
  }

  /** A fast-forward push of a head with a new version: some topological order gets it
      refused for its version exactly when some oldest new commit still has a stored one. */
  lemma BumpOnTopOfUnbumpedCommitIsDenied(s: State, repo: string, head: History)
    requires repo in s.bases && head !in Hidden(s, repo) && NewCommitsValid(s, repo, head)
    requires repo in s.masters ==> s.masters[repo] in Reachable(head)
    requires ValidCommit(head) && !VersionStored(s, repo, head)
    ensures (exists p :: Pushes(s, p, repo, head) && Next(s, p) == (s, Denied(VersionNotUpdated)))
       <==> (exists c :: IsOldest(c, head, Hidden(s, repo)) && VersionStored(s, repo, c))
  {
    if c :| IsOldest(c, head, Hidden(s, repo)) && VersionStored(s, repo, c) {
      var p := StoredOldestIsDenied(s, repo, head, c);
    }
    forall p | Pushes(s, p, repo, head) && Next(s, p) == (s, Denied(VersionNotUpdated))
      ensures exists c :: IsOldest(c, head, Hidden(s, repo)) && VersionStored(s, repo, c)
    {
      NewHeadIsWalked(s, p, repo, head);
      DeniedVersionIsStored(s, p);
    }
  }

  lemma StoredOldestIsDenied(s: State, repo: string, head: History, c: History) returns (p: Push)
    requires repo in s.bases && NewCommitsValid(s, repo, head) && IsOldest(c, head, Hidden(s, repo))
    requires repo in s.masters ==> s.masters[repo] in Reachable(head)
    requires head !in Hidden(s, repo) && VersionStored(s, repo, c)
    ensures Pushes(s, p, repo, head) && Next(s, p) == (s, Denied(VersionNotUpdated))
  {
    p := OldestCanDecide(s, repo, head, c);
    NewHeadIsWalked(s, p, repo, head);
    assert CommitRefusal(s, p).None?;
    StoredVersionIsDenied(s, p);
  }

  lemma DeniedVersionIsStored(s: State, p: Push)
    requires IsPush(s, p) && Walked(p) && Next(s, p) == (s, Denied(VersionNotUpdated))
    ensures p.repo in s.bases && VersionStored(s, p.repo, Last(p))
  {
    DeniedForItsReason(s, p);
  }

  lemma StoredVersionIsDenied(s: State, p: Push)
    requires IsPush(s, p) && CommitRefusal(s, p).None? && !p.privileged
    requires Walked(p) && p.repo in s.bases && VersionStored(s, p.repo, Last(p))
    ensures Next(s, p) == (s, Denied(VersionNotUpdated))
  {
    var name :| name in s.packages && s.packages[name].base == p.repo
             && s.packages[name].version == VersionOf(Info(Last(p)));
    assert name in PackagesOf(s.packages, p.repo);
  }

  /** A push whose head is already reachable from master walks no commit, and then the
      version variables are unset: it is refused, and so is every `restore`. */
  lemma NothingNewIsDenied(s: State, p: Push)
    requires IsPush(s, p) && p.repo in s.masters
    ensures p.order == [] <==> p.head in Reachable(s.masters[p.repo])
    ensures p.head in Reachable(s.masters[p.repo]) ==> Next(s, p).0 == s && Next(s, p).1.Denied?
  {
    WalkEmptyIff(p.order, p.head, s.masters[p.repo]);
    if p.head in Reachable(s.masters[p.repo]) {
      assert CommitRefusal(s, p).Some?;
    }
  }

  lemma RestoreIsDenied(s: State, p: Push)
    requires IsPush(s, p) && p.repo in s.masters && p.head == s.masters[p.repo]
    ensures Next(s, p) == (s, Denied(NothingWalked))
  {
    NothingNewIsDenied(s, p);
    assert p.head in Reachable(p.head);
  }

  /** A base without package rows is stuck: no push to any repository gives it rows again
      or moves its master. */
  lemma {:induction false} EmptyBaseIsStuck(s: State, pushes: seq<Push>, repo: string)
    requires IsRun(s, pushes) && repo in s.bases && PackagesOf(s.packages, repo) == map[]
    ensures var s' := Run(s, pushes);
            && repo in s'.bases && PackagesOf(s'.packages, repo) == map[]
            && (repo in s'.masters <==> repo in s.masters)
            && (repo in s.masters ==> s'.masters[repo] == s.masters[repo])
    decreases |pushes|
  {
    if pushes != [] {
      var p := pushes[0];
      if p.repo != repo {
        OtherBasesUntouched(s, p, repo);
      } else if CommitRefusal(s, p).None? {
        HeadIsWalked(s, p);
      }
      EmptyBaseIsStuck(Next(s, p).0, pushes[1..], repo);
    }
  }

  ghost predicate WithoutRows(s: State, base: string)
  {
    base in s.bases && PackagesOf(s.packages, base) == map[]
  }

  /** Even when saving fails half-way, the first package has been written by then. */
  lemma FirstNameIsStored(packages: map<string, PackageRow>, repo: string, info: Srcinfo)
    requires info.pkgver != [] && info.pkgrel != [] && info.pkgdesc != [] && info.pkgname != []
    requires forall name | name in info.pkgname && name in packages :: packages[name].base == repo
    ensures info.pkgname[0] in Save(packages, repo, info).0
    ensures Save(packages, repo, info).0[info.pkgname[0]] == RowFor(repo, info)
  {
    var first, row := info.pkgname[0], RowFor(repo, info);
    assert first in info.pkgname;
    InsertAllAdds(Others(packages, repo)[first := row], info.pkgname[1..], row);
  }

  lemma WriteLeavesRows(s: State, p: Push)
    requires Walked(p) && DatabaseRefusal(s, p).None?
    ensures PackagesOf(Write(s, p).0.packages, p.repo) == map[] <==>
              PackagesOf(s.packages, p.repo) == map[] && Info(p.head).pkgdesc == []
  {
    var info := Info(p.head);
    if info.pkgdesc != [] {
      NoConflict(s, p, info.pkgname);
      FirstNameIsStored(s.packages, p.repo, info);
      assert info.pkgname[0] in PackagesOf(Save(s.packages, p.repo, info).0, p.repo);
    }
  }

  /** How a base gets there: a push leaves a base without rows that had some, or did not
      exist, exactly when it is the base's first, passes all checks, and has no description. */
  lemma LosesItsRowsIff(s: State, p: Push)
    requires Consistent(s) && IsPush(s, p) && !WithoutRows(s, p.repo)
    ensures WithoutRows(Next(s, p).0, p.repo) <==>
              PassesChecks(s, p) && p.repo !in s.bases && Info(p.head).pkgdesc == []
  {
    ChecksIff(s, p);
    if CommitRefusal(s, p).None? {
      HeadIsWalked(s, p);
      if DatabaseRefusal(s, p).None? {
        WriteLeavesRows(s, p);
      }
    }
    assert p.repo !in s.bases ==> PackagesOf(s.packages, p.repo) == map[];
  }

  /** Over every run in which all heads carry a description, no base is ever left so. */
  lemma {:induction false} DescribedBasesKeepRows(s: State, pushes: seq<Push>, base: string)
    requires Consistent(s) && IsRun(s, pushes)
    requires forall p | p in pushes && ValidCommit(p.head) :: Info(p.head).pkgdesc != []
    requires forall repo :: !WithoutRows(s, repo)
    ensures !WithoutRows(Run(s, pushes), base)
    decreases |pushes|
  {
    if pushes != [] {
      var p := pushes[0];
      assert p in pushes;
      NextConsistent(s, p);
      LosesItsRowsIff(s, p);
      forall repo ensures !WithoutRows(Next(s, p).0, repo) {
        if repo != p.repo {
          OtherBasesUntouched(s, p, repo);
          assert !WithoutRows(s, repo);
        }
      }
      assert forall q | q in pushes[1..] :: q in pushes;
      DescribedBasesKeepRows(Next(s, p).0, pushes[1..], base);
    }
  }

  // ---------------------------------------------------------------------------
  // Two histories

  /** A commit of the smallest valid tree for one package. */
  function Release(name: string, version: string, description: seq<string>, parents: seq<History>): History
  {
    var info := Srcinfo([name], [name], [version], ["1"], [], description, [], [], [], []);
    Commit(Content([Entry(".SRCINFO", Blob(1, Some(info))), Entry("PKGBUILD", Blob(0, None))], ""), parents)
  }

  lemma ReleaseIsValid(name: string, version: string, description: seq<string>, parents: seq<History>)
    requires MatchesName(name)
    ensures var c := Release(name, version, description, parents);
            && ValidCommit(c) && VersionOf(Info(c)) == version + "-1"
            && Info(c).pkgbase == [name] && Info(c).pkgname == [name] && Info(c).pkgdesc == description
  {
    var tree := Release(name, version, description, parents).content.tree;
    assert tree[0] in tree && tree[1] in tree;
    assert version + "-" + "1" == version + "-1";
  }

  /** Over an empty history, a commit without parents is walked alone. */
  lemma RootIsWalked(c: History)
    requires c.parents == []
    ensures Reachable(c) == {c} && IsWalk([c], c, {})
  {}

  /** The first push of a single commit to an empty host. */
  function FirstPush(name: string, description: seq<string>): Push
  {
    var c := Release(name, "1", description, []);
    Push(name, c, false, false, [c])
  }

  lemma FirstPushPasses(name: string, description: seq<string>)
    requires MatchesName(name)
    ensures var s, p := Empty({}), FirstPush(name, description);
            && IsPush(s, p) && CommitRefusal(s, p).None? && Walked(p) && Updates(s, p) && DatabaseRefusal(s, p).None?
  {
    var s, p := Empty({}), FirstPush(name, description);
    ReleaseIsValid(name, "1", description, []);
    RootIsWalked(p.head);
    assert forall c | c in p.order :: c == p.head;
    NoConflict(s, p, Info(p.head).pkgname);
  }

  /** A first push without a description is denied, yet leaves its base behind for good. */
  lemma EmptyBaseExample(name: string)
    requires MatchesName(name)
    ensures var s, p := Empty({}), FirstPush(name, []);
            IsPush(s, p) && Next(s, p).1 == Denied(NoDescription) && WithoutRows(Next(s, p).0, name)
  {
    FirstPushPasses(name, []);
    ReleaseIsValid(name, "1", [], []);
  }

  lemma FirstPushIsAccepted(name: string)
    requires MatchesName(name)
    ensures var s, p := Empty({}), FirstPush(name, ["d"]);
            && IsPush(s, p) && Next(s, p).1 == Accepted(true)
            && Next(s, p).0.bases == {name} && Next(s, p).0.masters == map[name := p.head]
  {
    FirstPushPasses(name, ["d"]);
    ReleaseIsValid(name, "1", ["d"], []);
    CompleteIsAccepted(Empty({}), FirstPush(name, ["d"]));
  }

  /** Two commits in a line on top of `old'` are walked newest first. */
  lemma LineIsWalked(old': History, unbumped: History, head: History)
    requires unbumped.parents == [old'] && head.parents == [unbumped]
    requires unbumped !in Reachable(old') && head !in Reachable(old') && head != unbumped
    ensures IsWalk([head, unbumped], head, Reachable(old')) && old' in Reachable(head)
  {
    assert Reachable(unbumped) == {unbumped} + Reachable(old');
    assert Reachable(head) == {head} + Reachable(unbumped);
    assert old' in Reachable(old') && unbumped in Reachable(unbumped);
  }

  /** On top of the first push: one commit that keeps its version, and one that raises it. */
  function Unbumped(name: string): History
  {
    Release(name, "1", ["d"], [FirstPush(name, ["d"]).head])
  }

  function BumpPush(name: string): Push
  {
    var head := Release(name, "2", ["d"], [Unbumped(name)]);
    Push(name, head, false, false, [head, Unbumped(name)])
  }

  lemma BumpPushIsWalked(name: string)
    requires MatchesName(name)
    ensures var p, first := BumpPush(name), FirstPush(name, ["d"]).head;
            && ValidCommit(p.head) && ValidCommit(Unbumped(name))
            && VersionOf(Info(p.head)) == "2-1" && VersionOf(Info(Unbumped(name))) == "1-1"
            && IsWalk(p.order, p.head, Reachable(first)) && first in Reachable(p.head)
  {
    var p, first := BumpPush(name), FirstPush(name, ["d"]).head;
    ReleaseIsValid(name, "1", ["d"], [first]);
    ReleaseIsValid(name, "2", ["d"], [Unbumped(name)]);
    RootIsWalked(first);
    assert |first.parents| == 0 && Unbumped(name).parents[0] == first && p.head.parents[0] == Unbumped(name);
    LineIsWalked(first, Unbumped(name), p.head);
  }

  /** Pushing both at once is refused, although HEAD's version is new. */
  lemma BumpExample(name: string)
    requires MatchesName(name)
    ensures IsPush(Empty({}), FirstPush(name, ["d"]))
    ensures var s, p := Next(Empty({}), FirstPush(name, ["d"])).0, BumpPush(name);
            && IsPush(s, p) && ValidCommit(p.head) && !VersionStored(s, name, p.head)
            && Next(s, p) == (s, Denied(VersionNotUpdated))
  {
    FirstPushIsAccepted(name);
    BumpPushIsWalked(name);
    ReleaseIsValid(name, "1", ["d"], []);
    assert "1-1"[0] != "2-1"[0];
    BumpAfterUpdate(Empty({}), FirstPush(name, ["d"]), BumpPush(name));
  }

  lemma BumpAfterUpdate(s: State, first: Push, p: Push)
    requires IsPush(s, first) && Next(s, first).1 == Accepted(true) && ValidCommit(first.head)
    requires p.repo == first.repo && !p.privileged && p.order != [] && forall c | c in p.order :: ValidCommit(c)
    requires IsWalk(p.order, p.head, Reachable(first.head)) && first.head in Reachable(p.head) && ValidCommit(p.head)
    requires VersionOf(Info(Last(p))) == VersionOf(Info(first.head)) != VersionOf(Info(p.head))
    ensures var s' := Next(s, first).0;
            && IsPush(s', p) && !VersionStored(s', p.repo, p.head)
            && Next(s', p) == (s', Denied(VersionNotUpdated))
  {
    NextEffect(s, first);
    UpdateStoresVersion(s, first);
    assert Hidden(Next(s, first).0, p.repo) == Reachable(first.head);
    BumpIsDenied(Next(s, first).0, p);
  }

  lemma FastForwardPasses(s: State, p: Push)
    requires IsPush(s, p) && p.repo in s.masters && s.masters[p.repo] in Reachable(p.head)
    requires p.order != [] && forall c | c in p.order :: ValidCommit(c)
    ensures CommitRefusal(s, p).None? && Walked(p)
  {
    HeadIsWalked(s, p);
  }

  lemma BumpIsDenied(s: State, p: Push)
    requires p.repo in s.bases && p.repo in s.masters && !p.privileged
    requires IsPush(s, p) && s.masters[p.repo] in Reachable(p.head)
    requires p.order != [] && forall c | c in p.order :: ValidCommit(c)
    requires VersionStored(s, p.repo, Last(p))
    ensures Next(s, p) == (s, Denied(VersionNotUpdated))
  {
    FastForwardPasses(s, p);
    StoredVersionIsDenied(s, p);
  }

  // ---------------------------------------------------------------------------
  // The hook itself

  class Server {
    var masters: map<string, History>
    var tags: map<(string, string), History>
    var bases: set<string>
    var packages: map<string, PackageRow>
    const blacklist: set<string>

    ghost function Value(): State
      reads this
    {
      State(masters, tags, bases, packages, blacklist)
    }

    constructor (blacklist: set<string>)
      ensures Value() == Empty(blacklist) && Consistent(Value())
    {
      masters, tags, bases, packages, this.blacklist := map[], map[], {}, map[], blacklist;
    }

    /** `main`: `back` is the walk from the old master hiding the new head, `p.order` the
        walk from the new head hiding the old master. */
    method Update(p: Push, back: seq<History>) returns (out: Outcome)
      requires Consistent(Value()) && IsPush(Value(), p)
      requires p.repo in masters ==> IsWalk(back, masters[p.repo], Reachable(p.head))
      modifies this
      ensures (Value(), out) == Next(old(Value()), p)
      ensures Consistent(Value())
    {
      ghost var s := Value();
      NextConsistent(s, p);
      var refusal := CheckCommits(p, back);
      if refusal.Some? {
        return Denied(refusal.value);
      }
      HeadIsWalked(s, p);
      out := Publish(p);
    }

    /** The fast-forward test and the loop over new commits. */
    method CheckCommits(p: Push, back: seq<History>) returns (refusal: Option<Reason>)
      requires RefsValid(Value()) && IsPush(Value(), p)
      requires p.repo in masters ==> IsWalk(back, masters[p.repo], Reachable(p.head))
      ensures refusal == CommitRefusal(Value(), p)
    {
      if p.repo in masters {
        WalkEmptyIff(back, masters[p.repo], p.head);
        if !MayOverwrite(p) && back != [] {
          return Some(NonFastForward);
        }
      }
      var ok := CheckOrder(p.order);
      assert ok <==> forall c | c in p.order :: ValidCommit(c) by {
        assert forall i | 0 <= i < |p.order| :: p.order[i] in p.order;
      }
      refusal := if !ok then Some(InvalidCommit) else if p.order == [] then Some(NothingWalked) else None;
    }

    static method CheckOrder(order: seq<History>) returns (ok: bool)
      ensures ok <==> forall i | 0 <= i < |order| :: ValidCommit(order[i])
    {
      for i := 0 to |order|
        invariant forall k | 0 <= k < i :: ValidCommit(order[k])
      {
        ok := CheckTree(order[i].content.tree);
        if !ok {
          return;
        }
      }
      ok := true;
    }

    method Publish(p: Push) returns (out: Outcome)
      requires Consistent(Value()) && Walked(p)
      modifies this
      ensures (Value(), out) == match DatabaseRefusal(old(Value()), p)
                                case Some(reason) => (old(Value()), Denied(reason))
                                case None => Write(old(Value()), p)
    {
      var version, head := VersionOf(Info(Last(p))), Info(p.head);
      var updated := true;
      if p.repo in bases {
        var found := FirstVersion(p.repo);
        if found.None? {
          return Denied(NoPackages);
        }
        updated := found.value != version;
      }
      assert updated <==> Updates(Value(), p);
      if !updated && !p.privileged {
        return Denied(VersionNotUpdated);
      }
      if head.pkgbase[0] != p.repo {
        return Denied(WrongBase);
      }
      var conflict := CheckNames(p, head.pkgname);
      if conflict.Some? {
        return Denied(conflict.value);
      }
      out := WriteAll(p, updated);
    }

    /** `db_pkgbase.packages[0].Version`; without any package there is no first one. */
    method FirstVersion(repo: string) returns (version: Option<string>)
      requires OneVersionPerBase(packages)
      ensures version.None? <==> PackagesOf(packages, repo) == map[]
      ensures version.Some? ==> forall v :: Stored(packages, repo, v) <==> v == version.value
    {
      var own := PackagesOf(packages, repo);
      if own == map[] {
        return None;
      }
      assert exists name :: name in own;
      var first :| first in own;
      version := Some(own[first].version);
    }

    /** The loop over pkgname: blacklist and ownership. */
    method CheckNames(p: Push, names: seq<string>) returns (conflict: Option<Reason>)
      ensures conflict == FirstConflict(Value(), p, names)
    {
      for i := 0 to |names|
        invariant FirstConflict(Value(), p, names) == FirstConflict(Value(), p, names[i..])
      {
        assert names[i..][1..] == names[i + 1..];
        if names[i] in blacklist && !p.privileged {
          return Some(Blacklisted);
        }
        if names[i] in packages && packages[names[i]].base != p.repo {
          return Some(OwnedElsewhere);
        }
      }
      conflict := None;
    }

    method WriteAll(p: Push, updated: bool) returns (out: Outcome)
      requires Walked(p) && (updated <==> Updates(Value(), p))
      modifies this
      ensures (Value(), out) == Write(old(Value()), p)
    {
      ghost var s := Value();
      if p.repo !in bases {
        bases := bases + {p.repo};
      }
      assert bases == s.bases + {p.repo};
      if updated {
        var failure := SaveMetadata(p.repo, Info(p.head));
        if failure.Some? {
          return Denied(failure.value);
        }
        var tag := (p.repo, TagName(VersionOf(Info(Last(p)))));
        if tag !in tags {
          tags := tags[tag := p.head];
        }
      }
      masters := masters[p.repo := p.head];
      out := Accepted(updated);
    }

    /** save_metadata: drop the base's package rows, then create one row per name. */
    method SaveMetadata(repo: string, head: Srcinfo) returns (failure: Option<Reason>)
      requires head.pkgver != [] && head.pkgrel != []
      modifies this`packages
      ensures (packages, failure) == Save(old(packages), repo, head)
    {
      if head.pkgdesc == [] {
        return Some(NoDescription);
      }
      packages := Others(packages, repo);
      ghost var start := packages;
      var version := VersionOf(head);
      for i := 0 to |head.pkgname|
        invariant InsertAll(start, head.pkgname, RowFor(repo, head))
            == InsertAll(packages, head.pkgname[i..], RowFor(repo, head))
      {
        var pkg := head.pkgname[i];
        assert head.pkgname[i..][1..] == head.pkgname[i + 1..];
        if pkg in packages {
          return Some(DuplicateName);
        }
        var rows := SaveRows(head.table);
        packages := packages[pkg := PackageRow(repo, version, head.pkgdesc[0], UrlOf(head), rows)];
      }
      failure := None;
    }
  }
}
