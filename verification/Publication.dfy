/** From pushes to archives: what the metadata archive says about every package after any
    run of pushes that keeps the package tables in step with the repositories. */
module Publication {
  import opened Wrappers
  import opened Metadata
  import opened Exports
  import opened CommitGraph
  import opened Srcinfo
  import opened UpdateHook

  /** After any run whose pushes to a repository are faithful, the repository's stored
      packages are the ones its head names, each with the head's version and rows. */
  lemma StoredAsHead(blacklist: set<string>, pushes: seq<Push>, repo: string, name: string)
    requires IsRun(Empty(blacklist), pushes)
    requires FaithfulRun(Empty(blacklist), pushes, repo)
    requires repo in Run(Empty(blacklist), pushes).masters
    ensures var s := Run(Empty(blacklist), pushes);
            && ValidCommit(s.masters[repo])
            && (name in Info(s.masters[repo]).pkgname <==> name in s.packages && s.packages[name].base == repo)
            && (name in s.packages && s.packages[name].base == repo ==>
                  && s.packages[name].version == VersionOf(Info(s.masters[repo]))
                  && s.packages[name].rows == Flatten(Info(s.masters[repo]).table))
  {
    var s := Run(Empty(blacklist), pushes);
    RunMirrors(Empty(blacklist), pushes, repo);
    assert name in HeadPackages(repo, s.masters[repo]) <==> name in PackagesOf(s.packages, repo);
    if name in PackagesOf(s.packages, repo) {
      assert PackagesOf(s.packages, repo)[name] == HeadPackages(repo, s.masters[repo])[name];
    }
  }

  /** For each of them and each kind, the version 2 archive, read back in whatever order,
      lists what the head's .SRCINFO lists under every (distribution, architecture) pair
      exactly when no name occurs twice there. */
  lemma ArchiveFollowsHead(blacklist: set<string>, pushes: seq<Push>, repo: string, name: string,
                           head: Srcinfo, kind: Kind, loaded: seq<Row>, groups: seq<Group>)
    requires IsRun(Empty(blacklist), pushes)
    requires FaithfulRun(Empty(blacklist), pushes, repo)
    requires var s := Run(Empty(blacklist), pushes);
             && repo in s.masters && Parsed(s.masters[repo].content.tree) == Some(head)
             && name in s.packages && s.packages[name].base == repo
             && multiset(loaded) == multiset(OfKind(s.packages[name].rows, kind))
    requires SingleLines(head.table)
    requires IsGrouping(groups, Entities(loaded))
    ensures RoundTrips(groups, head.table, kind) <==> NamesDistinct(FlattenKind(head.table, kind))
  {
    StoredAsHead(blacklist, pushes, repo, name);
    V2RoundTripIff(head.table, kind, loaded, groups);
  }
}
