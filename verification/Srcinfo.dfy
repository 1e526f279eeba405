/** What the update hook sees of one commit, and the checks it makes on it. */
module Srcinfo {
  import opened Wrappers
  import opened Metadata

  /** The result of parsing a .SRCINFO file.  Plain variables are lists, empty when unset.
      `scripts` holds the normalised path of every maintainer script variable, `sources`
      the entries of all source variables, `table` the dependency and relation variables. */
  datatype Srcinfo = Srcinfo(
    pkgbase: seq<string>, pkgname: seq<string>, pkgver: seq<string>, pkgrel: seq<string>,
    epoch: seq<string>, pkgdesc: seq<string>, url: seq<string>,
    scripts: seq<string>, sources: seq<string>, table: seq<Variable>)

  /** A tree entry's object.  A blob carries its size and, as .SRCINFO, how it parses. */
  datatype TreeObject = Blob(size: nat, parsed: Option<Srcinfo>) | Subtree | OtherObject

  datatype Entry = Entry(name: string, item: TreeObject)

  type Tree = seq<Entry>

  datatype Content = Content(tree: Tree, message: string)

  const MAX_BLOB_SIZE := 256000
  const MAX_SOURCE_LENGTH := 8000

  predicate HasFile(tree: Tree, name: string) { exists e :: e in tree && e.name == name }

  /** The parsed .SRCINFO of a tree, if it has one and it parses. */
  function Parsed(tree: Tree): Option<Srcinfo>
  {
    if tree == [] then None
    else if tree[0].name == ".SRCINFO" then
      if tree[0].item.Blob? then tree[0].item.parsed else None
    else Parsed(tree[1..])
  }

  predicate IsLowerOrDigit(c: char) { 'a' <= c <= 'z' || '0' <= c <= '9' }

  predicate IsNameChar(c: char) { IsLowerOrDigit(c) || c in ".+_-" }

  predicate MatchesBody(body: string)
  {
    body != "" && IsLowerOrDigit(body[0]) && forall i | 0 <= i < |body| :: IsNameChar(body[i])
  }

  /** `[a-z0-9][a-z0-9.+_-]*$`, where `$` also matches before a final newline. */
  predicate MatchesName(s: string)
  {
    MatchesBody(if s != "" && s[|s| - 1] == '\n' then s[..|s| - 1] else s)
  }

  predicate IsDigits(s: string) { s != "" && forall i | 0 <= i < |s| :: '0' <= s[i] <= '9' }

  predicate Contains(s: string, t: string) { t <= s || (s != "" && Contains(s[1..], t)) }

  predicate IsRemote(source: string) { Contains(source, "://") || Contains(source, "lp:") }

  /** Everything one commit is checked for. */
  predicate ValidTree(tree: Tree)
  {
    && HasFile(tree, ".SRCINFO") && HasFile(tree, "PKGBUILD")
    && (forall e | e in tree :: e.item.Blob? && e.item.size <= MAX_BLOB_SIZE)
    && Parsed(tree).Some?
    && ValidInfo(Parsed(tree).value, tree)
  }

  /** The variables a file cannot do without are there, and the lint finds nothing. */
  predicate ValidInfo(info: Srcinfo, tree: Tree)
  {
    && info.pkgbase != [] && info.pkgname != [] && info.pkgver != [] && info.pkgrel != []
    && MatchesName(info.pkgbase[0])
    && (forall name | name in info.pkgname :: MatchesName(name))
    && (|info.epoch| == 1 ==> IsDigits(info.epoch[0]))
    && (forall script | script in info.scripts :: HasFile(tree, script))
    && (forall source | source in info.sources ::
          |source| <= MAX_SOURCE_LENGTH && (IsRemote(source) || HasFile(tree, source)))
  }

  /** The body of the hook's loop over new commits: false stands for die_commit. */
  method CheckTree(tree: Tree) returns (ok: bool)
    ensures ok <==> ValidTree(tree)
  {
    if !HasFile(tree, ".SRCINFO") || !HasFile(tree, "PKGBUILD") {
      return false;
    }
    for i := 0 to |tree|
      invariant forall k | 0 <= k < i :: tree[k].item.Blob? && tree[k].item.size <= MAX_BLOB_SIZE
    {
      if !tree[i].item.Blob? || tree[i].item.size > MAX_BLOB_SIZE {
        assert tree[i] in tree;
        return false;
      }
    }
    if Parsed(tree).None? {
      return false;
    }
    ok := CheckInfo(Parsed(tree).value, tree);
  }

  method CheckInfo(info: Srcinfo, tree: Tree) returns (ok: bool)
    ensures ok <==> ValidInfo(info, tree)
  {
    if info.pkgbase == [] || info.pkgname == [] || info.pkgver == [] || info.pkgrel == [] {
      return false;
    }
    if !MatchesName(info.pkgbase[0]) {
      return false;
    }
    for i := 0 to |info.pkgname|
      invariant forall k | 0 <= k < i :: MatchesName(info.pkgname[k])
    {
      if !MatchesName(info.pkgname[i]) {
        assert info.pkgname[i] in info.pkgname;
        return false;
      }
    }
    if |info.epoch| == 1 && !IsDigits(info.epoch[0]) {
      return false;
    }
    for i := 0 to |info.scripts|
      invariant forall k | 0 <= k < i :: HasFile(tree, info.scripts[k])
    {
      if !HasFile(tree, info.scripts[i]) {
        assert info.scripts[i] in info.scripts;
        return false;
      }
    }
    for i := 0 to |info.sources|
      invariant forall k | 0 <= k < i :: |info.sources[k]| <= MAX_SOURCE_LENGTH
                                      && (IsRemote(info.sources[k]) || HasFile(tree, info.sources[k]))
    {
      var source := info.sources[i];
      if |source| > MAX_SOURCE_LENGTH || !(IsRemote(source) || HasFile(tree, source)) {
        assert source in info.sources;
        return false;
      }
    }
    ok := true;
  }

  function GetVersion(pkgver: string, pkgrel: string, epoch: Option<string>): string
  {
    match epoch
    case Some(e) => e + ":" + pkgver + "-" + pkgrel
    case None => pkgver + "-" + pkgrel
  }

  function VersionOf(info: Srcinfo): string
    requires info.pkgver != [] && info.pkgrel != []
  {
    GetVersion(info.pkgver[0], info.pkgrel[0], if |info.epoch| == 1 then Some(info.epoch[0]) else None)
  }

  // ---------------------------------------------------------------------------
  // What the checks amount to

  /** A name: one line of the allowed characters, the first of them a letter or a digit. */
  ghost predicate IsName(body: string)
  {
    && body != "" && ('a' <= body[0] <= 'z' || '0' <= body[0] <= '9')
    && forall i | 0 <= i < |body| ::
         var c := body[i]; 'a' <= c <= 'z' || '0' <= c <= '9' || c == '.' || c == '+' || c == '_' || c == '-'
  }

  lemma IsNameIff(body: string)
    ensures IsName(body) <==> MatchesBody(body)
  {
    forall i | 0 <= i < |body|
      ensures IsNameChar(body[i]) <==> var c := body[i];
                'a' <= c <= 'z' || '0' <= c <= '9' || c == '.' || c == '+' || c == '_' || c == '-'
    {}
  }

  /** The regular expression accepts names, and names followed by one newline. */
  lemma MatchesNameIff(s: string)
    ensures MatchesName(s) <==> IsName(s) || exists body :: s == body + "\n" && IsName(body)
  {
    IsNameIff(s);
    if s != "" && s[|s| - 1] == '\n' {
      var front := s[..|s| - 1];
      IsNameIff(front);
      assert s == front + "\n" && !IsNameChar(s[|s| - 1]);
      forall body | s == body + "\n" ensures body == front {}
    }
  }

  ghost predicate OccursAt(s: string, t: string, i: nat) { i + |t| <= |s| && s[i..i + |t|] == t }

  lemma {:induction false} ContainsIff(s: string, t: string)
    ensures Contains(s, t) <==> exists i: nat :: OccursAt(s, t, i)
  {
    assert OccursAt(s, t, 0) <==> t <= s;
    if s != "" {
      ContainsIff(s[1..], t);
      forall i: nat | i > 0 ensures OccursAt(s, t, i) <==> OccursAt(s[1..], t, i - 1) {
        if i + |t| <= |s| {
          assert s[1..][i - 1..i - 1 + |t|] == s[i..i + |t|];
        }
      }
      forall i: nat | OccursAt(s[1..], t, i) ensures OccursAt(s, t, i + 1) {
        assert OccursAt(s, t, i + 1) <==> OccursAt(s[1..], t, i + 1 - 1);
      }
    }
  }

  /** The file `name` of a tree: its first entry so called. */
  ghost predicate IsFile(tree: Tree, name: string, i: nat)
  {
    i < |tree| && tree[i].name == name && forall j | 0 <= j < i :: tree[j].name != name
  }

  ghost predicate ParsesAs(item: TreeObject, info: Srcinfo) { item.Blob? && item.parsed == Some(info) }

  lemma {:induction false} ParsedIff(tree: Tree, info: Srcinfo)
    ensures Parsed(tree) == Some(info) <==>
              exists i: nat :: IsFile(tree, ".SRCINFO", i) && ParsesAs(tree[i].item, info)
  {
    if tree != [] {
      if tree[0].name == ".SRCINFO" {
        assert IsFile(tree, ".SRCINFO", 0);
      } else {
        var rest := tree[1..];
        ParsedIff(rest, info);
        forall i: nat | IsFile(rest, ".SRCINFO", i) ensures IsFile(tree, ".SRCINFO", i + 1) && rest[i] == tree[i + 1] {
          assert forall j | 0 < j <= i :: tree[j] == rest[j - 1];
        }
        forall i: nat | IsFile(tree, ".SRCINFO", i)
          ensures i > 0 && IsFile(rest, ".SRCINFO", i - 1) && rest[i - 1] == tree[i]
        {
          assert forall j | 0 <= j < i - 1 :: rest[j] == tree[j + 1];
        }
      }
    }
  }

  /** A source entry the hook refuses: too long, or neither an address nor a file. */
  ghost predicate BadSource(source: string, tree: Tree)
  {
    || |source| > 8000
    || (&& !(exists i: nat :: OccursAt(source, "://", i)) && !(exists i: nat :: OccursAt(source, "lp:", i))
        && forall e | e in tree :: e.name != source)
  }

  /** Everything that can be wrong with a commit's tree and metadata, message by message. */
  ghost predicate HasDefect(tree: Tree)
  {
    || (forall e | e in tree :: e.name != ".SRCINFO")
    || (forall e | e in tree :: e.name != "PKGBUILD")
    || (exists e :: e in tree && (!e.item.Blob? || e.item.size > 256000))
    || (forall info :: Parsed(tree) != Some(info))
    || (exists info :: Parsed(tree) == Some(info) && HasBadInfo(info, tree))
  }

  ghost predicate BadEpoch(epoch: string)
  {
    epoch == "" || exists i :: 0 <= i < |epoch| && !('0' <= epoch[i] <= '9')
  }

  ghost predicate HasBadInfo(info: Srcinfo, tree: Tree)
  {
    || info.pkgbase == [] || info.pkgname == [] || info.pkgver == [] || info.pkgrel == []
    || !MatchesName(info.pkgbase[0])
    || (exists name :: name in info.pkgname && !MatchesName(name))
    || (exists epoch :: info.epoch == [epoch] && BadEpoch(epoch))
    || (exists script :: script in info.scripts && forall e | e in tree :: e.name != script)
    || (exists source :: source in info.sources && BadSource(source, tree))
  }

  lemma BadSourceIff(source: string, tree: Tree)
    ensures BadSource(source, tree) <==>
              |source| > MAX_SOURCE_LENGTH || !(IsRemote(source) || HasFile(tree, source))
  {
    ContainsIff(source, "://");
    ContainsIff(source, "lp:");
  }

  /** A commit passes exactly when nothing is wrong with it. */
  lemma ValidIffNoDefect(tree: Tree)
    ensures ValidTree(tree) <==> !HasDefect(tree)
  {
    forall info | Parsed(tree) == Some(info) ensures ValidInfo(info, tree) <==> !HasBadInfo(info, tree) {
      ValidInfoIff(info, tree);
    }
    if Parsed(tree).Some? {
      assert Parsed(tree) == Some(Parsed(tree).value);
    }
  }

  lemma ValidInfoIff(info: Srcinfo, tree: Tree)
    ensures ValidInfo(info, tree) <==> !HasBadInfo(info, tree)
  {
    forall source ensures BadSource(source, tree) <==>
                            |source| > MAX_SOURCE_LENGTH || !(IsRemote(source) || HasFile(tree, source))
    {
      BadSourceIff(source, tree);
    }
    if |info.epoch| == 1 {
      assert info.epoch == [info.epoch[0]];
    }
  }

  /** The version of metadata with one epoch or none. */
  lemma VersionIsSpelled(info: Srcinfo, ver: string, rel: string)
    requires info.pkgver != [] && info.pkgrel != [] && info.pkgver[0] == ver && info.pkgrel[0] == rel
    ensures info.epoch == [] ==> VersionOf(info) == ver + "-" + rel
    ensures |info.epoch| == 1 ==> VersionOf(info) == info.epoch[0] + ":" + ver + "-" + rel
  {}
}
