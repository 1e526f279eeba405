/** The metadata archives (version 1 and version 2) and the RPC's package information,
    all read from the same dependency and relation rows. */
module Exports {
  import opened Wrappers
  import opened Sequences
  import opened Metadata

  // ---------------------------------------------------------------------------
  // Reading rows

  /** The filter that leaves variables without a distribution or architecture. */
  function IsPlain(): Row -> Option<Row> { (r: Row) => if r.key == PLAIN then Some(r) else None }

  /** The exported text of a row, if it belongs to `key`. */
  function TextAt(key: Key): Row -> Option<string> { (r: Row) => if r.key == key then Some(Text(r)) else None }

  function PlainRows(rows: seq<Row>): seq<Row> { FilterMap(IsPlain(), rows) }

  function TextsAt(rows: seq<Row>, key: Key): seq<string> { FilterMap(TextAt(key), rows) }

  function AnyText(): Row -> Option<string> { (r: Row) => Some(Text(r)) }

  function Texts(rows: seq<Row>): seq<string> { FilterMap(AnyText(), rows) }

  function WithName(name: string): Row -> Option<Row> { (r: Row) => if r.name == name then Some(r) else None }

  function Named(rows: seq<Row>, name: string): seq<Row> { FilterMap(WithName(name), rows) }

  /** Rows come back as mapped objects, one per identity key (package, type, name): of
      several rows with the same name only the first is seen. */
  function Entities(rows: seq<Row>): seq<Row>
  {
    if rows == [] then []
    else
      var seen, last := Entities(rows[..|rows| - 1]), rows[|rows| - 1];
      if Named(seen, last.name) == [] then seen + [last] else seen
  }

  /** No name occurs twice (among the rows of one package and one type). */
  ghost predicate NamesDistinct(rows: seq<Row>)
  {
    forall name :: |Named(rows, name)| <= 1
  }

  lemma {:induction false} EntitiesKeepNames(rows: seq<Row>, name: string)
    ensures Named(Entities(rows), name) == [] <==> Named(rows, name) == []
    ensures |Entities(rows)| <= |rows|
  {
    if rows != [] {
      var init, last := rows[..|rows| - 1], rows[|rows| - 1];
      assert rows == init + [last];
      EntitiesKeepNames(init, name);
      FilterMapSnoc(WithName(name), init, last);
      FilterMapSnoc(WithName(name), Entities(init), last);
    }
  }

  lemma NamedSnoc(init: seq<Row>, last: Row, name: string)
    ensures |Named(init + [last], name)| == |Named(init, name)| + if name == last.name then 1 else 0
  {
    FilterMapSnoc(WithName(name), init, last);
  }

  lemma NamesDistinctSnoc(init: seq<Row>, last: Row)
    ensures NamesDistinct(init + [last]) <==> NamesDistinct(init) && Named(init, last.name) == []
  {
    forall name ensures |Named(init + [last], name)| == |Named(init, name)| + if name == last.name then 1 else 0 {
      NamedSnoc(init, last, name);
    }
    if NamesDistinct(init + [last]) {
      forall name ensures |Named(init, name)| <= 1 {
        assert |Named(init + [last], name)| <= 1;
      }
      assert |Named(init + [last], last.name)| <= 1;
    }
  }

  /** Reading rows as objects loses none of them exactly when names are distinct. */
  lemma {:induction false} EntitiesCompleteIff(rows: seq<Row>)
    ensures |Entities(rows)| == |rows| <==> NamesDistinct(rows)
    ensures NamesDistinct(rows) ==> Entities(rows) == rows
  {
    if rows == [] {
      assert forall name :: Named(rows, name) == [];
    } else {
      var init, last := rows[..|rows| - 1], rows[|rows| - 1];
      assert rows == init + [last];
      EntitiesCompleteIff(init);
      EntitiesKeepNames(init, last.name);
      NamesDistinctSnoc(init, last);
    }
  }

  lemma NamesDistinctPermutation(a: seq<Row>, b: seq<Row>)
    requires multiset(a) == multiset(b)
    ensures NamesDistinct(a) <==> NamesDistinct(b)
  {
    forall name ensures |Named(a, name)| == |Named(b, name)| {
      FilterMapPermutation(WithName(name), a, b);
      assert |multiset(Named(a, name))| == |multiset(Named(b, name))|;
    }
    if NamesDistinct(a) {
      forall name ensures |Named(b, name)| <= 1 { assert |Named(a, name)| <= 1; }
    }
    if NamesDistinct(b) {
      forall name ensures |Named(a, name)| <= 1 { assert |Named(b, name)| <= 1; }
    }
  }

  /** Every row with its key and text. */
  function Tagged(): Row -> Option<(Key, string)> { (r: Row) => Some((r.key, Text(r))) }

  lemma {:induction false} TaggedCount(rows: seq<Row>, key: Key, text: string)
    ensures multiset(FilterMap(Tagged(), rows))[(key, text)] == multiset(TextsAt(rows, key))[text]
    ensures |FilterMap(Tagged(), rows)| == |rows|
  {
    if rows != [] {
      TaggedCount(rows[1..], key, text);
    }
  }

  /** Rows that list the same texts under every key are equally many. */
  lemma SameTextsSameLength(a: seq<Row>, b: seq<Row>)
    requires forall key :: multiset(TextsAt(a, key)) == multiset(TextsAt(b, key))
    ensures |a| == |b|
  {
    var ta, tb := multiset(FilterMap(Tagged(), a)), multiset(FilterMap(Tagged(), b));
    forall e: (Key, string) ensures ta[e] == tb[e] {
      TaggedCount(a, e.0, e.1);
      TaggedCount(b, e.0, e.1);
      assert multiset(TextsAt(a, e.0)) == multiset(TextsAt(b, e.0));
    }
    assert ta == tb;
    TaggedCount(a, PLAIN, "");
    TaggedCount(b, PLAIN, "");
    assert |FilterMap(Tagged(), a)| == |ta|;
  }

  lemma PlainTexts(rows: seq<Row>)
    ensures Texts(PlainRows(rows)) == TextsAt(rows, PLAIN)
  {
    FilterMapCompose(IsPlain(), AnyText(), TextAt(PLAIN), rows);
  }

  // ---------------------------------------------------------------------------
  // Version 2: regrouping by (distribution, architecture)

  datatype Group = Group(key: Key, packages: seq<string>)

  predicate HasGroup(groups: seq<Group>, key: Key) { exists g :: g in groups && g.key == key }

  /** `groups` partitions `rows`: one group per key that occurs, holding that key's texts. */
  ghost predicate IsGrouping(groups: seq<Group>, rows: seq<Row>)
  {
    && (forall i, j | 0 <= i < j < |groups| :: groups[i].key != groups[j].key)
    && (forall g | g in groups :: g.packages != [] && g.packages == TextsAt(rows, g.key))
    && (forall key | TextsAt(rows, key) != [] :: HasGroup(groups, key))
  }

  /** The two loops over `dep_mappings` (and likewise `rel_mappings`). */
  method GroupRows(rows: seq<Row>) returns (groups: seq<Group>)
    ensures IsGrouping(groups, rows)
  {
    var mappings: map<Key, seq<string>> := map[];
    var order: seq<Key> := [];
    for i := 0 to |rows|
      invariant forall key :: key in order <==> key in mappings
      invariant forall a, b | 0 <= a < b < |order| :: order[a] != order[b]
      invariant forall key | key in mappings :: mappings[key] != [] && mappings[key] == TextsAt(rows[..i], key)
      invariant forall key | TextsAt(rows[..i], key) != [] :: key in mappings
    {
      var row := rows[i];
      assert rows[..i + 1] == rows[..i] + [row];
      forall key ensures TextsAt(rows[..i + 1], key)
                      == TextsAt(rows[..i], key) + if row.key == key then [Text(row)] else []
      {
        FilterMapSnoc(TextAt(key), rows[..i], row);
      }
      if row.key in mappings {
        mappings := mappings[row.key := mappings[row.key] + [Text(row)]];
      } else {
        assert TextsAt(rows[..i], row.key) == [];
        mappings := mappings[row.key := [Text(row)]];
        order := order + [row.key];
      }
    }
    assert rows[..|rows|] == rows;
    groups := ListGroups(rows, mappings, order);
  }

  /** The loop that lists the mapping's entries, key by key. */
  method ListGroups(rows: seq<Row>, mappings: map<Key, seq<string>>, order: seq<Key>) returns (groups: seq<Group>)
    requires forall key :: key in order <==> key in mappings
    requires forall a, b | 0 <= a < b < |order| :: order[a] != order[b]
    requires forall key | key in mappings :: mappings[key] != [] && mappings[key] == TextsAt(rows, key)
    requires forall key | TextsAt(rows, key) != [] :: key in mappings
    ensures IsGrouping(groups, rows)
  {
    groups := [];
    for i := 0 to |order|
      invariant |groups| == i
      invariant forall a | 0 <= a < i :: groups[a] == Group(order[a], mappings[order[a]])
    {
      assert order[i] in order;
      groups := groups + [Group(order[i], mappings[order[i]])];
    }
    forall key | TextsAt(rows, key) != [] ensures HasGroup(groups, key) {
      assert key in order;
      var a :| 0 <= a < |order| && order[a] == key;
      assert groups[a] in groups;
    }
    forall g | g in groups ensures g.packages != [] && g.packages == TextsAt(rows, g.key) {
      var a :| 0 <= a < |groups| && groups[a] == g;
      assert order[a] in order;
    }
  }

  /** What the archive lists under `key`. */
  function PackagesAt(groups: seq<Group>, key: Key): seq<string>
  {
    if groups == [] then []
    else if groups[0].key == key then groups[0].packages
    else PackagesAt(groups[1..], key)
  }

  lemma {:induction false} PackagesAtFound(groups: seq<Group>, key: Key)
    ensures (exists g :: g in groups && g.key == key && PackagesAt(groups, key) == g.packages)
         || (PackagesAt(groups, key) == [] && forall g | g in groups :: g.key != key)
  {
    if groups != [] {
      assert groups[0] in groups;
      if groups[0].key != key {
        PackagesAtFound(groups[1..], key);
        if g :| g in groups[1..] && g.key == key && PackagesAt(groups[1..], key) == g.packages {
          assert g in groups;
        }
      }
    }
  }

  lemma PackagesAtGrouping(groups: seq<Group>, rows: seq<Row>, key: Key)
    requires IsGrouping(groups, rows)
    ensures PackagesAt(groups, key) == TextsAt(rows, key)
  {
    PackagesAtFound(groups, key);
  }

  // ---------------------------------------------------------------------------
  // Round trip from .SRCINFO to the version 2 archive

  /** The entries of `table` for one kind and key, without their descriptions. */
  function Listed(table: seq<Variable>, kind: Kind, key: Key): seq<string>
  {
    if table == [] then []
    else (if table[0].kind == kind && table[0].key == key then Stripped(table[0].values) else [])
         + Listed(table[1..], kind, key)
  }

  function Stripped(values: seq<string>): seq<string>
  {
    if values == [] then []
    else Stripped(values[..|values| - 1]) + [StripDescription(values[|values| - 1])]
  }

  /** Entries are single lines of a .SRCINFO file. */
  ghost predicate SingleLines(table: seq<Variable>)
  {
    forall v, value | v in table && value in v.values :: '\n' !in value
  }

  lemma {:induction false} TextsOfValues(kind: Kind, key: Key, values: seq<string>, at: Key)
    requires forall value | value in values :: '\n' !in value
    ensures TextsAt(RowsOfValues(kind, key, values), at) == if at == key then Stripped(values) else []
  {
    if values != [] {
      var init, last := values[..|values| - 1], values[|values| - 1];
      TextsOfValues(kind, key, init, at);
      FilterMapSnoc(TextAt(at), RowsOfValues(kind, key, init), MakeRow(kind, key, last));
      TextOfEntry(kind, key, last);
    }
  }

  lemma {:induction false} TextsOfKind(table: seq<Variable>, kind: Kind, key: Key)
    requires SingleLines(table)
    ensures TextsAt(FlattenKind(table, kind), key) == Listed(table, kind, key)
  {
    if table != [] {
      var v := table[0];
      assert v in table;
      assert forall w | w in table[1..] :: w in table;
      TextsOfKind(table[1..], kind, key);
      FilterMapConcat(TextAt(key), RowsOf(v, kind), FlattenKind(table[1..], kind));
      TextsOfValues(kind, v.key, v.values, key);
    }
  }

  /** The archive lists, under every (distribution, architecture) pair, what the .SRCINFO
      lists there, counted with multiplicity. */
  ghost predicate RoundTrips(groups: seq<Group>, table: seq<Variable>, kind: Kind)
  {
    forall key :: multiset(PackagesAt(groups, key)) == multiset(Listed(table, kind, key))
  }

  /** Flatten, store, read back in any order, regroup: the result is the original table
      exactly when no name occurs twice among the entries of the kind. */
  lemma V2RoundTripIff(table: seq<Variable>, kind: Kind, loaded: seq<Row>, groups: seq<Group>)
    requires SingleLines(table)
    requires multiset(loaded) == multiset(OfKind(Flatten(table), kind))
    requires IsGrouping(groups, Entities(loaded))
    ensures RoundTrips(groups, table, kind) <==> NamesDistinct(FlattenKind(table, kind))
  {
    var stored, seen := FlattenKind(table, kind), Entities(loaded);
    OfKindFlatten(table, kind);
    NamesDistinctPermutation(loaded, stored);
    EntitiesCompleteIff(loaded);
    forall key
      ensures PackagesAt(groups, key) == TextsAt(seen, key)
      ensures multiset(TextsAt(loaded, key)) == multiset(Listed(table, kind, key))
    {
      PackagesAtGrouping(groups, seen, key);
      FilterMapPermutation(TextAt(key), loaded, stored);
      TextsOfKind(table, kind, key);
    }
    if RoundTrips(groups, table, kind) {
      forall key ensures multiset(TextsAt(seen, key)) == multiset(TextsAt(loaded, key)) {
        assert multiset(PackagesAt(groups, key)) == multiset(Listed(table, kind, key));
      }
      SameTextsSameLength(seen, loaded);
    }
  }

  /** A group appears exactly for the keys under which something is listed. */
  lemma V2KeysAreTheNonEmptyOnes(table: seq<Variable>, kind: Kind, groups: seq<Group>, rows: seq<Row>, key: Key)
    requires IsGrouping(groups, rows) && RoundTrips(groups, table, kind)
    ensures HasGroup(groups, key) <==> Listed(table, kind, key) != []
  {
    PackagesAtFound(groups, key);
    assert multiset(PackagesAt(groups, key)) == multiset(Listed(table, kind, key));
    assert |multiset(PackagesAt(groups, key))| == |multiset(Listed(table, kind, key))|;
    forall g | g in groups && g.key == key ensures Listed(table, kind, key) != [] {
      PackagesAtGrouping(groups, rows, key);
    }
  }

  // ---------------------------------------------------------------------------
  // Version 1

  /** The value under a kind's name in the version 1 archive; absent when there is none. */
  method ExportV1(loaded: seq<Row>) returns (r: Option<seq<string>>)
    ensures r == if PlainRows(loaded) == [] then None else Some(Texts(Entities(PlainRows(loaded))))
  {
    var values := Entities(PlainRows(loaded));
    EntitiesNonEmpty(PlainRows(loaded));
    if |values| != 0 {
      var listed: seq<string> := [];
      for i := 0 to |values|
        invariant listed == Texts(values[..i])
      {
        assert values[..i + 1] == values[..i] + [values[i]];
        FilterMapSnoc(AnyText(), values[..i], values[i]);
        listed := listed + [Text(values[i])];
      }
      assert values[..|values|] == values;
      r := Some(listed);
    } else {
      r := None;
    }
  }

  lemma {:induction false} EntitiesNonEmpty(rows: seq<Row>)
    ensures Entities(rows) == [] <==> rows == []
  {
    if rows != [] {
      EntitiesNonEmpty(rows[..|rows| - 1]);
    }
  }

  /** A plain row's name stands for its text alone: every row of that name is plain, too,
      and has the same text. */
  ghost predicate PlainNamesAlone(rows: seq<Row>)
  {
    forall r, other | r in rows && other in rows && r.key == PLAIN && other.name == r.name ::
      other.key == PLAIN && Text(other) == Text(r)
  }

  lemma {:induction false} EntitiesMembers(rows: seq<Row>)
    ensures forall r | r in Entities(rows) :: r in rows
  {
    if rows != [] {
      EntitiesMembers(rows[..|rows| - 1]);
    }
  }

  lemma {:induction false} NamedNothing(rows: seq<Row>, name: string)
    ensures Named(rows, name) == [] <==> forall r | r in rows :: r.name != name
  {
    if rows != [] {
      assert rows[0] in rows;
      assert forall r :: r in rows <==> r == rows[0] || r in rows[1..];
      NamedNothing(rows[1..], name);
    }
  }

  lemma {:induction false} PlainMembers(rows: seq<Row>)
    ensures forall r :: r in PlainRows(rows) <==> r in rows && r.key == PLAIN
  {
    if rows != [] {
      assert forall r :: r in rows <==> r == rows[0] || r in rows[1..];
      PlainMembers(rows[1..]);
    }
  }

  lemma AloneSnoc(init: seq<Row>, last: Row)
    requires PlainNamesAlone(init + [last])
    ensures PlainNamesAlone(init)
    ensures last.key == PLAIN ==> forall r | r in init && r.name == last.name :: r.key == PLAIN
  {
    assert last in init + [last] && forall r | r in init :: r in init + [last];
  }

  /** A plain row whose name was seen before was seen on a plain row. */
  lemma SeenOnPlain(init: seq<Row>, name: string)
    requires forall r | r in init && r.name == name :: r.key == PLAIN
    ensures Named(Entities(init), name) == [] <==> Named(Entities(PlainRows(init)), name) == []
  {
    EntitiesKeepNames(init, name);
    EntitiesKeepNames(PlainRows(init), name);
    NamedNothing(init, name);
    NamedNothing(PlainRows(init), name);
    PlainMembers(init);
  }

  lemma PlainSnoc(rows: seq<Row>, last: Row)
    ensures PlainRows(rows + [last]) == if last.key == PLAIN then PlainRows(rows) + [last] else PlainRows(rows)
  {
    FilterMapSnoc(IsPlain(), rows, last);
  }

  lemma PlainEntitiesStep(init: seq<Row>, last: Row)
    requires PlainRows(Entities(init)) == Entities(PlainRows(init))
    requires last.key == PLAIN ==>
               (Named(Entities(init), last.name) == [] <==> Named(Entities(PlainRows(init)), last.name) == [])
    ensures PlainRows(Entities(init + [last])) == Entities(PlainRows(init + [last]))
  {
    var seen := Entities(init);
    PlainSnoc(init, last);
    EntitiesSnoc(init, last);
    if Named(seen, last.name) == [] {
      PlainSnoc(seen, last);
    }
    if last.key == PLAIN {
      EntitiesSnoc(PlainRows(init), last);
    }
  }

  /** Selecting plain rows before or after reading them as objects is then the same. */
  lemma {:induction false} PlainEntitiesCommute(rows: seq<Row>)
    requires PlainNamesAlone(rows)
    ensures PlainRows(Entities(rows)) == Entities(PlainRows(rows))
  {
    if rows != [] {
      var init, last := rows[..|rows| - 1], rows[|rows| - 1];
      assert rows == init + [last];
      AloneSnoc(init, last);
      PlainEntitiesCommute(init);
      if last.key == PLAIN {
        SeenOnPlain(init, last.name);
      }
      PlainEntitiesStep(init, last);
    }
  }

  lemma EntitiesSnoc(rows: seq<Row>, last: Row)
    ensures Entities(rows + [last])
         == if Named(Entities(rows), last.name) == [] then Entities(rows) + [last] else Entities(rows)
  {
    assert (rows + [last])[..|rows|] == rows;
  }

  /** The name and text of every row. */
  function Pair(): Row -> Option<(string, string)> { (r: Row) => Some((r.name, Text(r))) }

  function Second(): ((string, string)) -> Option<string> { (e: (string, string)) => Some(e.1) }

  lemma {:induction false} PairCount(rows: seq<Row>, name: string, text: string)
    ensures multiset(FilterMap(Pair(), rows))[(name, text)] <= |Named(rows, name)|
    ensures (name, text) in FilterMap(Pair(), rows) <==> exists r :: r in rows && r.name == name && Text(r) == text
  {
    if rows != [] {
      var rest := rows[1..];
      PairCount(rest, name, text);
      assert forall r :: r in rows <==> r == rows[0] || r in rest;
      assert FilterMap(Pair(), rows) == [(rows[0].name, Text(rows[0]))] + FilterMap(Pair(), rest);
    }
  }

  lemma {:induction false} EntitiesDistinct(rows: seq<Row>)
    ensures NamesDistinct(Entities(rows))
  {
    if rows == [] {
      assert forall name :: Named([], name) == [];
    } else {
      var init, last := rows[..|rows| - 1], rows[|rows| - 1];
      EntitiesDistinct(init);
      forall name ensures |Named(Entities(rows), name)| <= 1 {
        assert |Named(Entities(init), name)| <= 1;
        FilterMapSnoc(WithName(name), Entities(init), last);
      }
    }
  }

  /** Each name has one text. */
  ghost predicate OneTextPerName(rows: seq<Row>)
  {
    forall r, other | r in rows && other in rows && r.name == other.name :: Text(r) == Text(other)
  }

  lemma EntityPairs(rows: seq<Row>, name: string, text: string)
    requires OneTextPerName(rows)
    ensures multiset(FilterMap(Pair(), Entities(rows)))[(name, text)]
         == if exists r :: r in rows && r.name == name && Text(r) == text then 1 else 0
  {
    EntitiesDistinct(rows);
    assert |Named(Entities(rows), name)| <= 1;
    PairCount(Entities(rows), name, text);
    EntitiesMembers(rows);
    EntitiesKeepNames(rows, name);
    NamedNothing(rows, name);
    NamedNothing(Entities(rows), name);
  }

  /** With one text per name, the order of reading does not show in the texts. */
  lemma EntityTextsPermutation(a: seq<Row>, b: seq<Row>)
    requires multiset(a) == multiset(b) && OneTextPerName(a)
    ensures multiset(Texts(Entities(a))) == multiset(Texts(Entities(b)))
  {
    SameMembers(a, b);
    var pa, pb := FilterMap(Pair(), Entities(a)), FilterMap(Pair(), Entities(b));
    forall e: (string, string) ensures multiset(pa)[e] == multiset(pb)[e] {
      EntityPairs(a, e.0, e.1);
      EntityPairs(b, e.0, e.1);
    }
    FilterMapPermutation(Second(), pa, pb);
    FilterMapCompose(Pair(), Second(), AnyText(), Entities(a));
    FilterMapCompose(Pair(), Second(), AnyText(), Entities(b));
  }

  lemma NamedCons(x: Row, rows: seq<Row>, name: string)
    ensures Named([x] + rows, name) == if x.name == name then [x] + Named(rows, name) else Named(rows, name)
  {
    assert ([x] + rows)[1..] == rows;
  }

  /** Reading one row more behind `x` and `before`. */
  lemma SeenSnoc(x: Row, before: seq<Row>, rows: seq<Row>, last: Row)
    requires Entities(rows) == [x] + before
    ensures Entities(rows + [last])
         == [x] + if x.name != last.name && Named(before, last.name) == [] then before + [last] else before
  {
    EntitiesSnoc(rows, last);
    NamedCons(x, before, last.name);
    assert ([x] + before) + [last] == [x] + (before + [last]);
  }

  /** What is seen of `rest` behind a row called `name`. */
  function SeenBehind(name: string, rest: seq<Row>): seq<Row>
  {
    if rest == [] then []
    else
      var seen, last := SeenBehind(name, rest[..|rest| - 1]), rest[|rest| - 1];
      if name != last.name && Named(seen, last.name) == [] then seen + [last] else seen
  }

  lemma SeenBehindSnoc(x: Row, rows: seq<Row>, init: seq<Row>, last: Row)
    requires Entities(rows) == [x] + SeenBehind(x.name, init)
    ensures Entities(rows + [last]) == [x] + SeenBehind(x.name, init + [last])
  {
    SeenSnoc(x, SeenBehind(x.name, init), rows, last);
    assert (init + [last])[..|init|] == init;
  }

  lemma {:induction false} SeenFirst(x: Row, rows: seq<Row>, behind: seq<Row>, rest: seq<Row>)
    requires Entities(rows) == [x] + SeenBehind(x.name, behind)
    ensures Entities(rows + rest) == [x] + SeenBehind(x.name, behind + rest)
    decreases |rest|
  {
    if rest == [] {
      assert rows + rest == rows && behind + rest == behind;
    } else {
      var next := [rest[0]];
      SeenBehindSnoc(x, rows, behind, rest[0]);
      SeenFirst(x, rows + next, behind + next, rest[1..]);
      assert next + rest[1..] == rest;
      Associative(rows, next, rest[1..]);
      Associative(behind, next, rest[1..]);
    }
  }

  lemma FirstOfTwo(x: Row, y: Row)
    requires x.name == y.name
    ensures Entities([x, y]) == [x]
  {
    assert [x, y][..1] == [x] && [x][..0] == [];
    assert Entities([x]) == [x];
  }

  /** Of two rows with the same name the first is seen, whatever follows. */
  lemma FirstIsSeen(x: Row, y: Row, rest: seq<Row>)
    requires x.name == y.name
    ensures Entities([x, y] + rest) == [x] + SeenBehind(x.name, rest)
  {
    FirstOfTwo(x, y);
    SeenFirst(x, [x, y], [], rest);
    assert [] + rest == rest;
  }

  /** Of two rows that clash, the text of the plain one is seen in one order only. */
  lemma OrderShows(x: Row, y: Row, rest: seq<Row>)
    requires x.key == PLAIN && x.name == y.name && (y.key != PLAIN || Text(y) != Text(x))
    ensures multiset(TextsAt(Entities([x, y] + rest), PLAIN)) != multiset(TextsAt(Entities([y, x] + rest), PLAIN))
  {
    FirstIsSeen(x, y, rest);
    FirstIsSeen(y, x, rest);
    var tail := SeenBehind(x.name, rest);
    var others := multiset(TextsAt(tail, PLAIN));
    assert TextsAt([x] + tail, PLAIN) == [Text(x)] + TextsAt(tail, PLAIN);
    if y.key == PLAIN {
      assert TextsAt([y] + tail, PLAIN) == [Text(y)] + TextsAt(tail, PLAIN);
      assert multiset([Text(x)] + TextsAt(tail, PLAIN))[Text(x)] == others[Text(x)] + 1;
      assert multiset([Text(y)] + TextsAt(tail, PLAIN))[Text(x)] == others[Text(x)];
    } else {
      assert TextsAt([y] + tail, PLAIN) == TextsAt(tail, PLAIN);
      assert multiset([Text(x)] + TextsAt(tail, PLAIN))[Text(x)] == others[Text(x)] + 1;
    }
  }

  lemma TwoInFront(rows: seq<Row>, x: Row, y: Row) returns (rest: seq<Row>)
    requires x in rows && y in rows && x != y
    ensures multiset([x, y] + rest) == multiset(rows) == multiset([y, x] + rest)
  {
    var less := TakeOut(rows, x);
    assert y in multiset(rows) && y in multiset(less);
    rest := TakeOut(less, y);
  }

  /** For rows read in the orders `forV1` and `forV2`, version 1 lists what version 2 lists
      in its group without distribution and architecture, and leaves out what it leaves out. */
  ghost predicate ArchivesAgree(forV1: seq<Row>, forV2: seq<Row>)
  {
    forall groups | IsGrouping(groups, Entities(forV2)) ::
      && multiset(Texts(Entities(PlainRows(forV1)))) == multiset(PackagesAt(groups, PLAIN))
      && (PlainRows(forV1) == [] <==> !HasGroup(groups, PLAIN))
  }

  lemma AbsentTogether(plain: seq<Row>, groups: seq<Group>, rows: seq<Row>)
    requires IsGrouping(groups, rows) && multiset(Texts(Entities(plain))) == multiset(PackagesAt(groups, PLAIN))
    ensures plain == [] <==> !HasGroup(groups, PLAIN)
  {
    EntitiesNonEmpty(plain);
    TextsLength(Entities(plain));
    PackagesAtFound(groups, PLAIN);
    assert |multiset(Texts(Entities(plain)))| == |multiset(PackagesAt(groups, PLAIN))|;
    PackagesAtGrouping(groups, rows, PLAIN);
  }

  lemma ArchivesAgreeIff(forV1: seq<Row>, forV2: seq<Row>)
    ensures ArchivesAgree(forV1, forV2) <==>
              multiset(Texts(Entities(PlainRows(forV1)))) == multiset(TextsAt(Entities(forV2), PLAIN))
  {
    var listed, seen := multiset(Texts(Entities(PlainRows(forV1)))), Entities(forV2);
    forall groups | IsGrouping(groups, seen)
      ensures PackagesAt(groups, PLAIN) == TextsAt(seen, PLAIN)
      ensures listed == multiset(TextsAt(seen, PLAIN)) ==> (PlainRows(forV1) == [] <==> !HasGroup(groups, PLAIN))
    {
      PackagesAtGrouping(groups, seen, PLAIN);
      if listed == multiset(TextsAt(seen, PLAIN)) {
        AbsentTogether(PlainRows(forV1), groups, seen);
      }
    }
    var some := GroupingExists(seen);
  }

  lemma {:induction false} GroupsOf(rows: seq<Row>, keys: set<Key>) returns (groups: seq<Group>)
    requires forall key | key in keys :: TextsAt(rows, key) != []
    ensures forall i, j | 0 <= i < j < |groups| :: groups[i].key != groups[j].key
    ensures forall g | g in groups :: g.key in keys && g.packages == TextsAt(rows, g.key)
    ensures forall key | key in keys :: HasGroup(groups, key)
  {
    if keys == {} {
      groups := [];
    } else {
      var key :| key in keys;
      var rest := GroupsOf(rows, keys - {key});
      var first := Group(key, TextsAt(rows, key));
      groups := [first] + rest;
      assert forall g :: g in groups <==> g == first || g in rest;
      forall k | k in keys ensures HasGroup(groups, k) {
        if k == key {
          assert first in groups;
        } else {
          assert HasGroup(rest, k);
          var g :| g in rest && g.key == k;
          assert g in groups;
        }
      }
      assert forall k | 0 < k < |groups| :: groups[k] == rest[k - 1] && rest[k - 1] in rest;
    }
  }

  lemma {:induction false} TextsAtKeys(rows: seq<Row>, key: Key)
    ensures TextsAt(rows, key) != [] <==> exists r :: r in rows && r.key == key
  {
    if rows != [] {
      TextsAtKeys(rows[1..], key);
      assert forall r :: r in rows <==> r == rows[0] || r in rows[1..];
    }
  }

  lemma GroupingExists(rows: seq<Row>) returns (groups: seq<Group>)
    ensures IsGrouping(groups, rows)
  {
    var keys := set r | r in rows :: r.key;
    forall key ensures TextsAt(rows, key) != [] <==> key in keys {
      TextsAtKeys(rows, key);
    }
    groups := GroupsOf(rows, keys);
  }

  /** The two archives list the same, in whatever orders they read the rows, exactly when
      plain rows share their names with rows of the same text and no others. */
  lemma V1MatchesV2Iff(rows: seq<Row>)
    ensures (forall forV1, forV2 | multiset(forV1) == multiset(rows) == multiset(forV2) :: ArchivesAgree(forV1, forV2))
       <==> PlainNamesAlone(rows)
  {
    forall forV1, forV2 | PlainNamesAlone(rows) && multiset(forV1) == multiset(rows) == multiset(forV2)
      ensures ArchivesAgree(forV1, forV2)
    {
      AloneArchivesAgree(rows, forV1, forV2);
    }
    if !PlainNamesAlone(rows) {
      var x, y :| x in rows && y in rows && x.key == PLAIN && y.name == x.name
               && (y.key != PLAIN || Text(y) != Text(x));
      var forV2 := ClashShows(rows, x, y);
    }
  }

  lemma SameMembers<A>(a: seq<A>, b: seq<A>)
    requires multiset(a) == multiset(b)
    ensures forall x :: x in a <==> x in b
  {
    assert forall x :: x in a <==> x in multiset(a);
    assert forall x :: x in b <==> x in multiset(b);
  }

  lemma AlonePermutation(a: seq<Row>, b: seq<Row>)
    requires multiset(a) == multiset(b) && PlainNamesAlone(a)
    ensures PlainNamesAlone(b)
  {
    SameMembers(a, b);
  }

  lemma AlonePlainTexts(rows: seq<Row>)
    requires PlainNamesAlone(rows)
    ensures OneTextPerName(PlainRows(rows))
  {
    PlainMembers(rows);
  }

  lemma AloneArchivesAgree(rows: seq<Row>, forV1: seq<Row>, forV2: seq<Row>)
    requires PlainNamesAlone(rows) && multiset(forV1) == multiset(rows) == multiset(forV2)
    ensures ArchivesAgree(forV1, forV2)
  {
    AlonePermutation(rows, forV1);
    AlonePermutation(rows, forV2);
    AlonePlainTexts(forV1);
    FilterMapPermutation(IsPlain(), forV1, forV2);
    EntityTextsPermutation(PlainRows(forV1), PlainRows(forV2));
    PlainEntitiesCommute(forV2);
    PlainTexts(Entities(forV2));
    ArchivesAgreeIff(forV1, forV2);
  }

  lemma SameListSameTexts(forV1: seq<Row>, a: seq<Row>, b: seq<Row>)
    requires ArchivesAgree(forV1, a) && ArchivesAgree(forV1, b)
    ensures multiset(TextsAt(Entities(a), PLAIN)) == multiset(TextsAt(Entities(b), PLAIN))
  {
    ArchivesAgreeIff(forV1, a);
    ArchivesAgreeIff(forV1, b);
  }

  lemma ClashShows(rows: seq<Row>, x: Row, y: Row) returns (forV2: seq<Row>)
    requires x in rows && y in rows && x.key == PLAIN && y.name == x.name && (y.key != PLAIN || Text(y) != Text(x))
    ensures multiset(forV2) == multiset(rows) && !ArchivesAgree(rows, forV2)
  {
    var rest := TwoInFront(rows, x, y);
    OrderShows(x, y, rest);
    var one, other := [x, y] + rest, [y, x] + rest;
    if ArchivesAgree(rows, one) && ArchivesAgree(rows, other) {
      SameListSameTexts(rows, one, other);
    }
    forV2 := if ArchivesAgree(rows, one) then other else one;
  }

  lemma {:induction false} TextsLength(rows: seq<Row>)
    ensures |Texts(rows)| == |rows|
  {
    if rows != [] {
      TextsLength(rows[1..]);
    }
  }

  // ---------------------------------------------------------------------------
  // The RPC's multi-info request

  datatype Field = Of(kind: Kind) | License | Keywords

  /** A record of the unioned query. */
  datatype Record = Record(id: nat, field: Field, name: string, condition: Option<string>)

  function RecordText(r: Record): string
  {
    if r.condition.Some? && r.condition.value != "" then r.name + r.condition.value else r.name
  }

  function RecordAt(id: nat, field: Field): Record -> Option<string>
  {
    (r: Record) => if r.id == id && r.field == field then Some(RecordText(r)) else None
  }

  type ExtraInfo = map<nat, map<Field, seq<string>>>

  /** A lookup in the nested default dictionaries. */
  function InfoAt(info: ExtraInfo, id: nat, field: Field): seq<string>
  {
    if id in info && field in info[id] then info[id][field] else []
  }

  /** The collecting loop of _handle_multiinfo_type. */
  method CollectExtraInfo(records: seq<Record>) returns (info: ExtraInfo)
    ensures forall id, field :: InfoAt(info, id, field) == FilterMap(RecordAt(id, field), records)
  {
    info := map[];
    for i := 0 to |records|
      invariant forall id, field :: InfoAt(info, id, field) == FilterMap(RecordAt(id, field), records[..i])
    {
      var r := records[i];
      assert records[..i + 1] == records[..i] + [r];
      var fields := if r.id in info then info[r.id] else map[];
      var sofar := if r.field in fields then fields[r.field] else [];
      var next := info[r.id := fields[r.field := sofar + [RecordText(r)]]];
      forall id, field ensures InfoAt(next, id, field) == FilterMap(RecordAt(id, field), records[..i + 1]) {
        FilterMapSnoc(RecordAt(id, field), records[..i], r);
        assert InfoAt(info, id, field) == FilterMap(RecordAt(id, field), records[..i]);
      }
      info := next;
    }
    assert records[..|records|] == records;
  }

  /** A stored row as the query selects it for package `id`.  Version 5 leaves out
      dependencies tied to a distribution or architecture; relations are not filtered. */
  function Selected(version: int, id: nat): Row -> Option<Record>
  {
    (r: Row) => if version == 5 && IsDependency(r.kind) && r.key != PLAIN then None
                else Some(Record(id, Of(r.kind), r.name, r.condition))
  }

  /** All dependency and relation records of the packages asked for. */
  function SelectAll(version: int, packages: seq<(nat, seq<Row>)>): seq<Record>
  {
    if packages == [] then []
    else FilterMap(Selected(version, packages[0].0), packages[0].1) + SelectAll(version, packages[1..])
  }

  /** The text of a row of `kind`; for version 5 and dependencies, of plain rows only. */
  function SelectedText(version: int, kind: Kind): Row -> Option<string>
  {
    (r: Row) =>
      if r.kind == kind && !(version == 5 && IsDependency(kind) && r.key != PLAIN) then Some(Text(r)) else None
  }

  function Nothing<A, B>(): A -> Option<B> { (a: A) => None }

  lemma {:induction false} NothingSelected<A, B>(s: seq<A>)
    ensures FilterMap<A, B>(Nothing(), s) == []
  {
    if s != [] {
      NothingSelected<A, B>(s[1..]);
    }
  }

  lemma SelectedElsewhere(version: int, own: nat, rows: seq<Row>, id: nat, field: Field)
    requires own != id
    ensures FilterMap(RecordAt(id, field), FilterMap(Selected(version, own), rows)) == []
  {
    FilterMapCompose(Selected(version, own), RecordAt(id, field), Nothing(), rows);
    NothingSelected<Row, string>(rows);
  }

  /** The texts of `kind` out of one package's records. */
  lemma SelectedKind(version: int, id: nat, rows: seq<Row>, kind: Kind)
    ensures FilterMap(RecordAt(id, Of(kind)), FilterMap(Selected(version, id), rows))
         == FilterMap(SelectedText(version, kind), rows)
  {
    FilterMapCompose(Selected(version, id), RecordAt(id, Of(kind)), SelectedText(version, kind), rows);
  }

  lemma SelectedTexts(version: int, id: nat, rows: seq<Row>, kind: Kind)
    ensures FilterMap(RecordAt(id, Of(kind)), FilterMap(Selected(version, id), rows))
         == if version == 5 && IsDependency(kind) then TextsAt(OfKind(rows, kind), PLAIN) else Texts(OfKind(rows, kind))
  {
    SelectedKind(version, id, rows, kind);
    if version == 5 && IsDependency(kind) {
      FilterMapCompose(HasKind(kind), TextAt(PLAIN), SelectedText(version, kind), rows);
    } else {
      FilterMapCompose(HasKind(kind), AnyText(), SelectedText(version, kind), rows);
    }
  }

  lemma {:induction false} SelectAllTexts(version: int, packages: seq<(nat, seq<Row>)>, p: nat, kind: Kind)
    requires p < |packages|
    requires forall i, j | 0 <= i < j < |packages| :: packages[i].0 != packages[j].0
    ensures FilterMap(RecordAt(packages[p].0, Of(kind)), SelectAll(version, packages))
         == FilterMap(RecordAt(packages[p].0, Of(kind)), FilterMap(Selected(version, packages[p].0), packages[p].1))
  {
    var id, field := packages[p].0, Of(kind);
    var head := FilterMap(Selected(version, packages[0].0), packages[0].1);
    FilterMapConcat(RecordAt(id, field), head, SelectAll(version, packages[1..]));
    if p == 0 {
      SelectAllElsewhere(version, packages[1..], id, field);
    } else {
      SelectAllTexts(version, packages[1..], p - 1, kind);
      SelectedElsewhere(version, packages[0].0, packages[0].1, id, field);
    }
  }

  lemma {:induction false} SelectAllElsewhere(version: int, packages: seq<(nat, seq<Row>)>, id: nat, field: Field)
    requires forall p | p in packages :: p.0 != id
    ensures FilterMap(RecordAt(id, field), SelectAll(version, packages)) == []
  {
    if packages != [] {
      SelectAllElsewhere(version, packages[1..], id, field);
      SelectedElsewhere(version, packages[0].0, packages[0].1, id, field);
      var head := FilterMap(Selected(version, packages[0].0), packages[0].1);
      FilterMapConcat(RecordAt(id, field), head, SelectAll(version, packages[1..]));
    }
  }

  /** What the RPC lists for a package and kind: the texts of its rows, and of its plain rows
      only where version 5 filters. */
  lemma RpcLists(version: int, packages: seq<(nat, seq<Row>)>, p: nat, kind: Kind, records: seq<Record>)
    requires p < |packages|
    requires forall i, j | 0 <= i < j < |packages| :: packages[i].0 != packages[j].0
    requires multiset(records) == multiset(SelectAll(version, packages))
    ensures var rows := OfKind(packages[p].1, kind);
            multiset(FilterMap(RecordAt(packages[p].0, Of(kind)), records))
              == multiset(Texts(if version == 5 && IsDependency(kind) then PlainRows(rows) else rows))
  {
    FilterMapPermutation(RecordAt(packages[p].0, Of(kind)), records, SelectAll(version, packages));
    SelectAllTexts(version, packages, p, kind);
    SelectedTexts(version, packages[p].0, packages[p].1, kind);
    PlainTexts(OfKind(packages[p].1, kind));
  }

  lemma {:induction false} PlainLength(rows: seq<Row>)
    ensures |PlainRows(rows)| <= |rows|
    ensures |PlainRows(rows)| == |rows| ==> PlainRows(rows) == rows
  {
    if rows != [] {
      PlainLength(rows[1..]);
    }
  }

  /** The RPC and the version 1 archive list the same for a package and kind, whatever else
      was asked for and in whatever order, exactly when no name occurs twice among the plain
      rows and, unless version 5 filters the others out, all rows are plain. */
  lemma RpcMatchesV1Iff(version: int, packages: seq<(nat, seq<Row>)>, p: nat, kind: Kind,
                        records: seq<Record>, forV1: seq<Row>)
    requires p < |packages|
    requires forall i, j | 0 <= i < j < |packages| :: packages[i].0 != packages[j].0
    requires multiset(records) == multiset(SelectAll(version, packages))
    requires multiset(forV1) == multiset(OfKind(packages[p].1, kind))
    ensures (multiset(FilterMap(RecordAt(packages[p].0, Of(kind)), records))
              == multiset(Texts(Entities(PlainRows(forV1)))))
       <==> (var rows := OfKind(packages[p].1, kind);
             && NamesDistinct(PlainRows(rows))
             && ((version == 5 && kind in {Depends, MakeDepends, CheckDepends, OptDepends}) || PlainRows(rows) == rows))
  {
    var rows := OfKind(packages[p].1, kind);
    RpcLists(version, packages, p, kind, records);
    SameListIff(rows, forV1, version == 5 && IsDependency(kind));
  }

  lemma SameListIff(rows: seq<Row>, forV1: seq<Row>, filtered: bool)
    requires multiset(forV1) == multiset(rows)
    ensures multiset(Texts(if filtered then PlainRows(rows) else rows)) == multiset(Texts(Entities(PlainRows(forV1))))
       <==> NamesDistinct(PlainRows(rows)) && (filtered || PlainRows(rows) == rows)
  {
    var plain, read := PlainRows(rows), PlainRows(forV1);
    var listed := if filtered then plain else rows;
    FilterMapPermutation(IsPlain(), forV1, rows);
    assert |multiset(read)| == |multiset(plain)|;
    NamesDistinctPermutation(read, plain);
    EntitiesCompleteIff(read);
    EntitiesKeepNames(read, "");
    PlainLength(rows);
    TextsLength(listed);
    TextsLength(Entities(read));
    FilterMapPermutation(AnyText(), read, plain);
    if multiset(Texts(listed)) == multiset(Texts(Entities(read))) {
      assert |multiset(Texts(listed))| == |multiset(Texts(Entities(read)))|;
    }
  }
}
