/** How dependency and relation lists of a .SRCINFO become table rows. */
module Metadata {
  import opened Wrappers
  import opened Sequences

  datatype Kind = Depends | MakeDepends | CheckDepends | OptDepends | Conflicts | Provides | Replaces

  const KINDS: seq<Kind> := [Depends, MakeDepends, CheckDepends, OptDepends, Conflicts, Provides, Replaces]

  predicate IsDependency(kind: Kind) {
    kind.Depends? || kind.MakeDepends? || kind.CheckDepends? || kind.OptDepends?
  }

  /** The distribution and the architecture a variable is restricted to, if any. */
  datatype Key = Key(distro: Option<string>, arch: Option<string>)

  const PLAIN := Key(None, None)

  /** One extended variable, e.g. `focal_depends_x86_64`, with its entries. */
  datatype Variable = Variable(kind: Kind, key: Key, values: seq<string>)

  datatype Row = Row(kind: Kind, name: string, desc: string, condition: Option<string>, key: Key)

  predicate IsComparison(c: char) { c == '<' || c == '=' || c == '>' }

  /** The text before the first ": ", i.e. an entry without its description. */
  function StripDescription(s: string): string
  {
    if |s| < 2 then s
    else if s[0] == ':' && s[1] == ' ' then ""
    else [s[0]] + StripDescription(s[1..])
  }

  function Description(s: string): string
  {
    if |s| < 2 then ""
    else if s[0] == ':' && s[1] == ' ' then s[2..]
    else Description(s[1..])
  }

  /** What is left of `s` from its first newline on. */
  function SkipLine(s: string): (r: string)
    ensures |r| <= |s|
    ensures r != "" ==> r[0] == '\n'
    ensures r == "" <==> '\n' !in s
  {
    if s == "" || s[0] == '\n' then s else SkipLine(s[1..])
  }

  /** Deletes every comparison operator together with the rest of its line. */
  function DropConditions(s: string): (r: string)
    ensures |r| <= |s|
    decreases |s|
  {
    if s == "" then ""
    else if IsComparison(s[0]) then DropConditions(SkipLine(s[1..]))
    else [s[0]] + DropConditions(s[1..])
  }

  datatype Dep = Dep(name: string, desc: string, condition: string)

  function ParseDep(s: string): Dep
  {
    var dep := StripDescription(s);
    var name := DropConditions(dep);
    Dep(name, Description(s), dep[|name|..])
  }

  ghost predicate NewlineAfterComparison(s: string)
  {
    exists i, j :: 0 <= i < j < |s| && IsComparison(s[i]) && s[j] == '\n'
  }

  lemma {:induction false} DropConditionsIsPrefixIff(s: string)
    ensures DropConditions(s) == s[..|DropConditions(s)|] <==> !NewlineAfterComparison(s)
  {
    if s == "" {
    } else if IsComparison(s[0]) {
      var rest := SkipLine(s[1..]);
      if rest != "" {
        assert DropConditions(rest) == [rest[0]] + DropConditions(rest[1..]);
        assert DropConditions(s) == DropConditions(rest);
        var j :| 0 <= j < |s[1..]| && s[1..][j] == '\n';
        assert s[j + 1] == '\n';
      } else {
        forall j | 0 < j < |s| ensures s[j] != '\n' {
          assert s[j] == s[1..][j - 1];
        }
      }
    } else {
      var t := s[1..];
      DropConditionsIsPrefixIff(t);
      var n := |DropConditions(t)|;
      assert s[..n + 1] == [s[0]] + t[..n];
      assert DropConditions(s) == s[..n + 1] <==> DropConditions(t) == t[..n] by {
        if DropConditions(s) == s[..n + 1] {
          assert DropConditions(t) == DropConditions(s)[1..];
          assert t[..n] == s[..n + 1][1..];
        }
      }
      if NewlineAfterComparison(t) {
        var i, j :| 0 <= i < j < |t| && IsComparison(t[i]) && t[j] == '\n';
        assert IsComparison(s[i + 1]) && s[j + 1] == '\n';
      }
      if NewlineAfterComparison(s) {
        var i, j :| 0 <= i < j < |s| && IsComparison(s[i]) && s[j] == '\n';
        assert IsComparison(t[i - 1]) && t[j - 1] == '\n';
      }
    }
  }

  /** Name and condition put back together give the entry without its description,
      unless a newline follows a comparison operator; one line never has that. */
  lemma ParseDepRoundTripIff(s: string)
    ensures var d := ParseDep(s);
            d.name + d.condition == StripDescription(s) <==> !NewlineAfterComparison(StripDescription(s))
  {
    var dep, d := StripDescription(s), ParseDep(s);
    DropConditionsIsPrefixIff(dep);
    assert dep == dep[..|d.name|] + dep[|d.name|..];
    if d.name + d.condition == dep {
      assert (d.name + d.condition)[..|d.name|] == d.name;
    }
  }

  lemma {:induction false} StripDescriptionKeepsLine(s: string)
    requires '\n' !in s
    ensures '\n' !in StripDescription(s)
  {
    if |s| >= 2 && !(s[0] == ':' && s[1] == ' ') {
      StripDescriptionKeepsLine(s[1..]);
    }
  }

  /** ": " stands at position `i`. */
  predicate SeparatorAt(s: string, i: nat) { i + 1 < |s| && s[i] == ':' && s[i + 1] == ' ' }

  /** `s` is `before`, the first ": " in it, and `after`. */
  ghost predicate IsPartition(s: string, before: string, after: string)
  {
    s == before + ": " + after && forall i: nat | i < |before| :: !SeparatorAt(s, i)
  }

  /** The name ends where the first comparison operator stands. */
  ghost predicate EndsAtOperator(d: Dep)
  {
    && (forall c | c in d.name :: c != '<' && c != '=' && c != '>')
    && (d.condition == "" || d.condition[0] == '<' || d.condition[0] == '=' || d.condition[0] == '>')
  }

  lemma {:induction false} PartitionIsStripped(s: string, before: string, after: string)
    requires IsPartition(s, before, after)
    ensures StripDescription(s) == before && Description(s) == after
  {
    if before == "" {
      assert SeparatorAt(s, 0) && s[2..] == after;
    } else {
      var rest := s[1..];
      assert s[0] == before[0] && rest == before[1..] + ": " + after && !SeparatorAt(s, 0);
      forall i: nat | i < |before[1..]| ensures !SeparatorAt(rest, i) {
        assert !SeparatorAt(s, i + 1);
      }
      PartitionIsStripped(rest, before[1..], after);
    }
  }

  lemma {:induction false} UnpartitionedIsKept(s: string)
    requires forall i: nat | i < |s| :: !SeparatorAt(s, i)
    ensures StripDescription(s) == s && Description(s) == ""
  {
    if |s| >= 2 {
      assert !SeparatorAt(s, 0);
      forall i: nat | i < |s[1..]| ensures !SeparatorAt(s[1..], i) {
        assert !SeparatorAt(s, i + 1);
      }
      UnpartitionedIsKept(s[1..]);
    }
  }

  lemma {:induction false} NameEndsAtOperator(line: string)
    requires '\n' !in line
    ensures var name := DropConditions(line);
            && name <= line && (forall c | c in name :: !IsComparison(c))
            && (name != line ==> IsComparison(line[|name|]))
  {
    if line != "" && !IsComparison(line[0]) {
      NameEndsAtOperator(line[1..]);
    }
  }

  /** parse_dep on a one-line entry with a description: what stands before the first ": "
      is split at its first comparison operator, what stands behind it is the description. */
  lemma ParseDepWithDescription(s: string, before: string, after: string)
    requires IsPartition(s, before, after) && '\n' !in before
    ensures var d := ParseDep(s);
            d.name + d.condition == before && d.desc == after && EndsAtOperator(d)
  {
    PartitionIsStripped(s, before, after);
    NameEndsAtOperator(before);
  }

  /** And on one without. */
  lemma ParseDepWithoutDescription(s: string)
    requires '\n' !in s && forall i: nat | i < |s| :: !SeparatorAt(s, i)
    ensures var d := ParseDep(s);
            d.name + d.condition == s && d.desc == "" && EndsAtOperator(d)
  {
    UnpartitionedIsKept(s);
    NameEndsAtOperator(s);
  }

  /** A row, as save_metadata writes it for one entry. */
  function MakeRow(kind: Kind, key: Key, entry: string): Row
  {
    var d := ParseDep(entry);
    Row(kind, d.name, d.desc, if d.condition == "" then None else Some(d.condition), key)
  }

  /** What every export prints for a row. */
  function Text(r: Row): string
  {
    if r.condition.Some? && r.condition.value != "" then r.name + r.condition.value else r.name
  }

  lemma TextOfEntry(kind: Kind, key: Key, entry: string)
    requires '\n' !in entry
    ensures Text(MakeRow(kind, key, entry)) == StripDescription(entry)
  {
    StripDescriptionKeepsLine(entry);
    ParseDepRoundTripIff(entry);
  }

  /** The rows of one variable, entry by entry. */
  function RowsOfValues(kind: Kind, key: Key, values: seq<string>): seq<Row>
  {
    if values == [] then []
    else RowsOfValues(kind, key, values[..|values| - 1]) + [MakeRow(kind, key, values[|values| - 1])]
  }

  function RowsOf(v: Variable, kind: Kind): seq<Row>
  {
    if v.kind == kind then RowsOfValues(kind, v.key, v.values) else []
  }

  /** Rows written for one kind, variable by variable. */
  function FlattenKind(table: seq<Variable>, kind: Kind): seq<Row>
  {
    if table == [] then [] else RowsOf(table[0], kind) + FlattenKind(table[1..], kind)
  }

  function FlattenKinds(table: seq<Variable>, kinds: seq<Kind>): seq<Row>
  {
    if kinds == [] then [] else FlattenKind(table, kinds[0]) + FlattenKinds(table, kinds[1..])
  }

  /** All rows of one package. */
  function Flatten(table: seq<Variable>): seq<Row>
  {
    FlattenKinds(table, KINDS)
  }

  lemma {:induction false} FlattenKindSnoc(table: seq<Variable>, v: Variable, kind: Kind)
    ensures FlattenKind(table + [v], kind) == FlattenKind(table, kind) + RowsOf(v, kind)
  {
    if table == [] {
      assert table + [v] == [v];
      assert [v][1..] == [];
    } else {
      FlattenKindSnoc(table[1..], v, kind);
      assert (table + [v])[1..] == table[1..] + [v];
      Associative(RowsOf(table[0], kind), FlattenKind(table[1..], kind), RowsOf(v, kind));
    }
  }

  lemma {:induction false} FlattenKindsSnoc(table: seq<Variable>, kinds: seq<Kind>, kind: Kind)
    ensures FlattenKinds(table, kinds + [kind]) == FlattenKinds(table, kinds) + FlattenKind(table, kind)
  {
    if kinds == [] {
      assert kinds + [kind] == [kind];
      assert FlattenKinds(table, [kind]) == FlattenKind(table, kind) + FlattenKinds(table, [kind][1..]);
    } else {
      FlattenKindsSnoc(table, kinds[1..], kind);
      assert (kinds + [kind])[1..] == kinds[1..] + [kind];
    }
  }

  /** The innermost loop of save_metadata: one row for each entry of a variable. */
  method SaveVariable(v: Variable) returns (rows: seq<Row>)
    ensures rows == RowsOf(v, v.kind)
  {
    rows := [];
    for i := 0 to |v.values|
      invariant rows == RowsOfValues(v.kind, v.key, v.values[..i])
    {
      rows := rows + [MakeRow(v.kind, v.key, v.values[i])];
      assert v.values[..i + 1][..i] == v.values[..i];
    }
    assert v.values[..|v.values|] == v.values;
  }

  /** The loop over the (distribution, architecture) pairs of one kind. */
  method SaveKind(table: seq<Variable>, kind: Kind) returns (rows: seq<Row>)
    ensures rows == FlattenKind(table, kind)
  {
    rows := [];
    for v := 0 to |table|
      invariant rows == FlattenKind(table[..v], kind)
    {
      assert table[..v + 1] == table[..v] + [table[v]];
      FlattenKindSnoc(table[..v], table[v], kind);
      if table[v].kind == kind {
        var written := SaveVariable(table[v]);
        rows := rows + written;
      } else {
        assert rows + RowsOf(table[v], kind) == rows;
      }
    }
    assert table[..|table|] == table;
  }

  /** The outer loops: dependency kinds first, then relation kinds. */
  method SaveRows(table: seq<Variable>) returns (rows: seq<Row>)
    ensures rows == Flatten(table)
  {
    rows := [];
    for k := 0 to |KINDS|
      invariant rows == FlattenKinds(table, KINDS[..k])
    {
      var written := SaveKind(table, KINDS[k]);
      rows := rows + written;
      FlattenKindsSnoc(table, KINDS[..k], KINDS[k]);
      assert KINDS[..k + 1] == KINDS[..k] + [KINDS[k]];
    }
    assert KINDS[..|KINDS|] == KINDS;
  }

  /** The filter of a query for one kind. */
  function HasKind(kind: Kind): Row -> Option<Row> { (r: Row) => if r.kind == kind then Some(r) else None }

  /** The rows a query for one kind returns. */
  function OfKind(rows: seq<Row>, kind: Kind): seq<Row> { FilterMap(HasKind(kind), rows) }

  lemma {:induction false} OfKindUniform(rows: seq<Row>, own: Kind, kind: Kind)
    requires forall r | r in rows :: r.kind == own
    ensures OfKind(rows, kind) == if own == kind then rows else []
  {
    if rows != [] {
      OfKindUniform(rows[1..], own, kind);
    }
  }

  lemma {:induction false} RowsOfValuesUniform(kind: Kind, key: Key, values: seq<string>)
    ensures forall r | r in RowsOfValues(kind, key, values) :: r.kind == kind && r.key == key
  {
    if values != [] {
      RowsOfValuesUniform(kind, key, values[..|values| - 1]);
    }
  }

  lemma {:induction false} FlattenKindUniform(table: seq<Variable>, kind: Kind)
    ensures forall r | r in FlattenKind(table, kind) :: r.kind == kind
  {
    if table != [] {
      FlattenKindUniform(table[1..], kind);
      RowsOfValuesUniform(kind, table[0].key, table[0].values);
    }
  }

  lemma {:induction false} OfKindFlattenKinds(table: seq<Variable>, kinds: seq<Kind>, kind: Kind)
    requires forall i, j | 0 <= i < j < |kinds| :: kinds[i] != kinds[j]
    ensures OfKind(FlattenKinds(table, kinds), kind) == if kind in kinds then FlattenKind(table, kind) else []
  {
    if kinds != [] {
      OfKindFlattenKinds(table, kinds[1..], kind);
      FilterMapConcat(HasKind(kind), FlattenKind(table, kinds[0]), FlattenKinds(table, kinds[1..]));
      FlattenKindUniform(table, kinds[0]);
      OfKindUniform(FlattenKind(table, kinds[0]), kinds[0], kind);
    }
  }

  /** Selecting one kind back out of the stored rows gives that kind's entries alone. */
  lemma OfKindFlatten(table: seq<Variable>, kind: Kind)
    ensures OfKind(Flatten(table), kind) == FlattenKind(table, kind)
  {
    KindsAreDistinct(kind);
    OfKindFlattenKinds(table, KINDS, kind);
  }

  lemma {:induction false} OneVariableRows(v: Variable, kinds: seq<Kind>)
    requires forall i, j | 0 <= i < j < |kinds| :: kinds[i] != kinds[j]
    ensures FlattenKinds([v], kinds) == if v.kind in kinds then RowsOfValues(v.kind, v.key, v.values) else []
  {
    if kinds != [] {
      OneVariableRows(v, kinds[1..]);
      assert [v][1..] == [];
      assert FlattenKind([v], kinds[0]) == RowsOf(v, kinds[0]) + FlattenKind([], kinds[0]);
    }
  }

  lemma KindsAreDistinct(kind: Kind)
    ensures kind in KINDS && forall i, j | 0 <= i < j < |KINDS| :: KINDS[i] != KINDS[j]
  {
    assert KINDS[0] == Depends && KINDS[1] == MakeDepends && KINDS[2] == CheckDepends && KINDS[3] == OptDepends;
    assert KINDS[4] == Conflicts && KINDS[5] == Provides && KINDS[6] == Replaces;
  }

  lemma OneEntryRow(kind: Kind, key: Key, entry: string)
    ensures Flatten([Variable(kind, key, [entry])]) == [MakeRow(kind, key, entry)]
  {
    KindsAreDistinct(kind);
    OneVariableRows(Variable(kind, key, [entry]), KINDS);
    OneValueRow(kind, key, entry);
  }

  lemma OneValueRow(kind: Kind, key: Key, entry: string)
    ensures RowsOfValues(kind, key, [entry]) == [MakeRow(kind, key, entry)]
  {
    assert [entry][..0] == [];
  }

  /** What is stored for an entry `before: after`: one row of its kind and key, with the
      description apart and the name cut at the first comparison operator. */
  lemma EntryIsStored(kind: Kind, key: Key, entry: string, before: string, after: string)
    requires IsPartition(entry, before, after) && '\n' !in before
    ensures var rows := Flatten([Variable(kind, key, [entry])]);
            && |rows| == 1 && rows[0].kind == kind && rows[0].key == key && rows[0].desc == after
            && EndsAtOperator(Dep(rows[0].name, after, ConditionOf(rows[0])))
            && rows[0].name + ConditionOf(rows[0]) == before && rows[0].condition != Some("")
  {
    OneEntryRow(kind, key, entry);
    ParseDepWithDescription(entry, before, after);
  }

  function ConditionOf(r: Row): string
  {
    match r.condition case Some(c) => c case None => ""
  }
}
