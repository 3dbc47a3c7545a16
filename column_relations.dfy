/**
 * Column-pair relation annotation as `process_cpa` in main.py does it: per
 * table, a map from (row, column) to entity identifier; for each pair of
 * annotated columns c1 < c2, the relation between the entities on every
 * row where both columns hold one; the pair's relation is the majority.
 */
module ColumnRelations {
  import opened Wrappers
  import opened Text
  import opened Majority
  import opened Batch
  import opened Annotations
  import opened Wikidata

  /** The tables `groupby("TableID")` forms. */
  function TableIds(cea: seq<CeaRow>): set<string>
  {
    set r | r in cea :: r.table
  }

  /** The `entity_map` of a table: (row, column) to the last path segment of
      the entity, filled in row order so that later rows overwrite earlier
      ones. */
  function EntityMap(cea: seq<CeaRow>, table: string): map<(nat, nat), string>
  {
    if cea == [] then map[]
    else
      var m := EntityMap(cea[..|cea| - 1], table);
      var r := cea[|cea| - 1];
      if r.table == table then m[(r.row, r.col) := LastSegment(r.entity)] else m
  }

  /** A cell is in the map exactly when some row of the table annotates it. */
  lemma {:induction false} EntityMapKeys(cea: seq<CeaRow>, table: string, row: nat, col: nat)
    ensures (row, col) in EntityMap(cea, table)
            <==> exists i :: 0 <= i < |cea| && cea[i].table == table && cea[i].row == row && cea[i].col == col
  {
    if cea != [] {
      var init := cea[..|cea| - 1];
      EntityMapKeys(init, table, row, col);
      assert forall i :: 0 <= i < |init| ==> init[i] == cea[i];
    }
  }

  /** The entity kept for a cell is that of the last row annotating it. */
  lemma {:induction false} EntityMapLastWins(cea: seq<CeaRow>, table: string, i: nat)
    requires i < |cea| && cea[i].table == table
    requires forall j :: i < j < |cea| && cea[j].table == table ==> (cea[j].row, cea[j].col) != (cea[i].row, cea[i].col)
    ensures (cea[i].row, cea[i].col) in EntityMap(cea, table)
    ensures EntityMap(cea, table)[(cea[i].row, cea[i].col)] == LastSegment(cea[i].entity)
  {
    var n := |cea| - 1;
    EntityMapSnoc(cea, table, n);
    assert cea[..n + 1] == cea;
    if i < n {
      var init := cea[..n];
      assert init[i] == cea[i];
      forall j | i < j < |init| && init[j].table == table
        ensures (init[j].row, init[j].col) != (init[i].row, init[i].col)
      {
        assert init[j] == cea[j];
      }
      EntityMapLastWins(init, table, i);
    }
  }

  lemma EntityMapSnoc(cea: seq<CeaRow>, table: string, i: nat)
    requires i < |cea|
    ensures EntityMap(cea[..i + 1], table)
            == if cea[i].table == table
               then EntityMap(cea[..i], table)[(cea[i].row, cea[i].col) := LastSegment(cea[i].entity)]
               else EntityMap(cea[..i], table)
  {
    assert cea[..i + 1][..i] == cea[..i];
  }

  /** Filling `entity_map` from the table's rows, in row order. */
  method BuildEntityMap(cea: seq<CeaRow>, table: string) returns (m: map<(nat, nat), string>)
    ensures m == EntityMap(cea, table)
  {
    m := map[];
    for i := 0 to |cea|
      invariant m == EntityMap(cea[..i], table)
    {
      EntityMapSnoc(cea, table, i);
      var r := cea[i];
      if r.table == table {
        m := m[(r.row, r.col) := LastSegment(r.entity)];
      }
    }
    assert cea[..|cea|] == cea;
  }

  /** `set(col for (_, col) in entity_map.keys())`. */
  function Columns(m: map<(nat, nat), string>): set<nat>
  {
    set k | k in m.Keys :: k.1
  }

  /** The largest RowID among the table's rows (0 for a table with none). */
  function MaxRow(cea: seq<CeaRow>, table: string): (r: nat)
    ensures forall i :: 0 <= i < |cea| && cea[i].table == table ==> cea[i].row <= r
    ensures table in TableIds(cea) ==> exists i :: 0 <= i < |cea| && cea[i].table == table && cea[i].row == r
  {
    if cea == [] then 0
    else
      var init := cea[..|cea| - 1];
      var m := MaxRow(init, table);
      var last := cea[|cea| - 1];
      assert forall i :: 0 <= i < |init| ==> init[i] == cea[i];
      assert table in TableIds(cea) && last.table != table ==> table in TableIds(init);
      if last.table == table && last.row > m then last.row
      else if last.table == table && table !in TableIds(init) then last.row
      else m
  }

  /** Row `r` holds a (truthy) entity in both columns. */
  predicate Aligned(m: map<(nat, nat), string>, c1: nat, c2: nat, r: nat)
  {
    (r, c1) in m && m[(r, c1)] != "" && (r, c2) in m && m[(r, c2)] != ""
  }

  /** The rows `range(n)` visits that hold an entity in both columns, in order. */
  function AlignedRows(m: map<(nat, nat), string>, c1: nat, c2: nat, n: nat): (rows: seq<nat>)
    ensures forall k :: 0 <= k < |rows| ==> rows[k] < n && Aligned(m, c1, c2, rows[k])
    ensures forall r :: 0 <= r < n && Aligned(m, c1, c2, r) ==> r in rows
    ensures forall k, l :: 0 <= k < l < |rows| ==> rows[k] < rows[l]
  {
    if n == 0 then []
    else
      var rows := AlignedRows(m, c1, c2, n - 1);
      if Aligned(m, c1, c2, n - 1) then rows + [n - 1] else rows
  }

  /** The `pairs` comprehension: the entities of both columns on each aligned row. */
  function CandidatePairs(m: map<(nat, nat), string>, c1: nat, c2: nat, n: nat): seq<(string, string)>
  {
    var rows := AlignedRows(m, c1, c2, n);
    seq(|rows|, k requires 0 <= k < |rows| => (m[(rows[k], c1)], m[(rows[k], c2)]))
  }

  /** `get_wikidata_property(q1, q2)` kept only when truthy. */
  function RelationOf(propApi: (string, string) -> Reply): ((string, string)) -> Option<string>
  {
    (pair: (string, string)) => var p := DirectProperty(propApi(pair.0, pair.1)); if Truthy(p) then p else None
  }

  /** The `props` comprehension: the relations found for the candidate pairs. */
  function Relations(propApi: (string, string) -> Reply, pairs: seq<(string, string)>): (r: seq<string>)
    ensures |r| <= |pairs|
  {
    Collect(pairs, RelationOf(propApi))
  }

  /** The relations the pair (c1, c2) of a table collects. */
  function PairRelations(cea: seq<CeaRow>, propApi: (string, string) -> Reply, table: string, c1: nat, c2: nat): seq<string>
  {
    Relations(propApi, CandidatePairs(EntityMap(cea, table), c1, c2, MaxRow(cea, table)))
  }

  /** The CPA row of a column pair of a table, if its relations are not empty. */
  function PairAnnotation(cea: seq<CeaRow>, propApi: (string, string) -> Reply, table: string, c1: nat, c2: nat): (r: Option<CpaRow>)
    ensures r.Some? ==> r.value.table == table && r.value.col1 == c1 && r.value.col2 == c2
    ensures r.Some? ==> exists p :: p in PairRelations(cea, propApi, table, c1, c2) && r.value.relationUri == EntityPrefix + p
  {
    match MostCommon(PairRelations(cea, propApi, table, c1, c2))
    case None => None
    case Some(p) => Some(CpaRow(table, c1, c2, EntityPrefix + p))
  }

  /** A row `process_cpa` may emit: two annotated columns of its table, in
      increasing order, and the majority relation of that pair. */
  ghost predicate Justified(cea: seq<CeaRow>, propApi: (string, string) -> Reply, row: CpaRow)
  {
    var columns := Columns(EntityMap(cea, row.table));
    && row.table in TableIds(cea)
    && row.col1 < row.col2 && row.col1 in columns && row.col2 in columns
    && PairAnnotation(cea, propApi, row.table, row.col1, row.col2) == Some(row)
  }

  /** The (TableID, c1, c2) a CPA row is about. */
  function PairKeyOf(r: CpaRow): (string, nat, nat)
  {
    (r.table, r.col1, r.col2)
  }

  /** What `process_cpa` emits for a visited (table, c1, c2): nothing unless
      c1 < c2, else the pair's annotation. */
  function PairOutcome(cea: seq<CeaRow>, propApi: (string, string) -> Reply): ((string, nat, nat)) -> Option<CpaRow>
  {
    (k: (string, nat, nat)) => if k.1 < k.2 then PairAnnotation(cea, propApi, k.0, k.1, k.2) else None
  }

  /** The (table, c1, c2) visited for first columns `firsts` and second
      columns `seconds` of one table. */
  function ColumnPairs(table: string, firsts: set<nat>, seconds: set<nat>): set<(string, nat, nat)>
  {
    set c1, c2 | c1 in firsts && c2 in seconds :: (table, c1, c2)
  }

  /** Every (table, c1, c2) visited for the tables `tables`. */
  function TablePairs(cea: seq<CeaRow>, tables: set<string>): set<(string, nat, nat)>
  {
    set t, c1, c2 | t in tables && c1 in Columns(EntityMap(cea, t)) && c2 in Columns(EntityMap(cea, t)) :: (t, c1, c2)
  }

  /** Candidate pairs come only from rows below the bound `n` (the table's
      largest RowID) where both columns hold an entity, the bound itself
      excluded, and every such row contributes one pair. */
  lemma CandidatePairsFromAlignedRows(m: map<(nat, nat), string>, c1: nat, c2: nat, n: nat)
    ensures |CandidatePairs(m, c1, c2, n)| == |AlignedRows(m, c1, c2, n)|
    ensures forall k :: 0 <= k < |AlignedRows(m, c1, c2, n)| ==>
              var r := AlignedRows(m, c1, c2, n)[k];
              r < n && Aligned(m, c1, c2, r) && CandidatePairs(m, c1, c2, n)[k] == (m[(r, c1)], m[(r, c2)])
    ensures forall r :: 0 <= r < n && Aligned(m, c1, c2, r) ==> (m[(r, c1)], m[(r, c2)]) in CandidatePairs(m, c1, c2, n)
    ensures n !in AlignedRows(m, c1, c2, n)
  {
    var rows := AlignedRows(m, c1, c2, n);
    var pairs := CandidatePairs(m, c1, c2, n);
    forall r | 0 <= r < n && Aligned(m, c1, c2, r)
      ensures (m[(r, c1)], m[(r, c2)]) in pairs
    {
      var k :| 0 <= k < |rows| && rows[k] == r;
      assert pairs[k] == (m[(r, c1)], m[(r, c2)]);
    }
  }

  /** No relation exactly when no candidate pair has a truthy relation. */
  lemma PairAnnotationNoneIff(cea: seq<CeaRow>, propApi: (string, string) -> Reply, table: string, c1: nat, c2: nat)
    ensures var pairs := CandidatePairs(EntityMap(cea, table), c1, c2, MaxRow(cea, table));
            PairAnnotation(cea, propApi, table, c1, c2).None?
            <==> forall k :: 0 <= k < |pairs| ==> !Truthy(DirectProperty(propApi(pairs[k].0, pairs[k].1)))
  {
    var pairs := CandidatePairs(EntityMap(cea, table), c1, c2, MaxRow(cea, table));
    CollectEmpty(pairs, RelationOf(propApi));
  }

  /** Otherwise the relation is the first most common one found. */
  lemma PairAnnotationIsMajority(cea: seq<CeaRow>, propApi: (string, string) -> Reply, table: string, c1: nat, c2: nat)
    requires PairAnnotation(cea, propApi, table, c1, c2).Some?
    ensures exists p :: IsFirstMostCommon(PairRelations(cea, propApi, table, c1, c2), p)
                        && PairAnnotation(cea, propApi, table, c1, c2) == Some(CpaRow(table, c1, c2, EntityPrefix + p))
  {
    var props := PairRelations(cea, propApi, table, c1, c2);
    MostCommonIsFirstMostCommon(props);
    var p := MostCommon(props).value;
    assert PairAnnotation(cea, propApi, table, c1, c2) == Some(CpaRow(table, c1, c2, EntityPrefix + p));
  }

  /** The majority relation of a non-empty vote is a direct property found
      for one of the pairs, and its URI gives it back. */
  lemma MajorityRelationIsFound(propApi: (string, string) -> Reply, pairs: seq<(string, string)>)
    requires Relations(propApi, pairs) != []
    ensures var p := MostCommon(Relations(propApi, pairs)).value;
            && LastSegment(EntityPrefix + p) == p
            && exists k :: 0 <= k < |pairs| && DirectProperty(propApi(pairs[k].0, pairs[k].1)) == Some(p)
  {
    var p := MostCommon(Relations(propApi, pairs)).value;
    CollectMembers(pairs, RelationOf(propApi), p);
    var k :| 0 <= k < |pairs| && RelationOf(propApi)(pairs[k]) == Some(p);
    assert DirectProperty(propApi(pairs[k].0, pairs[k].1)) == Some(p);
    EntityUriRoundTrip(p);
  }

  /** When every candidate pair of a column pair has the same truthy
      relation, and there is at least one pair, the pair is annotated with
      that relation. */
  lemma UnanimousPair(cea: seq<CeaRow>, propApi: (string, string) -> Reply, table: string, c1: nat, c2: nat, p: string)
    requires p != ""
    requires CandidatePairs(EntityMap(cea, table), c1, c2, MaxRow(cea, table)) != []
    requires var pairs := CandidatePairs(EntityMap(cea, table), c1, c2, MaxRow(cea, table));
             forall k :: 0 <= k < |pairs| ==> DirectProperty(propApi(pairs[k].0, pairs[k].1)) == Some(p)
    ensures PairAnnotation(cea, propApi, table, c1, c2) == Some(CpaRow(table, c1, c2, EntityPrefix + p))
  {
    var pairs := CandidatePairs(EntityMap(cea, table), c1, c2, MaxRow(cea, table));
    CollectUniform(pairs, RelationOf(propApi), p);
    UnanimousVote(Relations(propApi, pairs), p);
  }

  lemma TwoMembers(columns: set<nat>, c1: nat, c2: nat)
    requires c1 in columns && c2 in columns && c1 != c2
    ensures |columns| >= 2
  {
    var rest := columns - {c1};
    assert c2 in rest;
    assert columns == rest + {c1};
    assert |columns| == |rest| + 1;
  }

  lemma AddSecondColumn(table: string, c1: nat, seconds: set<nat>, c2: nat)
    requires c2 !in seconds
    ensures ColumnPairs(table, {c1}, seconds + {c2}) == ColumnPairs(table, {c1}, seconds) + {(table, c1, c2)}
    ensures ColumnPairs(table, {c1}, seconds) !! {(table, c1, c2)}
  {
  }

  lemma AddFirstColumn(table: string, firsts: set<nat>, c1: nat, seconds: set<nat>)
    requires c1 !in firsts
    ensures ColumnPairs(table, firsts + {c1}, seconds) == ColumnPairs(table, firsts, seconds) + ColumnPairs(table, {c1}, seconds)
    ensures ColumnPairs(table, firsts, seconds) !! ColumnPairs(table, {c1}, seconds)
  {
  }

  lemma AddTable(cea: seq<CeaRow>, tables: set<string>, t: string)
    requires t !in tables
    ensures TablePairs(cea, tables + {t}) == TablePairs(cea, tables) + TablePairs(cea, {t})
    ensures TablePairs(cea, tables) !! TablePairs(cea, {t})
  {
  }

  /** One step of the inner loop: the relations of the pair (c1, c2) and
      their majority, emitted when there is one. */
  method PairFor(cea: seq<CeaRow>, propApi: (string, string) -> Reply, table: string,
                 m: map<(nat, nat), string>, maxRow: nat, c1: nat, c2: nat)
    returns (out: seq<CpaRow>)
    requires m == EntityMap(cea, table) && maxRow == MaxRow(cea, table)
    ensures PairOutcome(cea, propApi)((table, c1, c2)) == if out == [] then None else Some(out[0])
    ensures Covers({(table, c1, c2)}, PairOutcome(cea, propApi), PairKeyOf, out)
  {
    out := [];
    if c1 < c2 {
      var pairs := CandidatePairs(m, c1, c2, maxRow);
      var props := Relations(propApi, pairs);
      assert props == PairRelations(cea, propApi, table, c1, c2);
      if props != [] {
        var prop := MostCommonOf(props);
        out := [CpaRow(table, c1, c2, EntityPrefix + prop.value)];
      }
    }
    CoversOne((table, c1, c2), PairOutcome(cea, propApi), PairKeyOf);
  }

  /** The inner loop of `process_cpa` for a fixed first column `c1`. */
  method PairsFrom(cea: seq<CeaRow>, propApi: (string, string) -> Reply, table: string,
                   m: map<(nat, nat), string>, columns: set<nat>, maxRow: nat, c1: nat)
    returns (rows: seq<CpaRow>)
    requires m == EntityMap(cea, table) && maxRow == MaxRow(cea, table)
    ensures Covers(ColumnPairs(table, {c1}, columns), PairOutcome(cea, propApi), PairKeyOf, rows)
  {
    var ann := PairOutcome(cea, propApi);
    rows := [];
    var rest := columns;
    while rest != {}
      invariant rest <= columns
      invariant Covers(ColumnPairs(table, {c1}, columns - rest), ann, PairKeyOf, rows)
      decreases rest
    {
      var c2 :| c2 in rest;
      var out := PairFor(cea, propApi, table, m, maxRow, c1, c2);
      AddSecondColumn(table, c1, columns - rest, c2);
      CoversUnion(ColumnPairs(table, {c1}, columns - rest), rows, {(table, c1, c2)}, out, ann, PairKeyOf);
      assert columns - (rest - {c2}) == (columns - rest) + {c2};
      rows := rows + out;
      rest := rest - {c2};
    }
  }

  /** The body of `process_cpa` for one table. */
  method TableRelations(cea: seq<CeaRow>, propApi: (string, string) -> Reply, table: string)
    returns (rows: seq<CpaRow>)
    ensures Covers(TablePairs(cea, {table}), PairOutcome(cea, propApi), PairKeyOf, rows)
  {
    var ann := PairOutcome(cea, propApi);
    rows := [];
    var m := BuildEntityMap(cea, table);
    var columns := Columns(m);
    assert TablePairs(cea, {table}) == ColumnPairs(table, columns, columns);
    if |columns| < 2 {
      forall c1, c2 | c1 in columns && c2 in columns && c1 < c2
        ensures false
      {
        TwoMembers(columns, c1, c2);
      }
      CoversNothing(ColumnPairs(table, columns, columns), ann, PairKeyOf);
      return;
    }
    var maxRow := MaxRow(cea, table);
    var rest := columns;
    while rest != {}
      invariant rest <= columns
      invariant Covers(ColumnPairs(table, columns - rest, columns), ann, PairKeyOf, rows)
      decreases rest
    {
      var c1 :| c1 in rest;
      var more := PairsFrom(cea, propApi, table, m, columns, maxRow, c1);
      AddFirstColumn(table, columns - rest, c1, columns);
      CoversUnion(ColumnPairs(table, columns - rest, columns), rows, ColumnPairs(table, {c1}, columns), more, ann, PairKeyOf);
      assert columns - (rest - {c1}) == (columns - rest) + {c1};
      rows := rows + more;
      rest := rest - {c1};
    }
  }

  /** `process_cpa`: each table in turn (in an unspecified order), each pair
      of its annotated columns c1 < c2, one row per pair with a relation. */
  method ProcessCpa(cea: seq<CeaRow>, propApi: (string, string) -> Reply) returns (results: seq<CpaRow>)
    ensures forall i :: 0 <= i < |results| ==> Justified(cea, propApi, results[i])
    ensures forall t, c1, c2 :: t in TableIds(cea) && c1 in Columns(EntityMap(cea, t)) && c2 in Columns(EntityMap(cea, t))
                                && c1 < c2 && PairAnnotation(cea, propApi, t, c1, c2).Some? ==>
              PairAnnotation(cea, propApi, t, c1, c2).value in results
    ensures forall i, j :: 0 <= i < j < |results| ==> PairKeyOf(results[i]) != PairKeyOf(results[j])
  {
    var ann := PairOutcome(cea, propApi);
    results := [];
    var tables := TableIds(cea);
    while tables != {}
      invariant tables <= TableIds(cea)
      invariant Covers(TablePairs(cea, TableIds(cea) - tables), ann, PairKeyOf, results)
      decreases tables
    {
      var t :| t in tables;
      var more := TableRelations(cea, propApi, t);
      AddTable(cea, TableIds(cea) - tables, t);
      CoversUnion(TablePairs(cea, TableIds(cea) - tables), results, TablePairs(cea, {t}), more, ann, PairKeyOf);
      assert TableIds(cea) - (tables - {t}) == (TableIds(cea) - tables) + {t};
      results := results + more;
      tables := tables - {t};
    }
    assert TableIds(cea) - tables == TableIds(cea);
    forall i | 0 <= i < |results|
      ensures Justified(cea, propApi, results[i])
    {
      var k := PairKeyOf(results[i]);
      assert k in TablePairs(cea, TableIds(cea)) && ann(k) == Some(results[i]);
    }
    forall t, c1, c2 | t in TableIds(cea) && c1 in Columns(EntityMap(cea, t)) && c2 in Columns(EntityMap(cea, t))
                       && c1 < c2 && PairAnnotation(cea, propApi, t, c1, c2).Some?
      ensures PairAnnotation(cea, propApi, t, c1, c2).value in results
    {
      assert (t, c1, c2) in TablePairs(cea, TableIds(cea)) && ann((t, c1, c2)).Some?;
    }
  }

  /** A table whose annotations cover fewer than two columns gets no row. */
  lemma NarrowTableGetsNoRow(cea: seq<CeaRow>, propApi: (string, string) -> Reply, results: seq<CpaRow>, t: string)
    requires forall i :: 0 <= i < |results| ==> Justified(cea, propApi, results[i])
    requires |Columns(EntityMap(cea, t))| < 2
    ensures forall i :: 0 <= i < |results| ==> results[i].table != t
  {
    forall i | 0 <= i < |results|
      ensures results[i].table != t
    {
      var r := results[i];
      if r.table == t {
        TwoMembers(Columns(EntityMap(cea, t)), r.col1, r.col2);
        assert false;
      }
    }
  }
}
