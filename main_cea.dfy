/**
 * Cell-entity annotation as `process_cea` and `load_table` in main.py do it:
 * a table is read as lines, each stripped and split at commas; a target's
 * cell is `table[row][col]`, looked up verbatim, and annotated with the
 * entity URI of the first search hit.
 */
module MainCea {
  import opened Wrappers
  import opened Text
  import opened Batch
  import opened Annotations
  import opened Wikidata

  /** `load_table` once the file's lines are read: each line stripped of
      surrounding whitespace and split at commas. */
  function ParseTable(lines: seq<string>): (table: seq<seq<string>>)
    ensures |table| == |lines|
    ensures forall i :: 0 <= i < |table| ==>
              |table[i]| >= 1 && Join(table[i], ',') == Trim(lines[i])
              && forall j :: 0 <= j < |table[i]| ==> ',' !in table[i][j]
  {
    seq(|lines|, i requires 0 <= i < |lines| => Split(Trim(lines[i]), ','))
  }

  /** The text `table[row_idx][col]` reads for a target, or None when that
      indexing raises IndexError (the row or the column is out of range). */
  function CellText(tableLines: string -> seq<string>, t: Target): (r: Option<string>)
    ensures r.Some? <==> t.row < |tableLines(t.table)| && t.col < |Split(Trim(tableLines(t.table)[t.row]), ',')|
    ensures r.Some? ==> r.value == Split(Trim(tableLines(t.table)[t.row]), ',')[t.col] && ',' !in r.value
  {
    var table := ParseTable(tableLines(t.table));
    if t.row < |table| && t.col < |table[t.row]| then Some(table[t.row][t.col]) else None
  }

  /** The annotation the loop appends for one target, if any. */
  function Annotate(tableLines: string -> seq<string>, searchApi: string -> Reply, t: Target): (r: Option<CeaRow>)
    ensures r.Some? ==> CellText(tableLines, t).Some?
    ensures r.Some? ==> r.value.table == t.table && r.value.col == t.col && r.value.row == t.row
    ensures r.Some? ==> exists qid :: qid != "" && FirstSearchHit(searchApi(CellText(tableLines, t).value)) == Some(qid)
                                     && r.value.entity == EntityPrefix + qid
    ensures CellText(tableLines, t).Some? && Truthy(FirstSearchHit(searchApi(CellText(tableLines, t).value))) ==>
              r == Some(CeaRow(t.table, t.col, t.row, EntityPrefix + FirstSearchHit(searchApi(CellText(tableLines, t).value)).value))
  {
    match CellText(tableLines, t)
    case None => None
    case Some(val) =>
      var qid := FirstSearchHit(searchApi(val));
      if Truthy(qid) then Some(CeaRow(t.table, t.col, t.row, EntityPrefix + qid.value)) else None
  }

  function CellTextOf(tableLines: string -> seq<string>): Target -> Option<string>
  {
    t => CellText(tableLines, t)
  }

  function AnnotateWith(tableLines: string -> seq<string>, searchApi: string -> Reply): Target -> Option<CeaRow>
  {
    t => Annotate(tableLines, searchApi, t)
  }

  /** `process_cea`: for each target in turn, read the cell, search it, and
      append a row when the search finds an entity. `lookups` lists the
      texts searched, in order. */
  method ProcessCea(targets: seq<Target>, tableLines: string -> seq<string>, searchApi: string -> Reply)
    returns (results: seq<CeaRow>, lookups: seq<string>)
    ensures results == Collect(targets, AnnotateWith(tableLines, searchApi))
    ensures lookups == Collect(targets, CellTextOf(tableLines))
  {
    results, lookups := [], [];
    for i := 0 to |targets|
      invariant results == Collect(targets[..i], AnnotateWith(tableLines, searchApi))
      invariant lookups == Collect(targets[..i], CellTextOf(tableLines))
    {
      var t := targets[i];
      CollectSnoc(targets, i, AnnotateWith(tableLines, searchApi));
      CollectSnoc(targets, i, CellTextOf(tableLines));
      var table := ParseTable(tableLines(t.table));
      if t.row < |table| && t.col < |table[t.row]| {
        var val := table[t.row][t.col];
        lookups := lookups + [val];
        var qid := FirstSearchHit(searchApi(val));
        if Truthy(qid) {
          results := results + [CeaRow(t.table, t.col, t.row, EntityPrefix + qid.value)];
        }
      }
    }
    assert targets[..|targets|] == targets;
  }

  /** A target whose row or column is out of range produces no row and no
      search, and the remaining targets are annotated as without it. */
  lemma OutOfRangeTargetSkipped(targets: seq<Target>, tableLines: string -> seq<string>, searchApi: string -> Reply, i: nat)
    requires i < |targets|
    requires var lines := tableLines(targets[i].table);
             targets[i].row >= |lines| || targets[i].col >= |Split(Trim(lines[targets[i].row]), ',')|
    ensures Collect(targets, AnnotateWith(tableLines, searchApi))
            == Collect(targets[..i], AnnotateWith(tableLines, searchApi)) + Collect(targets[i + 1..], AnnotateWith(tableLines, searchApi))
    ensures Collect(targets, CellTextOf(tableLines))
            == Collect(targets[..i], CellTextOf(tableLines)) + Collect(targets[i + 1..], CellTextOf(tableLines))
  {
    var t := targets[i];
    var lines := tableLines(t.table);
    assert CellText(tableLines, t).None? by {
      var table := ParseTable(lines);
      if t.row < |table| {
        assert table[t.row] == Split(Trim(lines[t.row]), ',');
      }
    }
    assert AnnotateWith(tableLines, searchApi)(t).None? && CellTextOf(tableLines)(t).None?;
    SkippedItemInvisible(targets, i, AnnotateWith(tableLines, searchApi));
    SkippedItemInvisible(targets, i, CellTextOf(tableLines));
  }

  /** Every row comes from a target whose cell exists and whose search
      found a non-empty identifier; the row is that target with the
      identifier's entity URI, and the URI gives the identifier back. */
  lemma RowsComeFromFoundCells(targets: seq<Target>, tableLines: string -> seq<string>, searchApi: string -> Reply, row: CeaRow)
    requires row in Collect(targets, AnnotateWith(tableLines, searchApi))
    ensures exists i :: 0 <= i < |targets| && CellText(tableLines, targets[i]).Some?
                        && var qid := FirstSearchHit(searchApi(CellText(tableLines, targets[i]).value));
                        && Truthy(qid)
                        && row == CeaRow(targets[i].table, targets[i].col, targets[i].row, EntityPrefix + qid.value)
    ensures exists qid :: qid != "" && row.entity == EntityPrefix + qid
  {
    CollectMembers(targets, AnnotateWith(tableLines, searchApi), row);
    var i :| 0 <= i < |targets| && Annotate(tableLines, searchApi, targets[i]) == Some(row);
    var qid := FirstSearchHit(searchApi(CellText(tableLines, targets[i]).value));
    assert row.entity == EntityPrefix + qid.value;
  }

  /** Every cell that exists and whose search finds a non-empty identifier
      is annotated. */
  lemma FoundCellsAreAnnotated(targets: seq<Target>, tableLines: string -> seq<string>, searchApi: string -> Reply, i: nat)
    requires i < |targets| && CellText(tableLines, targets[i]).Some?
    requires Truthy(FirstSearchHit(searchApi(CellText(tableLines, targets[i]).value)))
    ensures CeaRow(targets[i].table, targets[i].col, targets[i].row,
                   EntityPrefix + FirstSearchHit(searchApi(CellText(tableLines, targets[i]).value)).value)
            in Collect(targets, AnnotateWith(tableLines, searchApi))
  {
    var row := CeaRow(targets[i].table, targets[i].col, targets[i].row,
                      EntityPrefix + FirstSearchHit(searchApi(CellText(tableLines, targets[i]).value)).value);
    assert AnnotateWith(tableLines, searchApi)(targets[i]) == Some(row);
    CollectMembers(targets, AnnotateWith(tableLines, searchApi), row);
  }
}
