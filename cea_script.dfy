/**
 * Cell-entity annotation as `process_cea` in cea.py does it: each target's
 * table is read as a data frame whose missing cells are filled with "",
 * the cell text is stripped, and a non-blank text is looked up by label.
 */
module CeaScript {
  import opened Wrappers
  import opened Text
  import opened Batch
  import opened Annotations
  import opened Wikidata

  /** What opening a target's table gives: no file at that path, a file the
      CSV reader rejects (an exception), or the frame it read, one entry per
      cell with None where the reader found no value. */
  datatype TableFile = Missing | Unreadable | Frame(rows: seq<seq<Option<string>>>)

  /** Number of columns of the frame: its widest row. */
  function Width(rows: seq<seq<Option<string>>>): (w: nat)
    ensures forall i :: 0 <= i < |rows| ==> |rows[i]| <= w
    ensures rows != [] ==> exists i :: 0 <= i < |rows| && |rows[i]| == w
  {
    if rows == [] then 0
    else
      var w := Width(rows[1..]);
      assert forall i :: 1 <= i < |rows| ==> rows[i] == rows[1..][i - 1];
      if |rows[0]| > w then |rows[0]| else w
  }

  /** `df.fillna("").iat[r, c]`: the cell's text, "" where it has none. */
  function CellValue(rows: seq<seq<Option<string>>>, r: nat, c: nat): (v: string)
    requires r < |rows|
    ensures c < |rows[r]| && rows[r][c].Some? ==> v == rows[r][c].value
    ensures v != "" ==> c < |rows[r]| && rows[r][c] == Some(v)
  {
    if c < |rows[r]| && rows[r][c].Some? then rows[r][c].value else ""
  }

  /** The label the loop searches for a target, if it gets that far: the
      stripped cell text, when the table exists and is readable, the cell is
      in range and the text is not blank. */
  function SearchLabel(files: string -> TableFile, t: Target): (r: Option<string>)
    ensures r.Some? ==> r.value != [] && !IsSpace(r.value[0]) && !IsSpace(r.value[|r.value| - 1])
    ensures r.Some? ==> files(t.table).Frame? && t.row < |files(t.table).rows| && t.col < Width(files(t.table).rows)
                        && r.value == Trim(CellValue(files(t.table).rows, t.row, t.col))
    ensures files(t.table).Frame? && t.row < |files(t.table).rows| && t.col < Width(files(t.table).rows)
            && Trim(CellValue(files(t.table).rows, t.row, t.col)) != "" ==>
              r == Some(Trim(CellValue(files(t.table).rows, t.row, t.col)))
  {
    match files(t.table)
    case Missing => None
    case Unreadable => None
    case Frame(rows) =>
      if t.row < |rows| && t.col < Width(rows) then
        var value := Trim(CellValue(rows, t.row, t.col));
        if value != "" then Some(value) else None
      else None
  }

  /** The row the loop appends for one target, if any. */
  function Annotate(files: string -> TableFile, sparql: string -> Reply, t: Target): (r: Option<CeaRow>)
    ensures r.Some? ==> SearchLabel(files, t).Some?
    ensures r.Some? ==> r.value.table == t.table && r.value.col == t.col && r.value.row == t.row
    ensures r.Some? ==> r.value.entity != "" && FirstBindingItem(sparql(SearchLabel(files, t).value)) == Some(r.value.entity)
    ensures SearchLabel(files, t).Some? && Truthy(FirstBindingItem(sparql(SearchLabel(files, t).value))) ==>
              r == Some(CeaRow(t.table, t.col, t.row, FirstBindingItem(sparql(SearchLabel(files, t).value)).value))
  {
    match SearchLabel(files, t)
    case None => None
    case Some(value) =>
      var entity := FirstBindingItem(sparql(value));
      if Truthy(entity) then Some(CeaRow(t.table, t.col, t.row, entity.value)) else None
  }

  function SearchLabelOf(files: string -> TableFile): Target -> Option<string>
  {
    t => SearchLabel(files, t)
  }

  function AnnotateWith(files: string -> TableFile, sparql: string -> Reply): Target -> Option<CeaRow>
  {
    t => Annotate(files, sparql, t)
  }

  /** The search label is the stripped text of an existing, non-blank cell. */
  lemma SearchLabelIsTrimmedCell(files: string -> TableFile, t: Target, text: string)
    requires SearchLabel(files, t) == Some(text)
    ensures files(t.table).Frame? && t.row < |files(t.table).rows| && t.col < Width(files(t.table).rows)
    ensures text != [] && text == Trim(CellValue(files(t.table).rows, t.row, t.col))
  {
    match files(t.table)
    case Frame(rows) =>
  }

  /** `process_cea`: for each target in turn, skip it when its table file
      is missing, the read raises, the cell is out of range or blank;
      otherwise search the stripped text and append a row when an entity is
      found. `lookups` lists the labels searched, in order. */
  method ProcessCea(targets: seq<Target>, files: string -> TableFile, sparql: string -> Reply)
    returns (rows: seq<CeaRow>, lookups: seq<string>)
    ensures rows == Collect(targets, AnnotateWith(files, sparql))
    ensures lookups == Collect(targets, SearchLabelOf(files))
  {
    rows, lookups := [], [];
    for i := 0 to |targets|
      invariant rows == Collect(targets[..i], AnnotateWith(files, sparql))
      invariant lookups == Collect(targets[..i], SearchLabelOf(files))
    {
      var t := targets[i];
      CollectSnoc(targets, i, AnnotateWith(files, sparql));
      CollectSnoc(targets, i, SearchLabelOf(files));
      var file := files(t.table);
      if file.Missing? {
        continue;
      }
      if file.Unreadable? {
        continue;
      }
      var df := file.rows;
      if t.row < |df| && t.col < Width(df) {
        var value := Trim(CellValue(df, t.row, t.col));
        if value != "" {
          lookups := lookups + [value];
          var entity := FirstBindingItem(sparql(value));
          if Truthy(entity) {
            rows := rows + [CeaRow(t.table, t.col, t.row, entity.value)];
          }
        }
      }
    }
    assert targets[..|targets|] == targets;
  }

  /** A target is skipped without a search when its table file is missing,
      when reading the table raises, when its row or column is beyond the
      frame, or when its cell is blank (a missing cell reads as ""). */
  ghost predicate SkippedWithoutSearch(files: string -> TableFile, t: Target)
  {
    match files(t.table)
    case Missing => true
    case Unreadable => true
    case Frame(rows) =>
      t.row >= |rows| || t.col >= Width(rows)
      || forall k :: 0 <= k < |CellValue(rows, t.row, t.col)| ==> IsSpace(CellValue(rows, t.row, t.col)[k])
  }

  /** A skipped target produces no row and no search, and only that target
      is skipped: the others are annotated exactly as without it. */
  lemma SkippedTargetLeavesNoTrace(targets: seq<Target>, files: string -> TableFile, sparql: string -> Reply, i: nat)
    requires i < |targets| && SkippedWithoutSearch(files, targets[i])
    ensures Collect(targets, AnnotateWith(files, sparql))
            == Collect(targets[..i], AnnotateWith(files, sparql)) + Collect(targets[i + 1..], AnnotateWith(files, sparql))
    ensures Collect(targets, SearchLabelOf(files))
            == Collect(targets[..i], SearchLabelOf(files)) + Collect(targets[i + 1..], SearchLabelOf(files))
  {
    SkippedItemInvisible(targets, i, AnnotateWith(files, sparql));
    SkippedItemInvisible(targets, i, SearchLabelOf(files));
  }

  /** A search that finds nothing produces no row, and only that target's
      row is missing. */
  lemma UnfoundLabelLeavesNoRow(targets: seq<Target>, files: string -> TableFile, sparql: string -> Reply, i: nat)
    requires i < |targets| && SearchLabel(files, targets[i]).Some?
    requires !Truthy(FirstBindingItem(sparql(SearchLabel(files, targets[i]).value)))
    ensures Collect(targets, AnnotateWith(files, sparql))
            == Collect(targets[..i], AnnotateWith(files, sparql)) + Collect(targets[i + 1..], AnnotateWith(files, sparql))
  {
    SkippedItemInvisible(targets, i, AnnotateWith(files, sparql));
  }

  /** Every searched label whose lookup finds a non-empty item is annotated. */
  lemma FoundLabelsAreAnnotated(targets: seq<Target>, files: string -> TableFile, sparql: string -> Reply, i: nat)
    requires i < |targets| && SearchLabel(files, targets[i]).Some?
    requires Truthy(FirstBindingItem(sparql(SearchLabel(files, targets[i]).value)))
    ensures CeaRow(targets[i].table, targets[i].col, targets[i].row,
                   FirstBindingItem(sparql(SearchLabel(files, targets[i]).value)).value)
            in Collect(targets, AnnotateWith(files, sparql))
  {
    var row := CeaRow(targets[i].table, targets[i].col, targets[i].row,
                      FirstBindingItem(sparql(SearchLabel(files, targets[i]).value)).value);
    assert AnnotateWith(files, sparql)(targets[i]) == Some(row);
    CollectMembers(targets, AnnotateWith(files, sparql), row);
  }

  /** At most one row per target, rows in target order, and each row is
      exactly (table, column, row, entity) of the target that produced it,
      with the entity its first binding's non-empty item. */
  lemma RowsFollowTargets(targets: seq<Target>, files: string -> TableFile, sparql: string -> Reply)
    ensures exists idx :: Traces(targets, AnnotateWith(files, sparql), Collect(targets, AnnotateWith(files, sparql)), idx)
    ensures forall row :: row in Collect(targets, AnnotateWith(files, sparql)) ==>
              exists i :: 0 <= i < |targets| && SearchLabel(files, targets[i]).Some?
                          && row.entity != ""
                          && FirstBindingItem(sparql(SearchLabel(files, targets[i]).value)) == Some(row.entity)
                          && row == CeaRow(targets[i].table, targets[i].col, targets[i].row, row.entity)
  {
    var idx := CollectTraced(targets, AnnotateWith(files, sparql));
    forall row | row in Collect(targets, AnnotateWith(files, sparql))
      ensures exists i :: 0 <= i < |targets| && SearchLabel(files, targets[i]).Some?
                          && row.entity != ""
                          && FirstBindingItem(sparql(SearchLabel(files, targets[i]).value)) == Some(row.entity)
                          && row == CeaRow(targets[i].table, targets[i].col, targets[i].row, row.entity)
    {
      CollectMembers(targets, AnnotateWith(files, sparql), row);
    }
  }
}
