# Table annotation pipeline: a Dafny model

This project models the deterministic core of a three-stage pipeline that
annotates CSV tables against Wikidata:

- **CEA (cell to entity).** Each target cell (table, column, row) is read and
  searched, and the first hit becomes the cell's entity. `main.py` and
  `cea.py` each have a version of this stage, and both are modelled.
- **CTA (column to type).** Cell annotations are grouped by (table, column).
  The types of every entity in a group are concatenated, and the majority
  label becomes the column's type.
- **CPA (column pair to relation).** Each table gets an entity map keyed by
  (row, column). For every pair of annotated columns c1 < c2, the relation
  between the two entities on each row where both columns hold one is
  looked up. The majority relation is emitted.

The Wikidata requests are parameters: each returns a `Reply`, which is either
a failure or a status code plus the requested field of each result. The
project models only what the code keeps of a reply: the first search hit,
the last path segment of each type, and the first direct property. Tables
are parameters too. For `main.py` a table is the list of lines of a file.
For `cea.py` it is the data frame the CSV reader produced, or "missing" or
"unreadable".

Modules, one file each:

- `Wrappers`: the `Option` type.
- `Text`: Python's `str.strip()` (with the full `str.isspace()` character
  set), `s.split("/")[-1]`, `s.split(",")` with its inverse `join`, and
  substring search.
- `Majority`: `Counter(labels).most_common(1)`. A tally is built in
  first-insertion order and the first entry of maximal count is taken.
  This is proved equal to a specification: the label of highest count,
  with ties going to the label that occurs first.
- `Batch`: the "at most one output per input, in input order" loop shape
  that both CEA loops share; `Flatten`, the `types.extend(...)` loop of
  `get_common_type`; and `Covers`, the "each group emitted exactly once,
  with its own annotation" property of the CTA and CPA group loops.
- `Wikidata`: the result-selection steps of `search_entity` (both versions),
  `get_wikidata_types` and `get_wikidata_property`.
- `Annotations`: the row records and Python truthiness of a lookup result.
- `MainCea`, `ColumnTypes`, `ColumnRelations`, `Pipeline`: `main.py`.
- `CeaScript`: `cea.py`.

The model keeps these behaviours of the code:

- Votes are counted once per occurrence: duplicate identifiers in a group
  are not removed (main.py:51-52, 105).
- `main.py` searches the raw cell text, empty cells included
  (main.py:83-84). Only `cea.py` strips the cell text and skips blank cells
  (cea.py:55-57).
- The CPA row range is `range(max RowID)`, so the row holding the largest
  RowID is never used (main.py:126).
- The relation request is directional: it asks for `qid1 ?p qid2`
  (main.py:61), with c1 < c2 (main.py:124).
- Every lookup is a fresh request; nothing is cached or counted
  (main.py:36-70, 92-99; cea.py:27-42).
- `if qid:` and `if common_type:` reject the empty string as well as `None`.
  The model keeps that check (`Truthy`).

## Model

| member | source | states |
|---|---|---|
| Text.IsSpace | cea.py:56 | defines the characters `str.isspace()` accepts, listed code point by code point; `strip()` removes exactly these |
| Text.SkipSpaceFrom | cea.py:56 | the left cut of `strip()`: everything skipped is whitespace, and it stops at a non-space character or the end |
| Text.SkipSpaceBack | cea.py:56 | the right cut of `strip()`: everything skipped is whitespace, and it stops after a non-space character or at the left cut |
| Text.Trim | cea.py:56 | `strip()` gives an infix of the input with only whitespace around it and none at either end; it is empty exactly when the input is all whitespace |
| Text.LastSegment | main.py:105 | `split("/")[-1]` is the longest suffix without '/': it holds no '/', and when shorter than the input it follows a '/' |
| Text.LastSegmentOfPrefixed | main.py:86 | for a prefix ending in '/' and an identifier without '/', the last segment of prefix + identifier is the identifier |
| Text.EntityUriRoundTrip | main.py:118 | the last segment of the entity URI built at main.py:86 gives back the bare identifier |
| Text.Split | main.py:31 | `split(",")` yields at least one piece, no piece holds the separator, and joining the pieces restores the string |
| Text.SplitJoin | main.py:31 | splitting the join of separator-free pieces gives back the pieces |
| Text.Contains | main.py:67 | defines `"/prop/direct/" in value`: the marker occurs at some position of the value |
| Majority.Leader | main.py:55 | the scan ends on an index whose label has maximal count, and every earlier index has a strictly smaller count |
| Majority.MostCommon | main.py:53-55 | None exactly when there are no labels; otherwise the result is one of the labels |
| Majority.MostCommonIsFirstMostCommon | main.py:55 | the chosen label has maximal count, and every label before its first occurrence has fewer votes |
| Majority.FirstMostCommonUnique | main.py:55 | at most one label is the first label of maximal count, so the tie-break determines the result |
| Majority.MostCommonCharacterised | main.py:55 | MostCommon returns v exactly when v is the first label of maximal count |
| Majority.StrictMajorityWins | main.py:55 | a label with strictly more votes than every other label is chosen |
| Majority.StrictMajorityOrderIndependent | main.py:129 | with a strict majority, two orderings of the same votes choose the same label |
| Majority.UnanimousVote | main.py:55 | a non-empty unanimous vote chooses its only label |
| Majority.Tally | main.py:55 | the Counter holds exactly the labels seen with their counts, and keys are kept in first-occurrence order |
| Majority.EntryOf | main.py:55 | every counted label has an entry in the key order, and its count is its number of votes |
| Majority.FirstMaximal | main.py:55 | the scan of the Counter's keys returns a key of maximal count with every earlier key counted strictly lower |
| Majority.FirstMaximalEntry | main.py:55 | in a complete tally, the first key of maximal count is the first most common label |
| Majority.MostCommonOf | main.py:129 | `Counter(labels).most_common(1)` returns MostCommon(labels) |
| Batch.Collect | cea.py:49-60 | the per-target loop that appends at most one row per target: never more outputs than inputs; its meaning is fixed by the lemmas below |
| Batch.CollectAppend | cea.py:49-60 | outputs over a concatenation of inputs are the outputs of the parts, in order |
| Batch.SkippedItemInvisible | cea.py:61-62 | an input that produces nothing leaves the other inputs' outputs unchanged |
| Batch.CollectEmpty | main.py:128 | nothing comes out exactly when every input yields nothing |
| Batch.CollectUniform | main.py:127 | when every input yields y, y comes out once per input |
| Batch.TracesExtend | cea.py:49-60 | appending an input keeps the trace: it adds nothing when the input yields nothing, and adds its output with its position otherwise |
| Batch.CollectTraced | cea.py:49-60 | there is a trace of input positions, strictly increasing, one per output, each yielding that output, and covering every producing input |
| Batch.Flatten | main.py:50-52 | defines the list that `extend` builds from each item's values in order; characterised by FlattenSnoc and FlattenAppend |
| Batch.FlattenSnoc | main.py:51-52 | extending the list by one item adds that item's values at the end |
| Batch.FlattenAppend | main.py:51-52 | the values of two concatenated lists are the concatenation of each list's values |
| Batch.CoversUnion | main.py:104-109 | two disjoint sets of groups, each emitted exactly and once, give their union emitted exactly and once by the concatenated rows |
| Batch.CollectMembers | cea.py:58-60 | a value is output exactly when some input yields it |
| Wikidata.FirstSearchHit | main.py:92-99 | some identifier comes back exactly when the reply succeeded and its first hit has an id, and it is that first hit's id |
| Wikidata.FirstSearchHitIgnoresRest | main.py:97 | only the top hit matters: later hits never change the result |
| Wikidata.FirstBindingItem | cea.py:34-42 | some entity comes back exactly when the status is 200, there is a binding, and the first binding has an item; it is that item |
| Wikidata.TypeLabels | main.py:42-47 | no types on an exception; otherwise one label per binding, each the last segment of its URI and free of '/' |
| Wikidata.FirstDirect | main.py:67-68 | the property taken from the filtered list holds no '/' |
| Wikidata.FirstDirectAt | main.py:67-68 | a property that comes back is the last segment of a value containing "/prop/direct/" with no earlier such value |
| Wikidata.FirstDirectNone | main.py:67-68 | when no property comes back, no value contains "/prop/direct/" |
| Wikidata.FirstDirectFound | main.py:67-68 | a property comes back exactly when some value contains "/prop/direct/"; it is the last segment of the first such value |
| Wikidata.DirectProperty | main.py:64-70 | a property comes back only from a complete reply, and it holds no '/'; on a complete reply the result is the first direct property's last segment |
| MainCea.ParseTable | main.py:28-32 | one row per line; each row is the comma split of the stripped line, so joining it restores that line |
| MainCea.CellText | main.py:83 | `table[row_idx][col]` reads a cell exactly when the row and the column are in range of the parsed table; the text is that comma piece of the stripped line, so it holds no ',' |
| MainCea.Annotate | main.py:83-86 | a target gets a row exactly when its cell is readable and the search of its text gives a non-empty first hit; the row is (table, column, row, entity prefix + that hit) |
| MainCea.ProcessCea | main.py:74-90 | the results are the per-target annotations in target order, and the searched texts are the in-range cells in target order |
| MainCea.OutOfRangeTargetSkipped | main.py:82-88 | a target outside the table's rows or columns yields no row and no search, and leaves the other targets' results unchanged |
| MainCea.RowsComeFromFoundCells | main.py:83-86 | every row comes from an existing cell whose search returned a non-empty id, and its entity is the entity prefix followed by that id |
| MainCea.FoundCellsAreAnnotated | main.py:83-86 | every existing cell whose search returns a non-empty id is annotated |
| CeaScript.Width | cea.py:55 | the column count is at least every row's length and equal to some row's length |
| CeaScript.CellValue | cea.py:54-56 | `fillna("")` then `iat`: a present cell gives its text, and a non-empty result is the text of a present cell |
| CeaScript.SearchLabel | cea.py:52-58 | a target is searched exactly when its table is readable, its cell is in range and the stripped cell text is non-blank; the label is that stripped text, non-empty with no whitespace at either end |
| CeaScript.Annotate | cea.py:55-60 | a target gets a row exactly when a label was searched and its first binding has a non-empty item; the row is (table, column, row, that item) |
| CeaScript.SearchLabelIsTrimmedCell | cea.py:55-58 | a searched text comes from a readable table and an in-range cell, is non-blank, and is that cell's text stripped (so, by Text.Trim, an infix with no whitespace at either end) |
| CeaScript.ProcessCea | cea.py:45-63 | the rows are the per-target annotations in target order, and the searched texts are the non-blank stripped in-range cells |
| CeaScript.SkippedTargetLeavesNoTrace | cea.py:52-57 | a missing file, an unreadable table, an out-of-range cell or a blank cell yields no row and no search; only that target is skipped |
| CeaScript.UnfoundLabelLeavesNoRow | cea.py:58-60 | a search that finds nothing yields no row, and only for that target |
| CeaScript.RowsFollowTargets | cea.py:49-60 | at most one row per target, rows in target order; each row is (table, column, row, entity) with the entity the non-empty first-binding item of its label |
| CeaScript.FoundLabelsAreAnnotated | cea.py:57-60 | every searched label whose first binding has a non-empty item is annotated with (table, column, row, that item) |
| ColumnTypes.ColumnKeys | main.py:104 | defines the groups `groupby(["TableID", "ColumnID"])` forms: the (table, column) of every CEA row |
| ColumnTypes.GroupIds | main.py:105 | defines the group's identifiers: the last URI segment of each of its rows' entities, in row order with repetitions; there are at most as many as CEA rows |
| ColumnTypes.TypesOf | main.py:52 | defines `get_wikidata_types(qid)` as the type labels of the reply to the request for that identifier |
| ColumnTypes.AllTypes | main.py:50-52 | defines the concatenated `types` list as the flattening of each identifier's types; properties in VotesPerOccurrence, AllTypesHaveNoSlash and AllTypesUniform |
| ColumnTypes.CommonType | main.py:49-55 | None exactly when the concatenated types are empty; otherwise one of them |
| ColumnTypes.ColumnAnnotation | main.py:106-108 | a group gets a row exactly when its common type is truthy; the row is keyed by the group and its URI is the entity prefix followed by that type |
| ColumnTypes.GetCommonType | main.py:49-55 | the loop that extends `types` returns the most common label of the concatenated types |
| ColumnTypes.VotesPerOccurrence | main.py:51-52 | an identifier listed once more anywhere in a group adds its types' votes once more |
| ColumnTypes.CommonTypeNoneIff | main.py:53-54 | None exactly when no identifier of the group has a type |
| ColumnTypes.CommonTypeIsFirstMostCommon | main.py:50-55 | otherwise the type is the label of maximal count, the first one among ties |
| ColumnTypes.AllTypesHaveNoSlash | main.py:45 | no concatenated type label contains '/' |
| ColumnTypes.TypeUriRoundTrip | main.py:105-108 | the emitted type URI gives back the group's common type |
| ColumnTypes.UnanimousColumn | main.py:104-108 | a group whose entities all have the single type t is annotated with t |
| ColumnTypes.AllTypesUniform | main.py:51-52 | when every identifier has the single type t, the concatenation is t once per identifier |
| ColumnTypes.ProcessCta | main.py:101-110 | each row belongs to an existing group and is that group's annotation; every group with a truthy type is emitted, and at most once |
| ColumnRelations.TableIds | main.py:115 | defines the groups `groupby("TableID")` forms: the table of every CEA row |
| ColumnRelations.EntityMap | main.py:116-118 | defines the entity map, filled in row order; characterised by EntityMapKeys and EntityMapLastWins |
| ColumnRelations.Columns | main.py:119 | defines the set of columns of the map's keys |
| ColumnRelations.EntityMapKeys | main.py:116-118 | a (row, column) cell is in the entity map exactly when some row of the table annotates it |
| ColumnRelations.EntityMapLastWins | main.py:116-118 | a cell holds the identifier from the last row of the table that annotates it |
| ColumnRelations.BuildEntityMap | main.py:116-118 | the loop builds exactly the entity map in which later rows overwrite earlier ones |
| ColumnRelations.MaxRow | main.py:126 | the bound is at least every RowID of the table and equal to one of them |
| ColumnRelations.AlignedRows | main.py:126 | exactly the rows below the bound where both columns hold a truthy entity, in increasing order |
| ColumnRelations.CandidatePairsFromAlignedRows | main.py:126 | pair k holds the two entities of aligned row k, which is below the bound; every aligned row gives a pair, and the bound row is never used |
| ColumnRelations.CandidatePairs | main.py:126 | defines the `pairs` list from the aligned rows; characterised by CandidatePairsFromAlignedRows |
| ColumnRelations.RelationOf | main.py:127 | defines the relation of one pair: the direct property found, kept only when truthy |
| ColumnRelations.Relations | main.py:127 | the `props` list has at most one relation per candidate pair |
| ColumnRelations.PairRelations | main.py:126-127 | defines the `props` list of one column pair: the relations of the candidate pairs below the table's largest RowID |
| ColumnRelations.PairAnnotation | main.py:128-130 | a row for a pair is keyed by the table and the two columns, and its URI is the entity prefix followed by one of the relations found |
| ColumnRelations.PairOutcome | main.py:123-130 | defines what a visited (table, c1, c2) yields: nothing when `c1 >= c2` (the skip at main.py:124-125), otherwise the pair's annotation |
| ColumnRelations.PairAnnotationNoneIff | main.py:127-128 | no row for a pair exactly when no candidate pair has a truthy relation |
| ColumnRelations.PairAnnotationIsMajority | main.py:128-130 | otherwise the emitted relation is the first most common of the relations found |
| ColumnRelations.MajorityRelationIsFound | main.py:127-130 | the majority relation is a direct property of some candidate pair, and its URI gives it back |
| ColumnRelations.UnanimousPair | main.py:126-130 | when every candidate pair has the same truthy relation, the pair is annotated with it |
| ColumnRelations.TwoMembers | main.py:120 | proof helper for the `len(columns) < 2` branch: a set with two distinct members has at least two elements |
| ColumnRelations.PairFor | main.py:124-130 | the rows for one column pair are empty or the pair's single annotation, exactly as its outcome says |
| ColumnRelations.PairsFrom | main.py:123-130 | for a fixed c1, every row is the annotation of a pair c1 < c2 of annotated columns, every such pair with a relation is emitted, and none twice |
| ColumnRelations.TableRelations | main.py:116-130 | every row of one table is the annotation of a pair c1 < c2 of annotated columns of that table, every such pair with a relation is emitted, and none twice |
| ColumnRelations.ProcessCpa | main.py:112-132 | every row is justified (c1 < c2, columns annotated, majority relation); every annotated pair of every table is emitted, and each (table, c1, c2) at most once |
| ColumnRelations.NarrowTableGetsNoRow | main.py:119-121 | a table with fewer than two annotated columns gets no row |
| Pipeline.Run | main.py:135-139 | CTA and CPA both consume the CEA results; the CEA rows are the per-target annotations, every CTA and CPA row is its key's annotation, every annotated key is emitted, and no key appears twice |

## Left out

- HTTP and SPARQL requests, query strings, headers, timeouts and JSON decoding are left out. Each request is a function parameter returning a `Reply`.
- Reading and writing CSV files, `tqdm`, `os.makedirs` and `print` are left out. These are I/O.
- How the CSV reader tokenises a file is left out. This covers which texts it reads as missing values and when it rejects ragged rows. A `cea.py` table is given as the frame it produced, or as unreadable.
- The iteration order of `groupby` keys and of the Python `set` of columns is not modelled. The loops pick keys from sets in an unspecified order, so CTA and CPA results are stated as sets, each key at most once.
- MainCea.ProcessCea takes the targets in the order its grouped loop visits them. It reads each target's table per target rather than once per group, which is the same for a deterministic reader.
- The `max(row["RowID"] for row in group.itertuples())` at main.py:126 indexes a named tuple with a string, which raises `TypeError` in Python. The model uses the evident intent: the largest RowID of the table, with `range` excluding it.
- The duplicated `get_wikidata_property` call at main.py:127 is modelled as one call, which is equivalent for a deterministic request.
- Negative target indices are out of scope. Python would index from the end, but targets are non-negative in the benchmark files, so indices are `nat`.
- A missing table file at main.py:79 aborts the whole run. That is an I/O failure and is not modelled.
- Non-integer `ColumnID` or `RowID` fields, whose `int()` raises outside the `try` blocks, are not modelled.
- Python's `str.strip()` is modelled over Unicode scalar values with the exact `isspace()` set. Surrogate code units are not modelled.
