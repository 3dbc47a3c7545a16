/**
 * The run main.py performs: cell annotation first, then column types and
 * column-pair relations, both computed from the same cell annotations.
 */
module Pipeline {
  import opened Wrappers
  import opened Annotations
  import opened Batch
  import opened Wikidata
  import MainCea
  import ColumnTypes
  import ColumnRelations

  /** The three result lists of one run; the requests are parameters. */
  method Run(targets: seq<Target>, tableLines: string -> seq<string>, searchApi: string -> Reply,
             typesApi: string -> Reply, propApi: (string, string) -> Reply)
    returns (cea: seq<CeaRow>, cta: seq<CtaRow>, cpa: seq<CpaRow>)
    ensures cea == Collect(targets, MainCea.AnnotateWith(tableLines, searchApi))
    ensures forall i :: 0 <= i < |cta| ==>
              ColumnTypes.ColumnOf(cta[i]) in ColumnTypes.ColumnKeys(cea)
              && ColumnTypes.ColumnAnnotation(cea, typesApi, ColumnTypes.ColumnOf(cta[i])) == Some(cta[i])
    ensures forall key :: key in ColumnTypes.ColumnKeys(cea) && ColumnTypes.ColumnAnnotation(cea, typesApi, key).Some? ==>
              ColumnTypes.ColumnAnnotation(cea, typesApi, key).value in cta
    ensures forall i, j :: 0 <= i < j < |cta| ==> ColumnTypes.ColumnOf(cta[i]) != ColumnTypes.ColumnOf(cta[j])
    ensures forall i :: 0 <= i < |cpa| ==> ColumnRelations.Justified(cea, propApi, cpa[i])
    ensures forall t, c1, c2 :: t in ColumnRelations.TableIds(cea)
                                && c1 in ColumnRelations.Columns(ColumnRelations.EntityMap(cea, t))
                                && c2 in ColumnRelations.Columns(ColumnRelations.EntityMap(cea, t))
                                && c1 < c2 && ColumnRelations.PairAnnotation(cea, propApi, t, c1, c2).Some? ==>
              ColumnRelations.PairAnnotation(cea, propApi, t, c1, c2).value in cpa
    ensures forall i, j :: 0 <= i < j < |cpa| ==> ColumnRelations.PairKeyOf(cpa[i]) != ColumnRelations.PairKeyOf(cpa[j])
  {
    var lookups;
    cea, lookups := MainCea.ProcessCea(targets, tableLines, searchApi);
    cta := ColumnTypes.ProcessCta(cea, typesApi);
    cpa := ColumnRelations.ProcessCpa(cea, propApi);
  }
}
