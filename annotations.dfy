/** The records the three stages exchange. */
module Annotations {
  import opened Wrappers

  /** One cell to annotate: a table identifier, a column and a row index. */
  datatype Target = Target(table: string, col: nat, row: nat)

  /** A cell annotation: the cell and the entity found for it. */
  datatype CeaRow = CeaRow(table: string, col: nat, row: nat, entity: string)

  /** A column annotation: the column and the URI of its type. */
  datatype CtaRow = CtaRow(table: string, col: nat, typeUri: string)

  /** A column-pair annotation: two columns of a table and the URI of the
      relation between them. */
  datatype CpaRow = CpaRow(table: string, col1: nat, col2: nat, relationUri: string)

  /** Python truthiness of a lookup result: `None` and `""` are both false. */
  predicate Truthy(o: Option<string>)
  {
    o.Some? && o.value != ""
  }
}
