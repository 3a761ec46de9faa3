/**
 * The values that flow through CountMatrix.from_bam: the alignment records
 * read from the BAM file, the gene records read from the GTF annotation, the
 * molecule key that the de-duplication compares, the ways the
 * construction can fail, and the numbering of a name-to-index table.
 */
module Types {

  datatype Option<+T> = None | Some(value: T)

  /** The exceptions from_bam lets escape. */
  datatype Error =
    | MalformedGtf(position: nat)  // a gene record without a gene_name; `position` is its index among the gene records
    | UnknownGene(gene: string)    // a tagged read whose gene is not in the annotation's gene table
    | RowIndexExceedsShape         // the coordinate matrix rejects a row index not below the row count
    | ColumnIndexExceedsShape      // the coordinate matrix rejects a column index not below the column count

  datatype Result<+T> = Ok(value: T) | Err(error: Error)

  /**
   * One alignment record, reduced to what the counting loop reads: the values
   * of the gene, cell-barcode and molecule-barcode tags (absent tags are None)
   * and the mapping quality.
   */
  datatype Record = Record(
    gene: Option<string>,
    cell: Option<string>,
    molecule: Option<string>,
    mappingQuality: int)

  /** One annotation record of type `gene`, reduced to its gene_name attribute. */
  datatype GeneRecord = GeneRecord(geneName: Option<string>)

  /** The (gene, cell, molecule) triple that identifies one captured molecule. */
  datatype Molecule = Molecule(gene: string, cell: string, molecule: string)

  /** No two names of a name-to-index table share an index. */
  ghost predicate Injective(table: map<string, nat>) {
    forall a, b :: a in table && b in table && table[a] == table[b] ==> a == b
  }

  /** The indices are exactly 0..|table|-1, each used once. */
  ghost predicate Dense(table: map<string, nat>) {
    && Injective(table)
    && forall k :: k in table ==> table[k] < |table|
  }
}
