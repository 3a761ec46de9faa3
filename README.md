# A verified model of `CountMatrix.from_bam`

`CountMatrix.from_bam` in sctools builds a cells × genes molecule-count
matrix. Its input is an alignment file sorted by cell, molecule and gene,
whose reads carry a cell-barcode tag (CB), a molecule-barcode tag (UB) and a
gene tag (GE), plus a GTF annotation. It works in three steps:

1. **Gene table.** Every annotation record of type `gene` gets its position
   in the sequence of gene records as its column index, keyed by its
   `gene_name`. A later record with the same name overwrites the earlier
   entry. A gene record without a `gene_name` raises `ValueError`.
2. **Record loop.** Each read is checked in turn:
   - It is dropped if it lacks one of the three tags, or if its mapping
     quality is below the threshold.
   - It is skipped if its (gene, cell, molecule) equals the last molecule
     emitted.
   - Otherwise it emits one triplet (1, cell index, gene index). Cells are
     numbered in the order they are first seen.
   - A gene missing from the gene table raises `KeyError`.
3. **Matrix.**
   - The shape is (number of emitted entries, number of gene names).
   - The coordinate matrix rejects any row or column index that is not below
     the shape.
   - The row and column label vectors list the cell and gene tables' names
     in order of their index.

The modules follow those steps:

- `Types` (types.dfy): the records, the molecule key, the errors and
  `Option`/`Result`.
- `GeneIndex` (gene_index.dfy): the gene table. The fold `GeneIndexOf`
  specifies it. The method `BuildGeneIndex` is the loop at lines 119-125,
  proved equal to the fold.
- `MoleculeLoop` (molecule_loop.dfy): the record loop. `Step`/`Run` specify
  it as a left fold. The method `CountMolecules` is the loop at lines
  128-171, proved equal to it. `Valid` is the invariant that the loop keeps.
- `MoleculeRuns` (molecule_runs.dfy): what the loop emits, in closed form.
  It states the filtering, de-duplication into runs of equal adjacent
  molecules, and cell numbering.
- `Labels` (labels.dfy): the label vectors, a table's names listed in order
  of their index.
- `Count` (count.dfy): `from_bam` as a whole. The function `FromBamSpec`
  specifies it and the method `FromBam` implements it. The file also holds
  the lemmas on failure and success, and the findings below.

Errors are values of `Result`:

- `MalformedGtf(position)`: the `ValueError` of lines 121-124.
- `UnknownGene(gene)`: the `KeyError` of line 155.
- `RowIndexExceedsShape` / `ColumnIndexExceedsShape`: the index checks that
  the scipy coordinate matrix performs at lines 179-180.

## Model

| member | source | states |
|---|---|---|
| GeneIndex.GeneIndexOf | src/sctools/count.py:115-125 | every index in the gene table is below the number of gene records; the only failure is a nameless gene record at a position among them |
| GeneIndex.BuildGeneIndex | src/sctools/count.py:115-125 | the loop yields exactly the gene table of the fold, or its error |
| GeneIndex.GeneIndexFailsOnFirstNameless | src/sctools/count.py:119-124 | the table fails exactly when some gene record has no gene_name, and then reports the position of the first such record |
| GeneIndex.GeneIndexMapsNameToLastPosition | src/sctools/count.py:119-125 | the table's names are exactly the gene_names of the gene records, and each name maps to the position of the last record carrying it |
| GeneIndex.GeneIndexInjective | src/sctools/count.py:119-125 | distinct names get distinct indices |
| GeneIndex.GeneIndexSizeIsNameCount | src/sctools/count.py:174 | the table holds one entry per distinct gene_name, so the column count is the number of distinct names |
| GeneIndex.DistinctNamesFillEveryColumn | src/sctools/count.py:119-125 | when every gene record has its own gene_name, the table exists, has one entry per record, and every index is below its size |
| MoleculeLoop.MoleculeOf | src/sctools/count.py:139-144 | a read yields a molecule exactly when it has all three tags, and the molecule is made of those tags |
| MoleculeLoop.Step | src/sctools/count.py:138-171 | one read fails exactly when it passes both filters, is not the molecule just emitted, and has a gene missing from the gene table, and the error names that gene; a dropped read leaves the state unchanged; a qualifying read becomes the current molecule; at most one entry is added |
| MoleculeLoop.Run | src/sctools/count.py:136-171 | the loop over a stream fails only with an unknown gene, and emits at most one entry per read |
| MoleculeLoop.CountMolecules | src/sctools/count.py:128-171 | the loop yields exactly the final state of the fold of Step over the reads, or the first KeyError |
| MoleculeLoop.RunValid | src/sctools/count.py:158-168 | after any prefix: the three lists have equal length; every data value is 1; the cell table numbers its n_cells cells densely and injectively; every cell index is below n_cells; n_cells is at most the number of entries |
| MoleculeRuns.Qualifying | src/sctools/count.py:139-148 | the reads that survive the filters all have three tags and a mapping quality at or above the threshold |
| MoleculeRuns.DroppedRecordsContributeNothing | src/sctools/count.py:139-148 | the run over the whole stream equals the run over the surviving reads alone, state included |
| MoleculeRuns.DroppedRecordChangesNothing | src/sctools/count.py:139-148 | removing one dropped read from anywhere in the stream changes nothing |
| MoleculeRuns.DefaultThresholdDropsOnlyUntagged | src/sctools/count.py:147-148 | with the default threshold 0 and non-negative mapping qualities, only the tag filter drops reads |
| MoleculeRuns.StepSameMolecule | src/sctools/count.py:147-152 | after a qualifying read, a read of the same (gene, cell, molecule) leaves the loop state unchanged, whatever its mapping quality |
| MoleculeRuns.RepeatedMoleculeCollapses | src/sctools/count.py:151-152 | any read of the molecule just emitted adds nothing, whatever its mapping quality and even with dropped reads between the two |
| MoleculeRuns.FirstQualifyingRecordEmitted | src/sctools/count.py:132 | the first surviving read is always emitted, as cell 0 with one entry |
| MoleculeRuns.HeadsCoverAll | src/sctools/count.py:150-152 | de-duplication loses no molecule: the run heads hold every surviving molecule |
| MoleculeRuns.RunEmitsOnePerRun | src/sctools/count.py:136-171 | the loop succeeds exactly when every run's gene is in the gene table; it then emits one (1, cell index, gene index) triplet per run of equal adjacent molecules, in order, with gene index gene_id_to_index[gene]; its cell table holds exactly the runs' cells; otherwise it fails on the first run whose gene is unknown |
| MoleculeRuns.SortedStreamCountsEachMoleculeOnce | src/sctools/count.py:54-56 | on a stream whose reads of each molecule are adjacent, there is exactly one entry per distinct surviving molecule |
| MoleculeRuns.CellIndexNeverChanges | src/sctools/count.py:158-163 | once a cell has an index, later reads never change it |
| MoleculeRuns.CellsNumberedInFirstSeenOrder | src/sctools/count.py:158-163 | a surviving read's cell keeps its index, or, if new, gets the number of cells seen before it, and keeps it to the end |
| Labels.KeysByIndex | src/sctools/count.py:183-184 | the labels are as many names of the table as it holds, in strictly increasing order of their index |
| Labels.KeysByIndexListsEveryKey | src/sctools/count.py:183-184 | every name of the table is among its labels |
| Labels.DenseLabelsAtTheirIndex | src/sctools/count.py:184 | when the indices are 0..n-1, position i holds the name whose index is i |
| Count.Assemble | src/sctools/count.py:174-186 | the matrix exists exactly when every row index is below the number of entries and every column index below the number of gene names, and the row check is made first; the shape is (number of entries, number of gene names); a successful matrix has its entries inside its shape, the loop's triplets, and one label per table name |
| Count.FromBamSpec | src/sctools/count.py:110-187 | a successful result has triplet lists of equal length, every data value 1 and every entry inside the shape; a failure is a nameless gene record, an unknown gene or a column past the column count, never a row |
| Count.FromBam | src/sctools/count.py:110-187 | the method returns exactly what FromBamSpec, the composition of the three steps, defines |
| Count.ShapeCheckFails | src/sctools/count.py:174-180 | after the table and the loop succeed, the matrix fails exactly when some run's gene was last named at a position not below the column count, and then with the column error |
| Count.FromBamFails | src/sctools/count.py:121-180 | from_bam fails exactly when a gene record has no gene_name (reported for the first one), when a run's gene is named by no gene record (reported for the first such run), or when a run's gene was last named past the column count; the row check never fails |
| Count.LoopFailsOnFirstUnannotatedRun | src/sctools/count.py:155 | a failing loop fails on the first run whose gene no gene record names |
| Count.LoopSucceedsWhenAnnotated | src/sctools/count.py:155-168 | the loop succeeds exactly when every run's gene is named by some gene record |
| Count.FromBamTriplets | src/sctools/count.py:155-168 | a successful result has one entry per run; every data value is 1; the row label at each entry's row is the run's cell; each column is the position of the last gene record carrying the run's gene |
| Count.FromBamRowLabels | src/sctools/count.py:184 | the row labels are the runs' distinct cells, each once, and never more than the rows |
| Count.FromBamColumnLabels | src/sctools/count.py:183 | the column labels are the distinct gene names, each once, in increasing order of column, as many as the columns |
| Count.RowCountExceedsRowLabels | src/sctools/count.py:175-176 | as written: two molecules of one cell give 2 rows but 1 row label |
| Count.IntendedShape | src/sctools/count.py:175-176 | corrected: one row per cell, as many rows as row labels, every entry's row in range |
| Count.RepeatedGeneTable | src/sctools/count.py:119-125 | gene records a, b, a give the table {a: 2, b: 1} |
| Count.RepeatedGeneNameMislabelsColumn | src/sctools/count.py:183 | as written: with gene records a, b, a, a read of b goes to column 1, whose label is a |
| Count.RepeatedGeneNameExceedsColumns | src/sctools/count.py:179-180 | as written: with gene records a, b, a, a read of a gets column 2 of a 2-column matrix, and the matrix is refused |
| Count.DenseGeneIndexOf | src/sctools/count.py:119-125 | corrected: each new gene_name takes the next free column, so columns are dense |
| Count.DenseGeneIndexSameNames | src/sctools/count.py:119-125 | the corrected table fails exactly as the written one does and holds the same names |
| Count.DenseGeneIndexFitsColumns | src/sctools/count.py:174-183 | with the corrected table every column is below the column count, and the label at each entry's column is its gene |

## Left out

- Reading the BAM file (pysam, lines 134-136) and parsing and filtering the
  GTF file (`gtf.Reader`, lines 116 and 119): file I/O through foreign
  libraries.
  - The reads become a sequence of `Record`s. The three tags are its
    optional fields, so the tag-name parameters and `open_mode` play no
    part.
  - The annotation becomes the sequence of its records of type `gene`.
  - Tag values are strings.
- The scipy sparse matrix itself: the `uint32` dtype, the CSR conversion
  (which sums duplicate coordinates) and numpy arrays.
  - Only the triplets, the shape, the labels and the one check that the
    coordinate matrix makes are modelled. That check is that every index is
    below the shape.
  - Indices are natural numbers, so the negative-index check cannot arise.
- `save`, `load`, `from_mtx` and `merge_matrices`: file I/O and stacking
  wrappers with no logic of their own.
- The order of `sorted` for ties. `Labels.KeysByIndex` requires an injective
  table, which both tables are, so no ties occur.
- The sort order of the alignment file is not checked by from_bam. It is
  stated as the predicate `Grouped` (the reads of each molecule are
  adjacent), the hypothesis of `MoleculeRuns.SortedStreamCountsEachMoleculeOnce`.

## Findings

| source | as written | input that shows it | evidently intended | confidence | as-written member | corrected member |
|---|---|---|---|---|---|---|
| src/sctools/count.py:175-176 | the row count is `len(cell_indices)`, the number of entries | gene record g; two reads of gene g, cell c, molecules u1 and u2: 2 rows, 1 row label | one row per cell, `n_cells` rows, matching the row labels | medium, not executed | Count.RowCountExceedsRowLabels | Count.IntendedShape |
| src/sctools/count.py:119-125 | a repeated gene_name keeps the position of its last record, while the column count is the number of distinct names | gene records a, b, a: a read of b lands in column 1, labelled a; a read of a lands in column 2 of a 2-column matrix, which scipy refuses | dense columns, one per distinct name | medium, not executed | Count.RepeatedGeneNameMislabelsColumn, Count.RepeatedGeneNameExceedsColumns | Count.DenseGeneIndexOf, Count.DenseGeneIndexFitsColumns |

`FromBam` keeps the behaviour as written. The corrected definitions stand
beside it with their properties proved.
