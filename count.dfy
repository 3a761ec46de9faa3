/**
 * CountMatrix.from_bam as a whole: build the gene table, run the record
 * loop, then derive the shape and the row and column label vectors of the
 * cells x genes count matrix in coordinate form.
 */
module Count {
  import opened Types
  import opened GeneIndex
  import opened MoleculeLoop
  import opened MoleculeRuns
  import opened Labels

  datatype Shape = Shape(rows: nat, columns: nat)

  /**
   * The coordinate triplets (data, row, column) of the count matrix, its
   * shape, and the names of its rows (cell barcodes) and columns (gene names).
   */
  datatype CountMatrix = CountMatrix(
    data: seq<int>,
    cellIndices: seq<nat>,
    geneIndices: seq<nat>,
    shape: Shape,
    rowIndex: seq<string>,
    colIndex: seq<string>)

  /** Every entry's row and column lie inside the matrix's shape. */
  ghost predicate InShape(m: CountMatrix) {
    && (forall i :: 0 <= i < |m.cellIndices| ==> m.cellIndices[i] < m.shape.rows)
    && (forall i :: 0 <= i < |m.geneIndices| ==> m.geneIndices[i] < m.shape.columns)
  }

  /** Every emitted row index is below the row count of the shape, the number of entries. */
  predicate RowsFit(s: LoopState) {
    forall i :: 0 <= i < |s.cellIndices| ==> s.cellIndices[i] < |s.cellIndices|
  }

  /** Every emitted column index is below the column count of the shape, the number of gene names. */
  predicate ColumnsFit(geneIdToIndex: map<string, nat>, s: LoopState) {
    forall i :: 0 <= i < |s.geneIndices| ==> s.geneIndices[i] < |geneIdToIndex|
  }

  /**
   * The matrix step: the shape is (number of emitted entries, number of gene
   * names); the coordinate matrix refuses a row or column index that is not
   * below the shape; the label vectors list the names of the two tables in
   * order of their index.
   */
  function Assemble(geneIdToIndex: map<string, nat>, s: LoopState): (r: Result<CountMatrix>)
    requires Injective(geneIdToIndex) && Injective(s.cellIdToIndex)
    ensures r.Err? ==> r.error.RowIndexExceedsShape? || r.error.ColumnIndexExceedsShape?
    ensures r.Ok? ==> InShape(r.value)
    ensures r.Ok? ==> r.value.data == s.data && r.value.cellIndices == s.cellIndices
                      && r.value.geneIndices == s.geneIndices
    ensures r.Ok? ==> |r.value.rowIndex| == |s.cellIdToIndex| && |r.value.colIndex| == |geneIdToIndex|
    ensures r.Ok? <==> RowsFit(s) && ColumnsFit(geneIdToIndex, s)
    ensures !RowsFit(s) ==> r == Err(RowIndexExceedsShape)
    ensures r.Ok? ==> r.value.shape == Shape(|s.cellIndices|, |geneIdToIndex|)
  {
    if !RowsFit(s) then Err(RowIndexExceedsShape)
    else if !ColumnsFit(geneIdToIndex, s) then Err(ColumnIndexExceedsShape)
    else
      Ok(CountMatrix(s.data, s.cellIndices, s.geneIndices, Shape(|s.cellIndices|, |geneIdToIndex|),
                     KeysByIndex(s.cellIdToIndex), KeysByIndex(geneIdToIndex)))
  }

  /** The label vectors of an assembled matrix are the two tables' names in order of index. */
  lemma AssembledLabels(geneIdToIndex: map<string, nat>, s: LoopState)
    requires Injective(geneIdToIndex) && Injective(s.cellIdToIndex)
    requires Assemble(geneIdToIndex, s).Ok?
    ensures Assemble(geneIdToIndex, s).value.rowIndex == KeysByIndex(s.cellIdToIndex)
    ensures Assemble(geneIdToIndex, s).value.colIndex == KeysByIndex(geneIdToIndex)
    ensures Assemble(geneIdToIndex, s).value.shape == Shape(|s.cellIndices|, |geneIdToIndex|)
  {
  }

  /** What from_bam returns for the given gene records and alignment records, or the error it raises. */
  function FromBamSpec(genes: seq<GeneRecord>, records: seq<Record>, mapqThreshold: int): (r: Result<CountMatrix>)
    ensures r.Ok? ==> InShape(r.value) && |r.value.data| == |r.value.cellIndices| == |r.value.geneIndices|
    ensures r.Ok? ==> forall i :: 0 <= i < |r.value.data| ==> r.value.data[i] == 1
    ensures r.Err? ==> r.error.MalformedGtf? || r.error.UnknownGene? || r.error.ColumnIndexExceedsShape?
  {
    match GeneIndexOf(genes)
    case Err(e) => Err(e)
    case Ok(geneIdToIndex) =>
      match Run(geneIdToIndex, mapqThreshold, records)
      case Err(e) => Err(e)
      case Ok(s) =>
        GeneIndexInjective(genes);
        RunValid(geneIdToIndex, mapqThreshold, records);
        assert RowsFit(s);
        Assemble(geneIdToIndex, s)
  }

  /** from_bam is the assembly of its gene table and its loop's final state, when both exist. */
  lemma FromBamOfParts(genes: seq<GeneRecord>, records: seq<Record>, mapqThreshold: int,
                       table: map<string, nat>, s: LoopState)
    requires GeneIndexOf(genes) == Ok(table)
    requires Run(table, mapqThreshold, records) == Ok(s)
    ensures Injective(table) && Injective(s.cellIdToIndex)
    ensures FromBamSpec(genes, records, mapqThreshold) == Assemble(table, s)
  {
    GeneIndexInjective(genes);
    RunValid(table, mapqThreshold, records);
  }

  /** A successful from_bam is the assembly of the gene table and the loop's final state. */
  lemma FromBamIsAssembled(genes: seq<GeneRecord>, records: seq<Record>, mapqThreshold: int)
    requires FromBamSpec(genes, records, mapqThreshold).Ok?
    ensures GeneIndexOf(genes).Ok?
    ensures Run(GeneIndexOf(genes).value, mapqThreshold, records).Ok?
    ensures var table := GeneIndexOf(genes).value;
            var s := Run(table, mapqThreshold, records).value;
            && Injective(table) && Valid(table, s)
            && EmitsOnePerRun(table, Runs(records, mapqThreshold), s)
            && Assemble(table, s) == FromBamSpec(genes, records, mapqThreshold)
  {
    var table := GeneIndexOf(genes).value;
    GeneIndexInjective(genes);
    RunEmitsOnePerRun(table, mapqThreshold, records);
    RunValid(table, mapqThreshold, records);
  }

  /** CountMatrix.from_bam, with the default mapping-quality threshold 0. */
  method FromBam(genes: seq<GeneRecord>, records: seq<Record>, mapqThreshold: int := 0)
    returns (r: Result<CountMatrix>)
    ensures r == FromBamSpec(genes, records, mapqThreshold)
  {
    var table := BuildGeneIndex(genes);
    if table.Err? {
      return Err(table.error);
    }
    var geneIdToIndex := table.value;
    var loop := CountMolecules(geneIdToIndex, mapqThreshold, records);
    if loop.Err? {
      return Err(loop.error);
    }
    var s := loop.value;
    GeneIndexInjective(genes);
    RunValid(geneIdToIndex, mapqThreshold, records);

    var geneNumber := |geneIdToIndex|;
    var cellNumber := |s.cellIndices|;
    var shape := Shape(cellNumber, geneNumber);
    if !RowsFit(s) {
      return Err(RowIndexExceedsShape);
    }
    if !ColumnsFit(geneIdToIndex, s) {
      return Err(ColumnIndexExceedsShape);
    }
    var colIndex := KeysByIndex(geneIdToIndex);
    var rowIndex := KeysByIndex(s.cellIdToIndex);
    return Ok(CountMatrix(s.data, s.cellIndices, s.geneIndices, shape, rowIndex, colIndex));
  }

  /** The runs of equal adjacent molecules among the records that pass the filters. */
  function Runs(records: seq<Record>, mapqThreshold: int): seq<Molecule> {
    Heads(QualifyingMolecules(mapqThreshold, records))
  }

  // ----- Failure -------------------------------------------------------------------

  /** `k` is the first run whose gene is named by no gene record. */
  ghost predicate FirstUnannotatedRunAt(genes: seq<GeneRecord>, runs: seq<Molecule>, k: int) {
    && 0 <= k < |runs|
    && !Named(genes, runs[k].gene)
    && forall i :: 0 <= i < k ==> Named(genes, runs[i].gene)
  }

  /** The last gene record named `name` sits at a position not below the number of distinct gene names. */
  ghost predicate PastLastColumn(genes: seq<GeneRecord>, name: string) {
    exists p :: LastNamedAt(genes, name, p) && p >= |GeneNames(genes)|
  }

  /** The loop's column indices fit the column count exactly when no run's gene was last named past it. */
  lemma ColumnsFitUnlessPastLastColumn(genes: seq<GeneRecord>, records: seq<Record>, mapqThreshold: int)
    requires GeneIndexOf(genes).Ok?
    requires Run(GeneIndexOf(genes).value, mapqThreshold, records).Ok?
    ensures var table := GeneIndexOf(genes).value;
            var runs := Runs(records, mapqThreshold);
            (ColumnsFit(table, Run(table, mapqThreshold, records).value)
             <==> forall k :: 0 <= k < |runs| ==> !PastLastColumn(genes, runs[k].gene))
  {
    var table := GeneIndexOf(genes).value;
    var s := Run(table, mapqThreshold, records).value;
    var runs := Runs(records, mapqThreshold);
    GeneIndexMapsNameToLastPosition(genes);
    GeneIndexSizeIsNameCount(genes);
    RunEmitsOnePerRun(table, mapqThreshold, records);
    forall k | 0 <= k < |runs|
      ensures PastLastColumn(genes, runs[k].gene) <==> s.geneIndices[k] >= |table|
    {
      var name := runs[k].gene;
      assert s.geneIndices[k] == table[name] && LastNamedAt(genes, name, table[name]);
      if PastLastColumn(genes, name) {
        var p :| LastNamedAt(genes, name, p) && p >= |GeneNames(genes)|;
        assert p == table[name];
      }
    }
  }

  /**
   * Once the gene table and the loop have succeeded, the coordinate matrix
   * fails exactly when some run's gene was last named at a position past the
   * column count, and it never fails on a row.
   */
  lemma ShapeCheckFails(genes: seq<GeneRecord>, records: seq<Record>, mapqThreshold: int)
    requires GeneIndexOf(genes).Ok?
    requires Run(GeneIndexOf(genes).value, mapqThreshold, records).Ok?
    ensures var r := FromBamSpec(genes, records, mapqThreshold);
            var runs := Runs(records, mapqThreshold);
            && (r.Err? <==> exists k :: 0 <= k < |runs| && PastLastColumn(genes, runs[k].gene))
            && (r.Err? ==> r.error == ColumnIndexExceedsShape)
  {
    var table := GeneIndexOf(genes).value;
    var s := Run(table, mapqThreshold, records).value;
    FromBamOfParts(genes, records, mapqThreshold, table, s);
    assert RowsFit(s) by {
      RunValid(table, mapqThreshold, records);
    }
    ColumnsFitUnlessPastLastColumn(genes, records, mapqThreshold);
  }

  /**
   * from_bam fails exactly when a gene record has no gene_name (reported for
   * the first such record), when a run's gene is named by no gene record
   * (reported for the first such run), or when a run's gene was last named at
   * a position past the column count (the coordinate matrix's column check).
   * The coordinate matrix's row check never fails.
   */
  lemma FromBamFails(genes: seq<GeneRecord>, records: seq<Record>, mapqThreshold: int)
    ensures var r := FromBamSpec(genes, records, mapqThreshold);
            var runs := Runs(records, mapqThreshold);
            && (r.Err? <==> (exists i :: 0 <= i < |genes| && genes[i].geneName.None?)
                            || (exists k :: 0 <= k < |runs| && !Named(genes, runs[k].gene))
                            || (exists k :: 0 <= k < |runs| && PastLastColumn(genes, runs[k].gene)))
            && ((exists i :: 0 <= i < |genes| && genes[i].geneName.None?) ==>
                  r.Err? && r.error.MalformedGtf? && FirstNamelessAt(genes, r.error.position))
            && (r.Err? && r.error.UnknownGene? ==>
                  exists k :: FirstUnannotatedRunAt(genes, runs, k) && r.error == UnknownGene(runs[k].gene))
            && (r.Err? ==> !r.error.RowIndexExceedsShape?)
  {
    GeneIndexFailsOnFirstNameless(genes);
    if GeneIndexOf(genes).Ok? {
      var table := GeneIndexOf(genes).value;
      if Run(table, mapqThreshold, records).Err? {
        LoopFailsOnFirstUnannotatedRun(genes, records, mapqThreshold);
      } else {
        LoopSucceedsWhenAnnotated(genes, records, mapqThreshold);
        ShapeCheckFails(genes, records, mapqThreshold);
      }
    }
  }

  /** When the loop fails, it is on the first run whose gene no gene record names. */
  lemma LoopFailsOnFirstUnannotatedRun(genes: seq<GeneRecord>, records: seq<Record>, mapqThreshold: int)
    requires GeneIndexOf(genes).Ok?
    requires Run(GeneIndexOf(genes).value, mapqThreshold, records).Err?
    ensures var runs := Runs(records, mapqThreshold);
            var e := Run(GeneIndexOf(genes).value, mapqThreshold, records).error;
            && FromBamSpec(genes, records, mapqThreshold) == Err(e)
            && exists k :: FirstUnannotatedRunAt(genes, runs, k) && e == UnknownGene(runs[k].gene)
  {
    var table := GeneIndexOf(genes).value;
    var runs := Runs(records, mapqThreshold);
    var r := Run(table, mapqThreshold, records);
    GeneIndexMapsNameToLastPosition(genes);
    RunEmitsOnePerRun(table, mapqThreshold, records);
    var k :| FirstUnknownGeneAt(table, runs, k) && r.error == UnknownGene(runs[k].gene);
    assert FirstUnannotatedRunAt(genes, runs, k);
  }

  /** Once the gene table exists, the loop succeeds exactly when every run's gene is named. */
  lemma LoopSucceedsWhenAnnotated(genes: seq<GeneRecord>, records: seq<Record>, mapqThreshold: int)
    requires GeneIndexOf(genes).Ok?
    ensures var runs := Runs(records, mapqThreshold);
            Run(GeneIndexOf(genes).value, mapqThreshold, records).Ok?
              == forall k :: 0 <= k < |runs| ==> Named(genes, runs[k].gene)
  {
    var table := GeneIndexOf(genes).value;
    var runs := Runs(records, mapqThreshold);
    GeneIndexMapsNameToLastPosition(genes);
    RunEmitsOnePerRun(table, mapqThreshold, records);
    assert forall k :: 0 <= k < |runs| ==> (runs[k].gene in table <==> Named(genes, runs[k].gene));
  }

  // ----- Success -------------------------------------------------------------------

  /**
   * The cell labels of a loop state that emitted one triplet per run: they
   * are the runs' cells, each once, and the label at an entry's row index is
   * that entry's cell.
   */
  lemma RunCellLabels(geneIdToIndex: map<string, nat>, h: seq<Molecule>, s: LoopState)
    requires EmitsOnePerRun(geneIdToIndex, h, s)
    requires Valid(geneIdToIndex, s)
    ensures Injective(s.cellIdToIndex)
    ensures var labels := KeysByIndex(s.cellIdToIndex);
            && (forall c :: c in labels <==> exists i :: 0 <= i < |h| && h[i].cell == c)
            && (forall i, j :: 0 <= i < j < |labels| ==> labels[i] != labels[j])
            && (forall i :: 0 <= i < |h| ==> s.cellIndices[i] < |labels| && labels[s.cellIndices[i]] == h[i].cell)
            && |labels| <= |s.cellIndices|
  {
    assert Dense(s.cellIdToIndex);
    var labels := KeysByIndex(s.cellIdToIndex);
    KeysByIndexListsEveryKey(s.cellIdToIndex);
    forall c ensures c in labels <==> exists i :: 0 <= i < |h| && h[i].cell == c {
      if c in labels {
        assert c in s.cellIdToIndex;
      }
    }
    DenseLabelsAtTheirIndex(s.cellIdToIndex);
    forall i | 0 <= i < |h|
      ensures s.cellIndices[i] < |labels| && labels[s.cellIndices[i]] == h[i].cell
    {
      var j := s.cellIndices[i];
      assert s.cellIdToIndex[labels[j]] == j == s.cellIdToIndex[h[i].cell];
    }
  }

  /**
   * The triplets of a successful from_bam: one entry per run of equal
   * adjacent qualifying molecules, in stream order; every data value is 1;
   * the row label of each entry is that run's cell barcode; its column is the
   * position of the last gene record carrying that run's gene name.
   */
  lemma FromBamTriplets(genes: seq<GeneRecord>, records: seq<Record>, mapqThreshold: int)
    requires FromBamSpec(genes, records, mapqThreshold).Ok?
    ensures var m := FromBamSpec(genes, records, mapqThreshold).value;
            var runs := Runs(records, mapqThreshold);
            && |m.data| == |runs| && |m.cellIndices| == |runs| && |m.geneIndices| == |runs|
            && (forall i :: 0 <= i < |runs| ==> m.data[i] == 1)
            && (forall i :: 0 <= i < |runs| ==> m.cellIndices[i] < |m.rowIndex| && m.rowIndex[m.cellIndices[i]] == runs[i].cell)
            && (forall i :: 0 <= i < |runs| ==> LastNamedAt(genes, runs[i].gene, m.geneIndices[i]))
  {
    FromBamIsAssembled(genes, records, mapqThreshold);
    var table := GeneIndexOf(genes).value;
    var s := Run(table, mapqThreshold, records).value;
    var runs := Runs(records, mapqThreshold);
    RunCellLabels(table, runs, s);
    AssembledLabels(table, s);
    GeneIndexMapsNameToLastPosition(genes);
  }

  /**
   * The rows of a successful from_bam: the row labels are the distinct cell
   * barcodes of the runs, each once, and there are never more of them than
   * rows.
   */
  lemma FromBamRowLabels(genes: seq<GeneRecord>, records: seq<Record>, mapqThreshold: int)
    requires FromBamSpec(genes, records, mapqThreshold).Ok?
    ensures var m := FromBamSpec(genes, records, mapqThreshold).value;
            var runs := Runs(records, mapqThreshold);
            && m.shape.rows == |m.cellIndices|
            && |m.rowIndex| <= m.shape.rows
            && (forall c :: c in m.rowIndex <==> exists i :: 0 <= i < |runs| && runs[i].cell == c)
            && (forall i, j :: 0 <= i < j < |m.rowIndex| ==> m.rowIndex[i] != m.rowIndex[j])
  {
    FromBamIsAssembled(genes, records, mapqThreshold);
    var table := GeneIndexOf(genes).value;
    var s := Run(table, mapqThreshold, records).value;
    var m := Assemble(table, s).value;
    assert m.rowIndex == KeysByIndex(s.cellIdToIndex) && m.shape.rows == |m.cellIndices| by {
      AssembledLabels(table, s);
    }
    RunCellLabels(table, Runs(records, mapqThreshold), s);
  }

  /**
   * The columns of a successful from_bam: the column labels are the distinct
   * gene names of the gene records, each once, in increasing order of their
   * column, and there are as many columns as labels.
   */
  lemma FromBamColumnLabels(genes: seq<GeneRecord>, records: seq<Record>, mapqThreshold: int)
    requires FromBamSpec(genes, records, mapqThreshold).Ok?
    ensures var m := FromBamSpec(genes, records, mapqThreshold).value;
            var table := GeneIndexOf(genes).value;
            && m.shape.columns == |m.colIndex|
            && (forall name :: name in m.colIndex <==> Named(genes, name))
            && (forall i, j :: 0 <= i < j < |m.colIndex| ==> table[m.colIndex[i]] < table[m.colIndex[j]])
  {
    FromBamIsAssembled(genes, records, mapqThreshold);
    var table := GeneIndexOf(genes).value;
    var s := Run(table, mapqThreshold, records).value;
    AssembledLabels(table, s);
    KeysByIndexListsEveryKey(table);
    GeneIndexMapsNameToLastPosition(genes);
  }

  // ----- Findings -----------------------------------------------------------------

  /**
   * As written, the matrix has one row per emitted entry, not one per cell:
   * two molecules of one cell give a 2-row matrix with a single row label.
   */
  lemma RowCountExceedsRowLabels(g: string, c: string, u1: string, u2: string)
    requires u1 != u2
    ensures var r := FromBamSpec([GeneRecord(Some(g))],
                                 [Record(Some(g), Some(c), Some(u1), 0), Record(Some(g), Some(c), Some(u2), 0)], 0);
            r.Ok? && r.value.shape.rows == 2 && |r.value.rowIndex| == 1
  {
    var genes := [GeneRecord(Some(g))];
    var records := [Record(Some(g), Some(c), Some(u1), 0), Record(Some(g), Some(c), Some(u2), 0)];
    var table := map[g := 0];
    assert GeneIndexOf(genes) == Ok(table) by {
      assert genes[..0] == [];
    }
    TwoMoleculesOfOneCell(g, c, u1, u2);
    var s2 := Run(table, 0, records).value;
    FromBamOfParts(genes, records, 0, table, s2);
    assert RowsFit(s2) && ColumnsFit(table, s2);
    AssembledLabels(table, s2);
  }

  /** The loop over two reads of one cell with different molecule barcodes: two entries, one cell. */
  lemma TwoMoleculesOfOneCell(g: string, c: string, u1: string, u2: string)
    requires u1 != u2
    ensures Run(map[g := 0], 0, [Record(Some(g), Some(c), Some(u1), 0), Record(Some(g), Some(c), Some(u2), 0)])
            == Ok(LoopState([1, 1], [0, 0], [0, 0], map[c := 0], 1, Some(Molecule(g, c, u2))))
  {
    var table := map[g := 0];
    var first := Record(Some(g), Some(c), Some(u1), 0);
    var second := Record(Some(g), Some(c), Some(u2), 0);
    var s1 := LoopState([1], [0], [0], map[c := 0], 1, Some(Molecule(g, c, u1)));
    assert Run(table, 0, [first]) == Ok(s1) by {
      FirstQualifyingRecordEmitted(table, 0, [], first);
      assert [] + [first] == [first];
    }
    RunSnoc(table, 0, [first], second);
    assert [first] + [second] == [first, second];
    assert [1] + [1] == [1, 1] && [0] + [0] == [0, 0];
  }

  /**
   * The intended shape: one row per distinct cell, so that the rows and the
   * row labels correspond one to one and every entry's row is in range.
   */
  function IntendedShape(geneIdToIndex: map<string, nat>, s: LoopState): (shape: Shape)
    requires Valid(geneIdToIndex, s)
    ensures shape.rows == |KeysByIndex(s.cellIdToIndex)|
    ensures forall i :: 0 <= i < |s.cellIndices| ==> s.cellIndices[i] < shape.rows
  {
    Shape(|s.cellIdToIndex|, |geneIdToIndex|)
  }

  /** Gene records a, b, a: a keeps its last position 2 although there are only 2 names. */
  lemma RepeatedGeneTable(a: string, b: string)
    requires a != b
    ensures GeneIndexOf([GeneRecord(Some(a)), GeneRecord(Some(b)), GeneRecord(Some(a))])
            == Ok(map[a := 2, b := 1])
  {
    var genes := [GeneRecord(Some(a)), GeneRecord(Some(b)), GeneRecord(Some(a))];
    assert genes[..1][..0] == [];
    assert genes[..2][..1] == genes[..1];
    assert genes[..3][..2] == genes[..2];
    assert genes[..3] == genes;
    assert GeneIndexOf(genes[..1]) == Ok(map[a := 0]);
    assert GeneIndexOf(genes[..2]) == Ok(map[a := 0, b := 1]);
    assert map[a := 0, b := 1][a := 2] == map[a := 2, b := 1];
  }

  /** A table of two names lists the one with the smaller index first. */
  lemma TwoLabels(table: map<string, nat>, a: string, b: string)
    requires table.Keys == {a, b} && a != b
    requires table[a] < table[b]
    ensures Injective(table) && |table| == 2
    ensures KeysByIndex(table) == [a, b]
  {
    var labels := KeysByIndex(table);
    var x, y := labels[0], labels[1];
    assert x in table.Keys && y in table.Keys;
    assert table[x] < table[y];
    assert x == a && y == b;
    assert labels == [x, y];
  }

  /** The loop over a single qualifying read. */
  lemma OneRead(table: map<string, nat>, read: Record)
    requires MoleculeOf(read).Some? && read.mappingQuality >= 0 && read.gene.value in table
    ensures Run(table, 0, [read])
            == Ok(LoopState([1], [0], [table[read.gene.value]], map[read.cell.value := 0], 1, MoleculeOf(read)))
  {
    FirstQualifyingRecordEmitted(table, 0, [], read);
    assert [] + [read] == [read];
  }

  /**
   * As written, a repeated gene_name shifts the column labels: with gene
   * records a, b, a there are two columns labelled b, a, and a read of gene b
   * is put in column 1, whose label is a.
   */
  lemma RepeatedGeneNameMislabelsColumn(a: string, b: string, c: string, u: string)
    requires a != b
    ensures var r := FromBamSpec([GeneRecord(Some(a)), GeneRecord(Some(b)), GeneRecord(Some(a))],
                                 [Record(Some(b), Some(c), Some(u), 0)], 0);
            r.Ok? && r.value.geneIndices == [1] && r.value.colIndex == [b, a]
  {
    var genes := [GeneRecord(Some(a)), GeneRecord(Some(b)), GeneRecord(Some(a))];
    var read := Record(Some(b), Some(c), Some(u), 0);
    var table := map[a := 2, b := 1];
    RepeatedGeneTable(a, b);
    OneRead(table, read);
    var s1 := Run(table, 0, [read]).value;
    FromBamOfParts(genes, [read], 0, table, s1);
    TwoLabels(table, b, a);
    assert RowsFit(s1) && ColumnsFit(table, s1);
    AssembledLabels(table, s1);
  }

  /**
   * As written, a read of a gene whose last record sits past the column count
   * makes the coordinate matrix refuse the column: with gene records a, b, a
   * a read of gene a is put in column 2 of a 2-column matrix.
   */
  lemma RepeatedGeneNameExceedsColumns(a: string, b: string, c: string, u: string)
    requires a != b
    ensures FromBamSpec([GeneRecord(Some(a)), GeneRecord(Some(b)), GeneRecord(Some(a))],
                        [Record(Some(a), Some(c), Some(u), 0)], 0)
            == Err(ColumnIndexExceedsShape)
  {
    var genes := [GeneRecord(Some(a)), GeneRecord(Some(b)), GeneRecord(Some(a))];
    var read := Record(Some(a), Some(c), Some(u), 0);
    var table := map[a := 2, b := 1];
    RepeatedGeneTable(a, b);
    OneRead(table, read);
    var s1 := Run(table, 0, [read]).value;
    FromBamOfParts(genes, [read], 0, table, s1);
    assert |table| == 2 by {
      assert table.Keys == {a, b};
    }
    assert s1.geneIndices[0] >= |table|;
    assert RowsFit(s1) && !ColumnsFit(table, s1);
  }

  /**
   * The intended gene table: each distinct gene_name takes the next free
   * column in order of its first gene record, so columns are numbered densely.
   */
  function DenseGeneIndexOf(genes: seq<GeneRecord>): (r: Result<map<string, nat>>)
    ensures r.Ok? ==> Dense(r.value)
    decreases |genes|
  {
    if |genes| == 0 then Ok(map[])
    else
      var last := |genes| - 1;
      match DenseGeneIndexOf(genes[..last])
      case Err(e) => Err(e)
      case Ok(table) =>
        match genes[last].geneName
        case None => Err(MalformedGtf(last))
        case Some(name) =>
          if name in table then Ok(table)
          else
            assert table[name := |table|].Keys == table.Keys + {name};
            Ok(table[name := |table|])
  }

  /** The intended table fails exactly as the written one does and holds the same gene names. */
  lemma {:induction false} DenseGeneIndexSameNames(genes: seq<GeneRecord>)
    ensures DenseGeneIndexOf(genes).Err? <==> GeneIndexOf(genes).Err?
    ensures DenseGeneIndexOf(genes).Err? ==> DenseGeneIndexOf(genes).error == GeneIndexOf(genes).error
    ensures DenseGeneIndexOf(genes).Ok? ==> DenseGeneIndexOf(genes).value.Keys == GeneIndexOf(genes).value.Keys
    decreases |genes|
  {
    if |genes| > 0 {
      DenseGeneIndexSameNames(genes[..|genes| - 1]);
    }
  }

  /**
   * With the intended table every emitted column is below the number of
   * columns, and the column label at an entry's column is that entry's gene.
   */
  lemma DenseGeneIndexFitsColumns(genes: seq<GeneRecord>, records: seq<Record>, mapqThreshold: int)
    requires DenseGeneIndexOf(genes).Ok?
    requires Run(DenseGeneIndexOf(genes).value, mapqThreshold, records).Ok?
    ensures var table := DenseGeneIndexOf(genes).value;
            var s := Run(table, mapqThreshold, records).value;
            var runs := Runs(records, mapqThreshold);
            |s.geneIndices| == |runs| &&
            forall i :: 0 <= i < |runs| ==>
              s.geneIndices[i] < |table| && KeysByIndex(table)[s.geneIndices[i]] == runs[i].gene
  {
    var table := DenseGeneIndexOf(genes).value;
    RunEmitsOnePerRun(table, mapqThreshold, records);
    DenseLabelsAtTheirIndex(table);
    var labels := KeysByIndex(table);
    var s := Run(table, mapqThreshold, records).value;
    var runs := Runs(records, mapqThreshold);
    forall i | 0 <= i < |runs|
      ensures s.geneIndices[i] < |table| && labels[s.geneIndices[i]] == runs[i].gene
    {
      var j := s.geneIndices[i];
      assert table[labels[j]] == j == table[runs[i].gene];
    }
  }
}
