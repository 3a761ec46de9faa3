/**
 * The record loop of from_bam: reads are filtered on their tags and mapping
 * quality, adjacent repeats of the last emitted molecule are skipped, cells
 * are numbered in the order they are first seen, and one (1, cell index, gene
 * index) triplet is emitted per remaining read.
 */
module MoleculeLoop {
  import opened Types

  /** The loop's variables: the three triplet lists, the cell table, its size and the last emitted molecule. */
  datatype LoopState = LoopState(
    data: seq<int>,
    cellIndices: seq<nat>,
    geneIndices: seq<nat>,
    cellIdToIndex: map<string, nat>,
    nCells: nat,
    currentMolecule: Option<Molecule>)

  /** The state before the first record: empty lists, no cells, no molecule yet. */
  const Start := LoopState([], [], [], map[], 0, None)

  /** The record's molecule key, when it carries all three tags. */
  function MoleculeOf(rec: Record): (r: Option<Molecule>)
    ensures r.Some? <==> rec.gene.Some? && rec.cell.Some? && rec.molecule.Some?
    ensures r.Some? ==> Some(r.value.gene) == rec.gene && Some(r.value.cell) == rec.cell
                        && Some(r.value.molecule) == rec.molecule
  {
    if rec.gene.Some? && rec.cell.Some? && rec.molecule.Some? then
      Some(Molecule(rec.gene.value, rec.cell.value, rec.molecule.value))
    else None
  }

  /** The record passes both filters: all three tags, and a mapping quality not below the threshold. */
  predicate Qualifies(threshold: int, rec: Record) {
    MoleculeOf(rec).Some? && rec.mappingQuality >= threshold
  }

  /** One iteration of the loop, or the KeyError for a gene missing from the gene table. */
  function Step(geneIdToIndex: map<string, nat>, threshold: int, s: LoopState, rec: Record): (r: Result<LoopState>)
    ensures r.Err? <==> Qualifies(threshold, rec) && s.currentMolecule != MoleculeOf(rec)
                        && MoleculeOf(rec).value.gene !in geneIdToIndex
    ensures r.Err? ==> r.error == UnknownGene(MoleculeOf(rec).value.gene)
    ensures r.Ok? && !Qualifies(threshold, rec) ==> r.value == s
    ensures r.Ok? && Qualifies(threshold, rec) ==> r.value.currentMolecule == MoleculeOf(rec)
    ensures r.Ok? ==> |s.data| <= |r.value.data| <= |s.data| + 1
  {
    match MoleculeOf(rec)
    case None => Ok(s)
    case Some(mol) =>
      if rec.mappingQuality < threshold then Ok(s)
      else if s.currentMolecule == Some(mol) then Ok(s)
      else if mol.gene !in geneIdToIndex then Err(UnknownGene(mol.gene))
      else
        var geneIndex := geneIdToIndex[mol.gene];
        if mol.cell in s.cellIdToIndex then
          Ok(LoopState(s.data + [1], s.cellIndices + [s.cellIdToIndex[mol.cell]], s.geneIndices + [geneIndex],
                       s.cellIdToIndex, s.nCells, Some(mol)))
        else
          Ok(LoopState(s.data + [1], s.cellIndices + [s.nCells], s.geneIndices + [geneIndex],
                       s.cellIdToIndex[mol.cell := s.nCells], s.nCells + 1, Some(mol)))
  }

  /** The loop run over a whole record stream (a left fold of Step); the first error ends it. */
  function Run(geneIdToIndex: map<string, nat>, threshold: int, records: seq<Record>): (r: Result<LoopState>)
    ensures r.Err? ==> r.error.UnknownGene?
    ensures r.Ok? ==> |r.value.data| <= |records|
    decreases |records|
  {
    if |records| == 0 then Ok(Start)
    else
      match Run(geneIdToIndex, threshold, records[..|records| - 1])
      case Err(e) => Err(e)
      case Ok(s) => Step(geneIdToIndex, threshold, s, records[|records| - 1])
  }

  /** The record loop, over the records of the alignment file in order. */
  method CountMolecules(geneIdToIndex: map<string, nat>, mapqThreshold: int, records: seq<Record>)
    returns (r: Result<LoopState>)
    ensures r == Run(geneIdToIndex, mapqThreshold, records)
  {
    var data: seq<int> := [];
    var cellIndices: seq<nat> := [];
    var geneIndices: seq<nat> := [];
    var nCells: nat := 0;
    var cellIdToIndex: map<string, nat> := map[];
    var currentMolecule: Option<Molecule> := None;

    var i := 0;
    while i < |records|
      invariant 0 <= i <= |records|
      invariant Run(geneIdToIndex, mapqThreshold, records[..i])
                == Ok(LoopState(data, cellIndices, geneIndices, cellIdToIndex, nCells, currentMolecule))
    {
      var samRecord := records[i];
      assert records[..i + 1][..i] == records[..i];
      i := i + 1;
      if samRecord.gene.None? || samRecord.cell.None? || samRecord.molecule.None? {
        continue;
      }
      var gene, cell, molecule := samRecord.gene.value, samRecord.cell.value, samRecord.molecule.value;
      if samRecord.mappingQuality < mapqThreshold {
        continue;
      }
      if currentMolecule == Some(Molecule(gene, cell, molecule)) {
        continue;
      }
      if gene !in geneIdToIndex {
        RunErrorPersists(geneIdToIndex, mapqThreshold, records, i);
        return Err(UnknownGene(gene));
      }
      var geneIndex := geneIdToIndex[gene];
      var cellIndex: nat;
      if cell in cellIdToIndex {
        cellIndex := cellIdToIndex[cell];
      } else {
        cellIndex := nCells;
        cellIdToIndex := cellIdToIndex[cell := nCells];
        nCells := nCells + 1;
      }
      data := data + [1];
      cellIndices := cellIndices + [cellIndex];
      geneIndices := geneIndices + [geneIndex];
      currentMolecule := Some(Molecule(gene, cell, molecule));
    }
    assert records[..i] == records;
    return Ok(LoopState(data, cellIndices, geneIndices, cellIdToIndex, nCells, currentMolecule));
  }

  /** An error in a prefix of the stream is the error of the whole run. */
  lemma {:induction false} RunErrorPersists(geneIdToIndex: map<string, nat>, threshold: int, records: seq<Record>, k: nat)
    requires k <= |records|
    requires Run(geneIdToIndex, threshold, records[..k]).Err?
    ensures Run(geneIdToIndex, threshold, records) == Run(geneIdToIndex, threshold, records[..k])
    decreases |records|
  {
    if k < |records| {
      var last := |records| - 1;
      assert records[..last][..k] == records[..k];
      RunErrorPersists(geneIdToIndex, threshold, records[..last], k);
    } else {
      assert records[..k] == records;
    }
  }

  /** Every index in 0..n-1 is used by exactly one cell, and no other index is used. */
  ghost predicate DenseNumbering(table: map<string, nat>, n: nat) {
    && |table| == n
    && Dense(table)
    && (forall j :: 0 <= j < n ==> j in table.Values)
  }

  /** What holds of the loop variables after every iteration. */
  ghost predicate Valid(geneIdToIndex: map<string, nat>, s: LoopState) {
    && |s.data| == |s.cellIndices| == |s.geneIndices|
    && (forall i :: 0 <= i < |s.data| ==> s.data[i] == 1)
    && DenseNumbering(s.cellIdToIndex, s.nCells)
    && (forall i :: 0 <= i < |s.cellIndices| ==> s.cellIndices[i] < s.nCells)
    && (forall i :: 0 <= i < |s.geneIndices| ==> s.geneIndices[i] in geneIdToIndex.Values)
    && s.nCells <= |s.cellIndices|
    && (s.currentMolecule.None? <==> |s.data| == 0)
    && (s.currentMolecule.Some? ==> s.currentMolecule.value.cell in s.cellIdToIndex)
  }

  /** Giving a new cell the next index keeps the numbering dense. */
  lemma NewCellKeepsNumberingDense(table: map<string, nat>, n: nat, cell: string)
    requires DenseNumbering(table, n) && cell !in table
    ensures DenseNumbering(table[cell := n], n + 1)
  {
    var extended := table[cell := n];
    assert extended.Keys == table.Keys + {cell};
    forall j | 0 <= j < n + 1 ensures j in extended.Values {
      if j < n {
        assert j in table.Values;
        var c :| c in table && table[c] == j;
        assert c in extended && extended[c] == j;
      } else {
        assert extended[cell] == j;
      }
    }
  }

  lemma StepValid(geneIdToIndex: map<string, nat>, threshold: int, s: LoopState, rec: Record)
    requires Valid(geneIdToIndex, s)
    requires Step(geneIdToIndex, threshold, s, rec).Ok?
    ensures Valid(geneIdToIndex, Step(geneIdToIndex, threshold, s, rec).value)
  {
    var t := Step(geneIdToIndex, threshold, s, rec).value;
    if t != s {
      var mol := MoleculeOf(rec).value;
      assert t.data == s.data + [1];
      assert t.geneIndices == s.geneIndices + [geneIdToIndex[mol.gene]];
      if mol.cell !in s.cellIdToIndex {
        NewCellKeepsNumberingDense(s.cellIdToIndex, s.nCells, mol.cell);
        assert t.cellIndices == s.cellIndices + [s.nCells];
      } else {
        assert t.cellIndices == s.cellIndices + [s.cellIdToIndex[mol.cell]];
      }
    }
  }

  /**
   * After any prefix of the stream: the three lists have one entry per emitted
   * molecule, every data entry is 1, the cell table numbers its n_cells cells
   * densely and injectively, every emitted index is a valid cell or gene index,
   * and there are at least as many entries as cells.
   */
  lemma {:induction false} RunValid(geneIdToIndex: map<string, nat>, threshold: int, records: seq<Record>)
    requires Run(geneIdToIndex, threshold, records).Ok?
    ensures Valid(geneIdToIndex, Run(geneIdToIndex, threshold, records).value)
    decreases |records|
  {
    if |records| > 0 {
      var prefix := records[..|records| - 1];
      RunValid(geneIdToIndex, threshold, prefix);
      StepValid(geneIdToIndex, threshold, Run(geneIdToIndex, threshold, prefix).value, records[|records| - 1]);
    }
  }
}
