/**
 * What the record loop emits, stated without the loop: the reads that pass
 * the filters, split into maximal runs of equal adjacent molecules, give one
 * triplet per run; dropped reads change nothing; cells are numbered in the
 * order they are first seen.
 */
module MoleculeRuns {
  import opened Types
  import opened MoleculeLoop

  /** Run over a stream extended by one record is one more Step. */
  lemma RunSnoc(geneIdToIndex: map<string, nat>, threshold: int, records: seq<Record>, rec: Record)
    ensures Run(geneIdToIndex, threshold, records + [rec])
            == if Run(geneIdToIndex, threshold, records).Err? then Run(geneIdToIndex, threshold, records)
               else Step(geneIdToIndex, threshold, Run(geneIdToIndex, threshold, records).value, rec)
  {
    assert (records + [rec])[..|records|] == records;
  }

  // ----- Filtering -----------------------------------------------------------

  /** The records that pass both the tag filter and the quality filter, in stream order. */
  function Qualifying(threshold: int, records: seq<Record>): (r: seq<Record>)
    ensures |r| <= |records|
    ensures forall i :: 0 <= i < |r| ==> Qualifies(threshold, r[i])
    decreases |records|
  {
    if |records| == 0 then []
    else
      var prefix, last := records[..|records| - 1], records[|records| - 1];
      Qualifying(threshold, prefix) + (if Qualifies(threshold, last) then [last] else [])
  }

  /** The records that carry all three tags (the tag filter alone). */
  function Tagged(records: seq<Record>): (r: seq<Record>)
    ensures |r| <= |records|
    ensures forall i :: 0 <= i < |r| ==> MoleculeOf(r[i]).Some?
    decreases |records|
  {
    if |records| == 0 then []
    else
      var prefix, last := records[..|records| - 1], records[|records| - 1];
      Tagged(prefix) + (if MoleculeOf(last).Some? then [last] else [])
  }

  lemma {:induction false} QualifyingAppend(threshold: int, a: seq<Record>, b: seq<Record>)
    ensures Qualifying(threshold, a + b) == Qualifying(threshold, a) + Qualifying(threshold, b)
    decreases |b|
  {
    if |b| > 0 {
      var b' := b[..|b| - 1];
      assert (a + b)[..|a + b| - 1] == a + b';
      QualifyingAppend(threshold, a, b');
    } else {
      assert a + b == a;
    }
  }

  /** A stream with no qualifying record has nothing left after filtering. */
  lemma {:induction false} NothingQualifies(threshold: int, records: seq<Record>)
    requires forall i :: 0 <= i < |records| ==> !Qualifies(threshold, records[i])
    ensures Qualifying(threshold, records) == []
    decreases |records|
  {
    if |records| > 0 {
      NothingQualifies(threshold, records[..|records| - 1]);
    }
  }

  /**
   * Records that lack a tag or fall below the quality threshold contribute
   * nothing: the run over the whole stream equals the run over the qualifying
   * records alone, outputs, cell table and last molecule included.
   */
  lemma {:induction false} DroppedRecordsContributeNothing(geneIdToIndex: map<string, nat>, threshold: int, records: seq<Record>)
    ensures Run(geneIdToIndex, threshold, records) == Run(geneIdToIndex, threshold, Qualifying(threshold, records))
    decreases |records|
  {
    if |records| > 0 {
      var prefix, last := records[..|records| - 1], records[|records| - 1];
      assert records == prefix + [last];
      DroppedRecordsContributeNothing(geneIdToIndex, threshold, prefix);
      RunSnoc(geneIdToIndex, threshold, prefix, last);
      var qp := Qualifying(threshold, prefix);
      if Qualifies(threshold, last) {
        assert Qualifying(threshold, records) == qp + [last];
        RunSnoc(geneIdToIndex, threshold, qp, last);
      } else {
        assert Qualifying(threshold, records) == qp;
      }
    }
  }

  /** A dropped record anywhere in the stream, even between two reads of one molecule, changes nothing. */
  lemma DroppedRecordChangesNothing(geneIdToIndex: map<string, nat>, threshold: int,
                                    before: seq<Record>, rec: Record, after: seq<Record>)
    requires !Qualifies(threshold, rec)
    ensures Run(geneIdToIndex, threshold, before + [rec] + after) == Run(geneIdToIndex, threshold, before + after)
  {
    var withRec := before + [rec] + after;
    var without := before + after;
    var qb, qa := Qualifying(threshold, before), Qualifying(threshold, after);
    NothingQualifies(threshold, [rec]);
    QualifyingAppend(threshold, before, [rec]);
    QualifyingAppend(threshold, before + [rec], after);
    QualifyingAppend(threshold, before, after);
    assert Qualifying(threshold, before + [rec]) == qb;
    assert Qualifying(threshold, withRec) == qb + qa;
    DroppedRecordsContributeNothing(geneIdToIndex, threshold, withRec);
    DroppedRecordsContributeNothing(geneIdToIndex, threshold, without);
  }

  /**
   * With the default threshold 0 and mapping qualities that are never negative
   * (MAPQ is 0..255), the quality filter drops nothing: only the tag filter acts.
   */
  lemma {:induction false} DefaultThresholdDropsOnlyUntagged(records: seq<Record>)
    requires forall i :: 0 <= i < |records| ==> records[i].mappingQuality >= 0
    ensures Qualifying(0, records) == Tagged(records)
    decreases |records|
  {
    if |records| > 0 {
      DefaultThresholdDropsOnlyUntagged(records[..|records| - 1]);
    }
  }

  // ----- De-duplication --------------------------------------------------------

  /**
   * After a qualifying record, a record of the same molecule has no effect,
   * whatever its mapping quality: it is either dropped by the quality filter
   * or skipped as the molecule just seen.
   */
  lemma StepSameMolecule(geneIdToIndex: map<string, nat>, threshold: int, s: LoopState, rec: Record, rec2: Record)
    requires Qualifies(threshold, rec) && MoleculeOf(rec2) == MoleculeOf(rec)
    requires Step(geneIdToIndex, threshold, s, rec).Ok?
    ensures var t := Step(geneIdToIndex, threshold, s, rec).value;
            Step(geneIdToIndex, threshold, t, rec2) == Ok(t)
  {
  }

  /**
   * A read of the molecule just emitted is skipped, whatever its mapping
   * quality and however many dropped records stand between the two:
   * consecutive reads of one molecule give one entry.
   */
  lemma RepeatedMoleculeCollapses(geneIdToIndex: map<string, nat>, threshold: int,
                                  before: seq<Record>, rec: Record, dropped: seq<Record>, rec2: Record)
    requires Qualifies(threshold, rec) && MoleculeOf(rec2) == MoleculeOf(rec)
    requires forall i :: 0 <= i < |dropped| ==> !Qualifies(threshold, dropped[i])
    ensures Run(geneIdToIndex, threshold, before + [rec] + dropped + [rec2])
            == Run(geneIdToIndex, threshold, before + [rec] + dropped)
  {
    var q := Qualifying(threshold, before);
    NothingQualifies(threshold, dropped);
    QualifyingAppend(threshold, before, [rec]);
    QualifyingAppend(threshold, before + [rec], dropped);
    QualifyingAppend(threshold, before + [rec] + dropped, [rec2]);
    DroppedRecordsContributeNothing(geneIdToIndex, threshold, before + [rec] + dropped + [rec2]);
    DroppedRecordsContributeNothing(geneIdToIndex, threshold, before + [rec] + dropped);
    assert Qualifying(threshold, [rec]) == [rec];
    assert Qualifying(threshold, before + [rec] + dropped) == q + [rec];
    if Qualifies(threshold, rec2) {
      assert Qualifying(threshold, before + [rec] + dropped + [rec2]) == q + [rec] + [rec2];
      RunSnoc(geneIdToIndex, threshold, q, rec);
      RunSnoc(geneIdToIndex, threshold, q + [rec], rec2);
      if Run(geneIdToIndex, threshold, q + [rec]).Ok? {
        StepSameMolecule(geneIdToIndex, threshold, Run(geneIdToIndex, threshold, q).value, rec, rec2);
      }
    } else {
      assert Qualifying(threshold, [rec2]) == [];
      assert Qualifying(threshold, before + [rec] + dropped + [rec2]) == q + [rec];
    }
  }

  /**
   * The first qualifying record is always emitted, because no molecule has
   * been emitted before it: it becomes cell 0 with one entry.
   */
  lemma FirstQualifyingRecordEmitted(geneIdToIndex: map<string, nat>, threshold: int,
                                     dropped: seq<Record>, rec: Record)
    requires forall i :: 0 <= i < |dropped| ==> !Qualifies(threshold, dropped[i])
    requires Qualifies(threshold, rec) && MoleculeOf(rec).value.gene in geneIdToIndex
    ensures var mol := MoleculeOf(rec).value;
            Run(geneIdToIndex, threshold, dropped + [rec])
            == Ok(LoopState([1], [0], [geneIdToIndex[mol.gene]], map[mol.cell := 0], 1, Some(mol)))
  {
    NothingQualifies(threshold, dropped);
    QualifyingAppend(threshold, dropped, [rec]);
    DroppedRecordsContributeNothing(geneIdToIndex, threshold, dropped + [rec]);
    assert Qualifying(threshold, dropped + [rec]) == [rec];
    RunSnoc(geneIdToIndex, threshold, [], rec);
    assert [] + [rec] == [rec];
    FirstStep(geneIdToIndex, threshold, rec);
  }

  lemma FirstStep(geneIdToIndex: map<string, nat>, threshold: int, rec: Record)
    requires Qualifies(threshold, rec) && MoleculeOf(rec).value.gene in geneIdToIndex
    ensures var mol := MoleculeOf(rec).value;
            Step(geneIdToIndex, threshold, Start, rec)
            == Ok(LoopState([1], [0], [geneIdToIndex[mol.gene]], map[mol.cell := 0], 1, Some(mol)))
  {
    var mol := MoleculeOf(rec).value;
    assert mol.cell !in Start.cellIdToIndex;
    assert Start.cellIdToIndex[mol.cell := 0] == map[mol.cell := 0];
    assert Start.data + [1] == [1];
    assert Start.cellIndices + [Start.nCells] == [0];
    var t := Step(geneIdToIndex, threshold, Start, rec).value;
    assert t.data == [1] && t.cellIndices == [0] && t.geneIndices == [geneIdToIndex[mol.gene]];
  }

  // ----- One triplet per run of equal molecules ---------------------------------

  /** The molecules of the qualifying records, in stream order. */
  function QualifyingMolecules(threshold: int, records: seq<Record>): (q: seq<Molecule>)
    decreases |records|
  {
    if |records| == 0 then []
    else
      var prefix, last := records[..|records| - 1], records[|records| - 1];
      QualifyingMolecules(threshold, prefix)
        + (if Qualifies(threshold, last) then [MoleculeOf(last).value] else [])
  }

  /** The last element of a molecule sequence, if any. */
  function LastOf(q: seq<Molecule>): Option<Molecule> {
    if |q| == 0 then None else Some(q[|q| - 1])
  }

  /** The first molecule of every maximal run of equal adjacent molecules in `q`. */
  function Heads(q: seq<Molecule>): (h: seq<Molecule>)
    ensures |h| <= |q|
    ensures LastOf(h) == LastOf(q)
    decreases |q|
  {
    if |q| == 0 then []
    else
      var prefix, last := q[..|q| - 1], q[|q| - 1];
      if |prefix| > 0 && prefix[|prefix| - 1] == last then Heads(prefix) else Heads(prefix) + [last]
  }

  /** One more molecule starts a new run exactly when it differs from the last one. */
  lemma HeadsSnoc(q: seq<Molecule>, mol: Molecule)
    ensures Heads(q + [mol]) == if LastOf(q) == Some(mol) then Heads(q) else Heads(q) + [mol]
  {
    assert (q + [mol])[..|q|] == q;
  }

  /** The heads of the runs are exactly the molecules of `q`, once per run. */
  lemma {:induction false} HeadsCoverAll(q: seq<Molecule>)
    ensures forall m :: m in q <==> m in Heads(q)
    decreases |q|
  {
    if |q| > 0 {
      var prefix, last := q[..|q| - 1], q[|q| - 1];
      assert q == prefix + [last];
      HeadsCoverAll(prefix);
      HeadsSnoc(prefix, last);
    }
  }

  /** `k` is the first run whose gene is missing from the gene table. */
  ghost predicate FirstUnknownGeneAt(geneIdToIndex: map<string, nat>, h: seq<Molecule>, k: int) {
    && 0 <= k < |h|
    && h[k].gene !in geneIdToIndex
    && forall i :: 0 <= i < k ==> h[i].gene in geneIdToIndex
  }

  /** The loop's outputs are exactly one (1, cell, gene) triplet per run in `h`. */
  ghost predicate EmitsOnePerRun(geneIdToIndex: map<string, nat>, h: seq<Molecule>, s: LoopState) {
    && |s.data| == |h| && |s.cellIndices| == |h| && |s.geneIndices| == |h|
    && (forall i :: 0 <= i < |h| ==> s.data[i] == 1)
    && (forall i :: 0 <= i < |h| ==> h[i].gene in geneIdToIndex && s.geneIndices[i] == geneIdToIndex[h[i].gene])
    && (forall i :: 0 <= i < |h| ==> h[i].cell in s.cellIdToIndex && s.cellIndices[i] == s.cellIdToIndex[h[i].cell])
    && (forall c :: c in s.cellIdToIndex ==> exists i :: 0 <= i < |h| && h[i].cell == c)
  }

  /** A record that starts a new run and has a known gene appends that run's triplet. */
  lemma EmitNewRun(geneIdToIndex: map<string, nat>, threshold: int, h: seq<Molecule>, s: LoopState, rec: Record)
    requires Qualifies(threshold, rec)
    requires EmitsOnePerRun(geneIdToIndex, h, s)
    requires s.currentMolecule != MoleculeOf(rec) && MoleculeOf(rec).value.gene in geneIdToIndex
    ensures Step(geneIdToIndex, threshold, s, rec).Ok?
    ensures EmitsOnePerRun(geneIdToIndex, h + [MoleculeOf(rec).value], Step(geneIdToIndex, threshold, s, rec).value)
  {
    var mol := MoleculeOf(rec).value;
    var t := Step(geneIdToIndex, threshold, s, rec).value;
    var h' := h + [mol];
    var before, after := s.cellIdToIndex, t.cellIdToIndex;
    assert after == if mol.cell in before then before else before[mol.cell := s.nCells];
    assert t.cellIndices == s.cellIndices + [after[mol.cell]];
    assert t.geneIndices == s.geneIndices + [geneIdToIndex[mol.gene]];
    assert t.data == s.data + [1];
    forall i | 0 <= i < |h'|
      ensures t.data[i] == 1
      ensures h'[i].gene in geneIdToIndex && t.geneIndices[i] == geneIdToIndex[h'[i].gene]
      ensures h'[i].cell in after && t.cellIndices[i] == after[h'[i].cell]
    {
      if i < |h| {
        assert h'[i] == h[i] && t.cellIndices[i] == s.cellIndices[i];
        assert h[i].cell in before;
      }
    }
    forall c | c in after ensures exists i :: 0 <= i < |h'| && h'[i].cell == c {
      if c in before {
        var i :| 0 <= i < |h| && h[i].cell == c;
        assert h'[i].cell == c;
      } else {
        assert h'[|h|].cell == c;
      }
    }
  }

  /**
   * `r` is what the loop must produce for the qualifying molecules `q`: success
   * exactly when every run's gene is in the gene table, and then one triplet
   * per run with `q`'s last molecule as the current one; otherwise the error
   * for the first run whose gene is unknown.
   */
  ghost predicate Describes(geneIdToIndex: map<string, nat>, q: seq<Molecule>, r: Result<LoopState>) {
    var h := Heads(q);
    && (r.Ok? <==> forall i :: 0 <= i < |h| ==> h[i].gene in geneIdToIndex)
    && (r.Ok? ==> EmitsOnePerRun(geneIdToIndex, h, r.value) && r.value.currentMolecule == LastOf(q))
    && (r.Err? ==> exists k :: FirstUnknownGeneAt(geneIdToIndex, h, k) && r.error == UnknownGene(h[k].gene))
  }

  lemma StepEmitsOnePerRun(geneIdToIndex: map<string, nat>, threshold: int, q: seq<Molecule>,
                           s: LoopState, rec: Record)
    requires Qualifies(threshold, rec)
    requires Describes(geneIdToIndex, q, Ok(s))
    ensures Describes(geneIdToIndex, q + [MoleculeOf(rec).value], Step(geneIdToIndex, threshold, s, rec))
  {
    var mol := MoleculeOf(rec).value;
    var h := Heads(q);
    HeadsSnoc(q, mol);
    if s.currentMolecule == Some(mol) {
      assert Step(geneIdToIndex, threshold, s, rec) == Ok(s);
    } else if mol.gene !in geneIdToIndex {
      assert Step(geneIdToIndex, threshold, s, rec) == Err(UnknownGene(mol.gene));
      var h' := h + [mol];
      assert Heads(q + [mol]) == h';
      assert FirstUnknownGeneAt(geneIdToIndex, h', |h|);
    } else {
      EmitNewRun(geneIdToIndex, threshold, h, s, rec);
      var h' := h + [mol];
      assert forall i :: 0 <= i < |h'| ==> h'[i].gene in geneIdToIndex;
    }
  }

  lemma ErrorStaysFirst(geneIdToIndex: map<string, nat>, q: seq<Molecule>, mol: Molecule, e: Error)
    requires Describes(geneIdToIndex, q, Err(e))
    ensures Describes(geneIdToIndex, q + [mol], Err(e))
  {
    var h := Heads(q);
    HeadsSnoc(q, mol);
    var h' := Heads(q + [mol]);
    var k :| FirstUnknownGeneAt(geneIdToIndex, h, k) && e == UnknownGene(h[k].gene);
    assert h'[..|h|] == h;
    assert h'[k] == h[k];
    assert FirstUnknownGeneAt(geneIdToIndex, h', k);
  }

  /**
   * The whole loop in closed form. Split the molecules of the qualifying
   * records into maximal runs of equal adjacent molecules. The loop succeeds
   * exactly when every run's gene is in the gene table; it then emits one
   * (1, cell index, gene index) triplet per run, in order, its cell table holds
   * exactly the cells of the runs, and the last molecule is that of the last
   * qualifying record. Otherwise it fails on the first run with an unknown gene.
   */
  lemma {:induction false} RunEmitsOnePerRun(geneIdToIndex: map<string, nat>, threshold: int, records: seq<Record>)
    ensures Describes(geneIdToIndex, QualifyingMolecules(threshold, records), Run(geneIdToIndex, threshold, records))
    decreases |records|
  {
    if |records| == 0 {
      assert Heads([]) == [];
    } else {
      var prefix, last := records[..|records| - 1], records[|records| - 1];
      assert records == prefix + [last];
      RunEmitsOnePerRun(geneIdToIndex, threshold, prefix);
      RunSnoc(geneIdToIndex, threshold, prefix, last);
      var q := QualifyingMolecules(threshold, prefix);
      if Qualifies(threshold, last) {
        var mol := MoleculeOf(last).value;
        assert QualifyingMolecules(threshold, records) == q + [mol];
        match Run(geneIdToIndex, threshold, prefix)
        case Ok(s) =>
          StepEmitsOnePerRun(geneIdToIndex, threshold, q, s, last);
        case Err(e) =>
          ErrorStaysFirst(geneIdToIndex, q, mol, e);
      } else {
        assert QualifyingMolecules(threshold, records) == q;
      }
    }
  }

  // ----- Sorted input --------------------------------------------------------------

  /** Equal molecules stand next to each other, as they do in a stream sorted on them. */
  ghost predicate Grouped(q: seq<Molecule>) {
    forall i, j, k :: 0 <= i < j < k < |q| && q[i] == q[k] ==> q[j] == q[i]
  }

  ghost predicate NoDuplicates(h: seq<Molecule>) {
    forall i, j :: 0 <= i < j < |h| ==> h[i] != h[j]
  }

  lemma {:induction false} DistinctCardinality(h: seq<Molecule>)
    requires NoDuplicates(h)
    ensures |set m | m in h| == |h|
    decreases |h|
  {
    if |h| > 0 {
      var prefix := h[..|h| - 1];
      DistinctCardinality(prefix);
      assert (set m | m in h) == (set m | m in prefix) + {h[|h| - 1]};
      assert h[|h| - 1] !in prefix;
    }
  }

  lemma {:induction false} GroupedHeadsAreDistinct(q: seq<Molecule>)
    requires Grouped(q)
    ensures NoDuplicates(Heads(q))
    decreases |q|
  {
    if |q| > 0 {
      var prefix, last := q[..|q| - 1], q[|q| - 1];
      assert q == prefix + [last];
      assert Grouped(prefix);
      GroupedHeadsAreDistinct(prefix);
      HeadsSnoc(prefix, last);
      if LastOf(prefix) != Some(last) {
        forall i | 0 <= i < |prefix| ensures prefix[i] != last {
          assert q[i] == prefix[i] && q[|q| - 2] == prefix[|prefix| - 1];
        }
        HeadsCoverAll(prefix);
        assert last !in prefix;
        var h := Heads(prefix);
        assert last !in h;
        assert Heads(q) == h + [last];
        forall i, j | 0 <= i < j < |h| + 1 ensures (h + [last])[i] != (h + [last])[j] {
          if j == |h| {
            assert h[i] in h;
          }
        }
      }
    }
  }

  /**
   * On a stream in which the reads of each molecule are adjacent (the sort
   * order from_bam demands), the loop emits exactly one entry per distinct
   * qualifying molecule.
   */
  lemma SortedStreamCountsEachMoleculeOnce(geneIdToIndex: map<string, nat>, threshold: int, records: seq<Record>)
    requires Grouped(QualifyingMolecules(threshold, records))
    requires Run(geneIdToIndex, threshold, records).Ok?
    ensures |Run(geneIdToIndex, threshold, records).value.data|
            == |set m | m in QualifyingMolecules(threshold, records)|
  {
    var q := QualifyingMolecules(threshold, records);
    var h := Heads(q);
    RunEmitsOnePerRun(geneIdToIndex, threshold, records);
    assert |Run(geneIdToIndex, threshold, records).value.data| == |h|;
    GroupedHeadsAreDistinct(q);
    DistinctCardinality(h);
    HeadsCoverAll(q);
    assert (set m | m in q) == (set m | m in h);
  }

  // ----- Cell numbering -----------------------------------------------------------

  /** Once a cell has an index, no later record changes it. */
  lemma {:induction false} CellIndexNeverChanges(geneIdToIndex: map<string, nat>, threshold: int,
                                                 records: seq<Record>, more: seq<Record>)
    requires Run(geneIdToIndex, threshold, records + more).Ok?
    ensures Run(geneIdToIndex, threshold, records).Ok?
    ensures var before := Run(geneIdToIndex, threshold, records).value.cellIdToIndex;
            var after := Run(geneIdToIndex, threshold, records + more).value.cellIdToIndex;
            forall c :: c in before ==> c in after && after[c] == before[c]
    decreases |more|
  {
    if |more| > 0 {
      var more' := more[..|more| - 1];
      assert records + more == (records + more') + [more[|more| - 1]];
      RunSnoc(geneIdToIndex, threshold, records + more', more[|more| - 1]);
      CellIndexNeverChanges(geneIdToIndex, threshold, records, more');
    } else {
      assert records + more == records;
    }
  }

  /**
   * Cells are numbered in the order they are first seen: the cell of a
   * qualifying record keeps the index it already had, or, if it is new,
   * receives the number of cells seen before it, and keeps it to the end.
   */
  lemma CellsNumberedInFirstSeenOrder(geneIdToIndex: map<string, nat>, threshold: int,
                                      before: seq<Record>, rec: Record, after: seq<Record>)
    requires Qualifies(threshold, rec)
    requires Run(geneIdToIndex, threshold, before + [rec] + after).Ok?
    ensures Run(geneIdToIndex, threshold, before).Ok?
    ensures var seen := Run(geneIdToIndex, threshold, before).value;
            var final := Run(geneIdToIndex, threshold, before + [rec] + after).value.cellIdToIndex;
            var cell := rec.cell.value;
            && cell in final
            && final[cell] == (if cell in seen.cellIdToIndex then seen.cellIdToIndex[cell] else seen.nCells)
  {
    CellIndexNeverChanges(geneIdToIndex, threshold, before + [rec], after);
    RunSnoc(geneIdToIndex, threshold, before, rec);
    var seen := Run(geneIdToIndex, threshold, before).value;
    RunValid(geneIdToIndex, threshold, before);
  }
}
