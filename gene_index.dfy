/**
 * The gene table of from_bam: every annotation record of type `gene` is given
 * its position in the sequence of gene records as its column index, keyed by
 * its gene_name. A later record with the same name overwrites the earlier
 * entry; a record without a gene_name aborts the construction.
 */
module GeneIndex {
  import opened Types

  /** The table built from the first |genes| gene records (a left fold, one record per step). */
  function GeneIndexOf(genes: seq<GeneRecord>): (r: Result<map<string, nat>>)
    ensures r.Ok? ==> forall name :: name in r.value ==> r.value[name] < |genes|
    ensures r.Err? ==> r.error.MalformedGtf? && r.error.position < |genes|
    decreases |genes|
  {
    if |genes| == 0 then Ok(map[])
    else
      var last := |genes| - 1;
      match GeneIndexOf(genes[..last])
      case Err(e) => Err(e)
      case Ok(table) =>
        match genes[last].geneName
        case None => Err(MalformedGtf(last))
        case Some(name) => Ok(table[name := last])
  }

  /** Some gene record names `name`. */
  ghost predicate Named(genes: seq<GeneRecord>, name: string) {
    exists i :: 0 <= i < |genes| && genes[i].geneName == Some(name)
  }

  /** `i` is the position of the last gene record named `name`. */
  ghost predicate LastNamedAt(genes: seq<GeneRecord>, name: string, i: int) {
    && 0 <= i < |genes|
    && genes[i].geneName == Some(name)
    && forall j :: i < j < |genes| ==> genes[j].geneName != Some(name)
  }

  /** `i` is the position of the first gene record without a gene_name. */
  ghost predicate FirstNamelessAt(genes: seq<GeneRecord>, i: int) {
    && 0 <= i < |genes|
    && genes[i].geneName.None?
    && forall j :: 0 <= j < i ==> genes[j].geneName.Some?
  }

  /** An error in a prefix of the gene records is the error of the whole table. */
  lemma {:induction false} GeneIndexErrorPersists(genes: seq<GeneRecord>, k: nat)
    requires k <= |genes|
    requires GeneIndexOf(genes[..k]).Err?
    ensures GeneIndexOf(genes) == GeneIndexOf(genes[..k])
    decreases |genes|
  {
    if k < |genes| {
      var last := |genes| - 1;
      assert genes[..last][..k] == genes[..k];
      GeneIndexErrorPersists(genes[..last], k);
    } else {
      assert genes[..k] == genes;
    }
  }

  /**
   * The table fails exactly when some gene record has no gene_name, and then it
   * reports the first such record.
   */
  lemma {:induction false} GeneIndexFailsOnFirstNameless(genes: seq<GeneRecord>)
    ensures GeneIndexOf(genes).Err? <==> exists i :: 0 <= i < |genes| && genes[i].geneName.None?
    ensures GeneIndexOf(genes).Err? ==>
              GeneIndexOf(genes).error.MalformedGtf? &&
              FirstNamelessAt(genes, GeneIndexOf(genes).error.position)
    decreases |genes|
  {
    if |genes| > 0 {
      var last := |genes| - 1;
      var prefix := genes[..last];
      GeneIndexFailsOnFirstNameless(prefix);
      assert forall i :: 0 <= i < last ==> prefix[i] == genes[i];
      if GeneIndexOf(prefix).Err? {
        var i :| 0 <= i < |prefix| && prefix[i].geneName.None?;
        assert genes[i].geneName.None?;
      }
    }
  }

  /**
   * When the table exists, its names are exactly the gene_names of the gene
   * records, and each name is mapped to the position of the LAST record that
   * carries it.
   */
  lemma {:induction false} GeneIndexMapsNameToLastPosition(genes: seq<GeneRecord>)
    requires GeneIndexOf(genes).Ok?
    ensures forall name :: name in GeneIndexOf(genes).value <==> Named(genes, name)
    ensures forall name :: name in GeneIndexOf(genes).value ==>
              LastNamedAt(genes, name, GeneIndexOf(genes).value[name])
    decreases |genes|
  {
    if |genes| > 0 {
      var last := |genes| - 1;
      var prefix := genes[..last];
      GeneIndexMapsNameToLastPosition(prefix);
      var table := GeneIndexOf(prefix).value;
      var name := genes[last].geneName.value;
      assert GeneIndexOf(genes).value == table[name := last];
      forall n | Named(genes, n) ensures n in GeneIndexOf(genes).value {
        var i :| 0 <= i < |genes| && genes[i].geneName == Some(n);
        if i < last {
          assert prefix[i] == genes[i];
          assert Named(prefix, n);
        }
      }
      forall n | n in GeneIndexOf(genes).value ensures Named(genes, n) {
        if n != name {
          var i :| 0 <= i < |prefix| && prefix[i].geneName == Some(n);
          assert genes[i] == prefix[i];
        } else {
          assert genes[last].geneName == Some(n);
        }
      }
    }
  }

  /** Distinct names get distinct indices, so the table can be read backwards. */
  lemma GeneIndexInjective(genes: seq<GeneRecord>)
    requires GeneIndexOf(genes).Ok?
    ensures Injective(GeneIndexOf(genes).value)
  {
    GeneIndexMapsNameToLastPosition(genes);
    var table := GeneIndexOf(genes).value;
    forall a, b | a in table && b in table && table[a] == table[b] ensures a == b {
      assert LastNamedAt(genes, a, table[a]) && LastNamedAt(genes, b, table[b]);
    }
  }

  /** The distinct gene_names of the gene records. */
  ghost function GeneNames(genes: seq<GeneRecord>): set<string> {
    set i | 0 <= i < |genes| && genes[i].geneName.Some? :: genes[i].geneName.value
  }

  /**
   * The table holds one entry per distinct gene_name, so its size (the column
   * count of the matrix) is the number of distinct names, not the number of
   * gene records.
   */
  lemma GeneIndexSizeIsNameCount(genes: seq<GeneRecord>)
    requires GeneIndexOf(genes).Ok?
    ensures GeneIndexOf(genes).value.Keys == GeneNames(genes)
    ensures |GeneIndexOf(genes).value| == |GeneNames(genes)|
  {
    GeneIndexMapsNameToLastPosition(genes);
    forall name ensures name in GeneNames(genes) <==> Named(genes, name) {
      if Named(genes, name) {
        var i :| 0 <= i < |genes| && genes[i].geneName == Some(name);
        assert genes[i].geneName.value in GeneNames(genes);
      }
    }
  }

  /** Every gene record has a gene_name and no two share one. */
  ghost predicate DistinctlyNamed(genes: seq<GeneRecord>) {
    && (forall i :: 0 <= i < |genes| ==> genes[i].geneName.Some?)
    && (forall i, j :: 0 <= i < j < |genes| ==> genes[i].geneName != genes[j].geneName)
  }

  /**
   * When every gene record carries its own gene_name, the table exists, has
   * one entry per gene record, and every index is below the table's size.
   */
  lemma {:induction false} DistinctNamesFillEveryColumn(genes: seq<GeneRecord>)
    requires DistinctlyNamed(genes)
    ensures GeneIndexOf(genes).Ok?
    ensures |GeneIndexOf(genes).value| == |genes|
    ensures forall name :: name in GeneIndexOf(genes).value ==>
              GeneIndexOf(genes).value[name] < |GeneIndexOf(genes).value|
    decreases |genes|
  {
    if |genes| > 0 {
      var last := |genes| - 1;
      var prefix := genes[..last];
      assert forall i :: 0 <= i < last ==> prefix[i] == genes[i];
      DistinctNamesFillEveryColumn(prefix);
      var table := GeneIndexOf(prefix).value;
      var name := genes[last].geneName.value;
      assert name !in table by {
        GeneIndexMapsNameToLastPosition(prefix);
        assert !Named(prefix, name);
      }
      assert GeneIndexOf(genes) == Ok(table[name := last]);
      assert table[name := last].Keys == table.Keys + {name};
    }
  }

  /** The loop over the gene records: the gene table, or the error for a nameless gene record. */
  method BuildGeneIndex(genes: seq<GeneRecord>) returns (r: Result<map<string, nat>>)
    ensures r == GeneIndexOf(genes)
  {
    var geneIdToIndex: map<string, nat> := map[];
    var geneIndex := 0;
    while geneIndex < |genes|
      invariant 0 <= geneIndex <= |genes|
      invariant GeneIndexOf(genes[..geneIndex]) == Ok(geneIdToIndex)
    {
      assert genes[..geneIndex + 1][..geneIndex] == genes[..geneIndex];
      match genes[geneIndex].geneName {
        case None =>
          GeneIndexErrorPersists(genes, geneIndex + 1);
          return Err(MalformedGtf(geneIndex));
        case Some(geneId) =>
          geneIdToIndex := geneIdToIndex[geneId := geneIndex];
      }
      geneIndex := geneIndex + 1;
    }
    assert genes[..geneIndex] == genes;
    return Ok(geneIdToIndex);
  }
}
