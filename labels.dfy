/**
 * The row and column label vectors of from_bam: the keys of a name-to-index
 * table listed in order of their index (the comprehensions over
 * sorted(table.items(), key=itemgetter(1))).
 */
module Labels {
  import opened Types

  /** `k` has the smallest index of the table. */
  predicate HasLeastIndex(table: map<string, nat>, k: string) {
    k in table && forall other :: other in table ==> table[k] <= table[other]
  }

  lemma {:induction false} LeastIndexExists(table: map<string, nat>)
    requires |table| > 0
    ensures exists k :: HasLeastIndex(table, k)
    decreases |table|
  {
    assert table.Keys != {};
    var k :| k in table;
    var rest := table - {k};
    assert rest.Keys == table.Keys - {k};
    if |rest| == 0 {
      assert table.Keys == {k};
      assert HasLeastIndex(table, k);
    } else {
      LeastIndexExists(rest);
      var m :| HasLeastIndex(rest, m);
      assert forall other :: other in table ==> other == k || other in rest;
      if table[k] <= table[m] {
        assert HasLeastIndex(table, k);
      } else {
        assert HasLeastIndex(table, m);
      }
    }
  }

  /** `r` holds |table| names of the table, in strictly increasing order of their index. */
  ghost predicate ListedByIndex(table: map<string, nat>, r: seq<string>) {
    && |r| == |table|
    && (forall i :: 0 <= i < |r| ==> r[i] in table)
    && (forall i, j :: 0 <= i < j < |r| ==> table[r[i]] < table[r[j]])
  }

  /** The name with the least index, followed by the rest listed by index, lists the table by index. */
  lemma ListedByIndexCons(table: map<string, nat>, first: string, tail: seq<string>)
    requires Injective(table) && HasLeastIndex(table, first)
    requires ListedByIndex(table - {first}, tail)
    ensures ListedByIndex(table, [first] + tail)
  {
    var rest := table - {first};
    assert rest.Keys == table.Keys - {first};
    var r := [first] + tail;
    forall i | 0 <= i < |r| ensures r[i] in table {
      if i > 0 {
        assert r[i] == tail[i - 1];
      }
    }
    forall i, j | 0 <= i < j < |r| ensures table[r[i]] < table[r[j]] {
      assert r[j] == tail[j - 1] && r[j] in rest;
      if i > 0 {
        assert r[i] == tail[i - 1];
      }
    }
  }

  /** The names of the table in increasing order of their index. */
  function KeysByIndex(table: map<string, nat>): (r: seq<string>)
    requires Injective(table)
    ensures ListedByIndex(table, r)
    decreases |table|
  {
    if |table| == 0 then []
    else
      LeastIndexExists(table);
      var first :| HasLeastIndex(table, first);
      var rest := table - {first};
      assert rest.Keys == table.Keys - {first};
      ListedByIndexCons(table, first, KeysByIndex(rest));
      [first] + KeysByIndex(rest)
  }

  /** Every name of the table appears among its labels. */
  lemma {:induction false} KeysByIndexListsEveryKey(table: map<string, nat>)
    requires Injective(table)
    ensures forall k :: k in table ==> k in KeysByIndex(table)
    decreases |table|
  {
    if |table| > 0 {
      var r := KeysByIndex(table);
      var rest := table - {r[0]};
      assert rest.Keys == table.Keys - {r[0]};
      assert r == [r[0]] + KeysByIndex(rest);
      KeysByIndexListsEveryKey(rest);
    }
  }

  lemma {:induction false} IncreasingFromZero(s: seq<int>, i: nat)
    requires forall a, b :: 0 <= a < b < |s| ==> s[a] < s[b]
    requires |s| > 0 && s[0] >= 0
    requires i < |s|
    ensures s[i] >= i
  {
    if i > 0 {
      IncreasingFromZero(s, i - 1);
    }
  }

  lemma {:induction false} IncreasingBelowLength(s: seq<int>, i: nat)
    requires forall a, b :: 0 <= a < b < |s| ==> s[a] < s[b]
    requires |s| > 0 && s[|s| - 1] < |s|
    requires i < |s|
    ensures s[i] <= i
    decreases |s| - i
  {
    if i < |s| - 1 {
      IncreasingBelowLength(s, i + 1);
    }
  }

  /**
   * When the indices are exactly 0..n-1, the label vector holds at position i
   * the one name whose index is i.
   */
  lemma DenseLabelsAtTheirIndex(table: map<string, nat>)
    requires Dense(table)
    ensures forall i :: 0 <= i < |KeysByIndex(table)| ==> table[KeysByIndex(table)[i]] == i
  {
    var r := KeysByIndex(table);
    var s := seq(|r|, i requires 0 <= i < |r| => table[r[i]] as int);
    assert forall i :: 0 <= i < |r| ==> s[i] == table[r[i]];
    assert forall a, b :: 0 <= a < b < |s| ==> s[a] < s[b];
    forall i | 0 <= i < |r| ensures table[r[i]] == i {
      assert s[|s| - 1] < |s| && s[0] >= 0;
      IncreasingFromZero(s, i);
      IncreasingBelowLength(s, i);
    }
  }
}
