/** Result flattening: the per-pattern location lists become one table of
    rows (pattern index, library index, position), all 1-based, grouped by
    pattern in input order. */
module Results {
  import opened Corpus
  import opened Documents

  /** One match as reported: pattern, corpus string and position, 1-based. */
  datatype Row = Row(patternIndex: int, libraryIndex: int, position: int)

  /** The data frame returned to the caller: three columns of equal length. */
  datatype Table = Table(patternIndex: seq<int>, libraryIndex: seq<int>, position: seq<int>)

  predicate WellFormed(t: Table)
  {
    |t.patternIndex| == |t.libraryIndex| == |t.position|
  }

  /** The rows of a well-formed table, read across the three columns. */
  function RowsOf(t: Table): (rows: seq<Row>)
    requires WellFormed(t)
    ensures |rows| == |t.patternIndex|
  {
    seq(|t.patternIndex|, i requires 0 <= i < |t.patternIndex| =>
      Row(t.patternIndex[i], t.libraryIndex[i], t.position[i]))
  }

  /** The row reported for 0-based location g of 0-based pattern k. */
  function MakeRow(b: seq<int>, k: nat, g: int): Row
  {
    Row(k + 1, DocumentOf(b, g) + 1, LocalOffset(b, g) + 1)
  }

  /** The total number of locations over all patterns. */
  function TotalCount(all: seq<seq<nat>>): nat
  {
    if all == [] then 0 else TotalCount(all[..|all| - 1]) + |all[|all| - 1]|
  }

  /** The rows of pattern k, one per location, in the order of the list. */
  function PatternRows(b: seq<int>, k: nat, locs: seq<nat>): seq<Row>
  {
    seq(|locs|, j requires 0 <= j < |locs| => MakeRow(b, k, locs[j]))
  }

  /** All rows: those of pattern 0, then those of pattern 1, and so on. */
  function Rows(b: seq<int>, all: seq<seq<nat>>): (rows: seq<Row>)
    ensures |rows| == TotalCount(all)
  {
    if all == [] then []
    else Rows(b, all[..|all| - 1]) + PatternRows(b, |all| - 1, all[|all| - 1])
  }

  lemma {:induction false} TotalCountAppend(all: seq<seq<nat>>, k: nat)
    requires k < |all|
    ensures TotalCount(all[..k + 1]) == TotalCount(all[..k]) + |all[k]|
  {
    assert all[..k + 1][..k] == all[..k];
  }

  /** Location j of pattern k is reported exactly at row
      TotalCount(all[..k]) + j, as the row MakeRow gives for it. */
  lemma {:induction false} RowAt(b: seq<int>, all: seq<seq<nat>>, k: nat, j: nat)
    requires k < |all| && j < |all[k]|
    ensures TotalCount(all[..k]) + j < TotalCount(all)
    ensures Rows(b, all)[TotalCount(all[..k]) + j] == MakeRow(b, k, all[k][j])
  {
    var n := |all|;
    var prefix := all[..n - 1];
    TotalCountAppend(all, k);
    if k < n - 1 {
      RowAt(b, prefix, k, j);
      assert prefix[..k] == all[..k];
      TotalCountMonotone(all, k + 1, n - 1);
      assert all[..n - 1] == prefix;
    } else {
      assert all[..k] == prefix;
    }
  }

  /** Every location of every pattern is reported as its row. */
  lemma LocationReported(b: seq<int>, all: seq<seq<nat>>, k: nat, g: nat, r: Row)
    requires k < |all| && g in all[k]
    requires r == MakeRow(b, k, g)
    ensures r in Rows(b, all)
  {
    var j :| 0 <= j < |all[k]| && all[k][j] == g;
    RowAt(b, all, k, j);
  }

  lemma {:induction false} TotalCountMonotone(all: seq<seq<nat>>, i: nat, j: nat)
    requires i <= j <= |all|
    ensures TotalCount(all[..i]) <= TotalCount(all[..j])
    decreases j - i
  {
    if i < j {
      TotalCountMonotone(all, i, j - 1);
      TotalCountAppend(all, j - 1);
    }
  }

  /** Every row comes from some location: row i is location j of pattern k
      for some k and j, so no row is made up. */
  lemma {:induction false} RowOrigin(b: seq<int>, all: seq<seq<nat>>, i: nat)
    requires i < TotalCount(all)
    ensures exists k, j ::
              0 <= k < |all| && 0 <= j < |all[k]| &&
              i == TotalCount(all[..k]) + j && Rows(b, all)[i] == MakeRow(b, k, all[k][j])
  {
    var n := |all|;
    var prefix := all[..n - 1];
    var before := TotalCount(prefix);
    assert prefix == all[..n - 1];
    if i < before {
      RowOrigin(b, prefix, i);
      var k, j :| 0 <= k < |prefix| && 0 <= j < |prefix[k]| &&
        i == TotalCount(prefix[..k]) + j && Rows(b, prefix)[i] == MakeRow(b, k, prefix[k][j]);
      assert prefix[..k] == all[..k];
      assert Rows(b, all)[i] == MakeRow(b, k, all[k][j]);
    } else {
      var j := i - before;
      RowAt(b, all, n - 1, j);
    }
  }

  /** Rows are grouped by pattern in input order: the pattern index never
      decreases down the table, and it names one of the patterns. */
  lemma {:induction false} RowsGrouped(b: seq<int>, all: seq<seq<nat>>, i: nat, i': nat)
    requires i <= i' < TotalCount(all)
    ensures 1 <= Rows(b, all)[i].patternIndex <= Rows(b, all)[i'].patternIndex <= |all|
  {
    var n := |all|;
    var prefix := all[..n - 1];
    var before := TotalCount(prefix);
    if i' < before {
      RowsGrouped(b, prefix, i, i');
    } else if i < before {
      RowsGrouped(b, prefix, i, i);
    }
  }
}
