/** The row loop of crawl_ranking, over the cell texts already read from the
    ranking table: rows with at least eight cells become records of eight
    stripped fields, the other rows are skipped. */
module Ranking {
  import opened Text

  /** One ranking entry; every field is the stripped text of one cell. */
  datatype RankingRow = RankingRow(
    rank: string,
    broadcast: string,
    category: string,
    airTime: string,
    rating: string,
    salesVolume: string,
    revenue: string,
    productCount: string)

  /** The DataFrame's column names, in order. */
  const Columns: seq<string> := ["랭킹", "방송정보", "분류", "방송시간", "시청률", "판매량", "매출액", "상품수"]

  /** A row needs this many cells to be kept. */
  const MinCells := 8

  /** The record built from a row's cells: cell i, stripped, is field i. */
  function RowFromCells(cols: seq<string>): RankingRow
    requires |cols| >= MinCells
  {
    RankingRow(Strip(cols[0]), Strip(cols[1]), Strip(cols[2]), Strip(cols[3]),
               Strip(cols[4]), Strip(cols[5]), Strip(cols[6]), Strip(cols[7]))
  }

  /** The record's fields in the order of Columns, as one DataFrame row. */
  function RowValues(r: RankingRow): seq<string>
  {
    [r.rank, r.broadcast, r.category, r.airTime, r.rating, r.salesVolume, r.revenue, r.productCount]
  }

  /** Fields map positionally to the first eight cells, stripped, under the
      eight column names. */
  lemma RowFromCellsPositional(cols: seq<string>)
    requires |cols| >= MinCells
    ensures |RowValues(RowFromCells(cols))| == |Columns| == MinCells
    ensures forall i | 0 <= i < MinCells :: RowValues(RowFromCells(cols))[i] == Strip(cols[i])
  {
    var v := RowValues(RowFromCells(cols));
    forall i | 0 <= i < MinCells
      ensures v[i] == Strip(cols[i])
    {
      if i < 4 {
        assert v[0] == Strip(cols[0]) && v[1] == Strip(cols[1]) && v[2] == Strip(cols[2]) && v[3] == Strip(cols[3]);
      } else {
        assert v[4] == Strip(cols[4]) && v[5] == Strip(cols[5]) && v[6] == Strip(cols[6]) && v[7] == Strip(cols[7]);
      }
    }
  }

  /** Cells past the eighth play no part in the record. */
  lemma {:induction false} RowFromCellsIgnoresExtraCells(cols: seq<string>, extra: seq<string>)
    requires |cols| == MinCells
    ensures RowFromCells(cols + extra) == RowFromCells(cols)
  {
    var c := cols + extra;
    assert c[0] == cols[0] && c[1] == cols[1] && c[2] == cols[2] && c[3] == cols[3];
    assert c[4] == cols[4] && c[5] == cols[5] && c[6] == cols[6] && c[7] == cols[7];
  }

  /** The loop: each row of the table in order, appended when it has at least
      MinCells cells. */
  function ExtractRows(grid: seq<seq<string>>): seq<RankingRow>
  {
    if grid == [] then []
    else
      var last := grid[|grid| - 1];
      ExtractRows(grid[..|grid| - 1]) + (if |last| >= MinCells then [RowFromCells(last)] else [])
  }

  /** The positions of the rows that have at least MinCells cells, ascending. */
  function KeptIndices(grid: seq<seq<string>>): (ks: seq<nat>)
    ensures forall k | 0 <= k < |ks| :: ks[k] < |grid| && |grid[ks[k]]| >= MinCells
    ensures forall k, l | 0 <= k < l < |ks| :: ks[k] < ks[l]
    ensures forall i | 0 <= i < |grid| && |grid[i]| >= MinCells :: i in ks
  {
    if grid == [] then []
    else
      var n := |grid| - 1;
      var front := KeptIndices(grid[..n]);
      assert forall k | 0 <= k < |front| :: grid[front[k]] == grid[..n][front[k]];
      assert forall i | 0 <= i < n :: grid[i] == grid[..n][i];
      front + (if |grid[n]| >= MinCells then [n] else [])
  }

  /** Extraction keeps exactly the long rows, in input order: the k-th record
      comes from the k-th row with at least MinCells cells. */
  lemma {:induction false} ExtractRowsKeepsLongRows(grid: seq<seq<string>>)
    ensures |ExtractRows(grid)| == |KeptIndices(grid)|
    ensures forall k | 0 <= k < |ExtractRows(grid)| ::
      ExtractRows(grid)[k] == RowFromCells(grid[KeptIndices(grid)[k]])
  {
    if grid != [] {
      var n := |grid| - 1;
      var init := grid[..n];
      ExtractRowsKeepsLongRows(init);
      var front := KeptIndices(init);
      var data := ExtractRows(init);
      assert KeptIndices(grid) == front + (if |grid[n]| >= MinCells then [n] else []);
      assert ExtractRows(grid) == data + (if |grid[n]| >= MinCells then [RowFromCells(grid[n])] else []);
      forall k | 0 <= k < |front|
        ensures ExtractRows(grid)[k] == RowFromCells(grid[KeptIndices(grid)[k]])
      {
        assert grid[front[k]] == init[front[k]];
      }
    }
  }

  /** Extracting two tables one after the other is extracting their
      concatenation. */
  lemma {:induction false} ExtractRowsAppend(a: seq<seq<string>>, b: seq<seq<string>>)
    ensures ExtractRows(a + b) == ExtractRows(a) + ExtractRows(b)
    decreases |b|
  {
    if b != [] {
      var n := |b| - 1;
      assert (a + b)[..|a + b| - 1] == a + b[..n];
      ExtractRowsAppend(a, b[..n]);
    } else {
      assert a + b == a;
    }
  }
}
