/**
 * The filtering step of the report script (filterUniqueEntries): one pass
 * over the data rows with a set of asset names already seen and a growing
 * list of the rows that survive.
 */
module Script {
  import opened Dedup

  /** Reading a cell past the end of a row: which row, and which cell. */
  datatype Error = IndexOutOfBounds(row: nat, index: nat)

  datatype Result<T> = Success(value: T) | Failure(error: Error)

  /**
   * Keeps, in order, each data row whose asset name no earlier data row has.
   * The header row is skipped and is not part of the result. A data row with
   * fewer than three cells ends the pass with an out-of-bounds error at the
   * first such row.
   */
  method FilterUniqueEntries(data: Table) returns (r: Result<Table>)
    ensures r.Success? <==> WellFormed(DataRows(data))
    ensures r.Success? ==> r.value == Kept(DataRows(data))
    ensures |data| <= 1 ==> r == Success([])
    ensures r.Failure? ==>
              && 1 <= r.error.row < |data|
              && WellFormed(data[1..r.error.row])
              && !HasKey(data[r.error.row])
              && r.error.index == (if data[r.error.row] == [] then 0 else KeyColumn)
  {
    ghost var rows := DataRows(data);
    var uniqueAssets: set<string> := {};
    var filteredData: Table := [];
    var i := 1;
    while i < |data|
      invariant 1 <= i <= |rows| + 1
      invariant WellFormed(rows[..i - 1])
      invariant uniqueAssets == Keys(rows[..i - 1])
      invariant filteredData == Kept(rows[..i - 1])
    {
      assert rows[..i - 1] == data[1..i];
      var row := data[i];
      if row == [] {
        return Failure(IndexOutOfBounds(i, 0));
      }
      var inst := row[0];
      if |row| <= KeyColumn {
        return Failure(IndexOutOfBounds(i, KeyColumn));
      }
      var assetName := row[KeyColumn];
      assert rows[..i] == rows[..i - 1] + [row];
      KeysSnoc(rows[..i - 1], row);
      // Set.add: reports whether the name was absent, and inserts it.
      var added := assetName !in uniqueAssets;
      uniqueAssets := uniqueAssets + {assetName};
      if !added {
        i := i + 1;
        continue;
      }
      filteredData := filteredData + [row];
      i := i + 1;
    }
    assert rows[..i - 1] == rows;
    return Success(filteredData);
  }
}
