/**
 * The filtering rule of the report script, stated on values.
 *
 * A sheet is a sequence of rows, each row the text of its cells from left to
 * right. The rows after the header are "data rows"; a data row's key is the
 * text of its third cell (column 2, "Defender Atp: Asset Name"). The filter
 * keeps a data row exactly when no earlier data row carries the same key.
 */
module Dedup {

  /** One spreadsheet row: the text of its cells, left to right. */
  type Row = seq<string>

  /** A sheet, row 0 being the header. */
  type Table = seq<Row>

  /** Column index of the deduplication key. */
  const KeyColumn: nat := 2

  /** The row is long enough for its key cell to be read. */
  predicate HasKey(row: Row) {
    |row| > KeyColumn
  }

  /** Every row is long enough for its key cell to be read. */
  predicate WellFormed(rows: Table) {
    forall i :: 0 <= i < |rows| ==> HasKey(rows[i])
  }

  function Key(row: Row): string
    requires HasKey(row)
  {
    row[KeyColumn]
  }

  /** The set of keys carried by rows. */
  function Keys(rows: Table): set<string>
    requires WellFormed(rows)
  {
    set i | 0 <= i < |rows| :: Key(rows[i])
  }

  /** No two rows share a key. */
  predicate DistinctKeys(rows: Table)
    requires WellFormed(rows)
  {
    forall i, j :: 0 <= i < j < |rows| ==> Key(rows[i]) != Key(rows[j])
  }

  /** rows[i] is the first row of rows that carries its key. */
  predicate IsFirstOccurrence(rows: Table, i: nat)
    requires WellFormed(rows) && i < |rows|
  {
    forall j :: 0 <= j < i ==> Key(rows[j]) != Key(rows[i])
  }

  /** The data rows of a sheet: everything after the header row, if any. */
  function DataRows(data: Table): (r: Table)
    ensures |data| > 0 ==> |r| == |data| - 1
    ensures forall i :: 0 <= i < |r| ==> i + 1 < |data| && r[i] == data[i + 1]
  {
    if data == [] then [] else data[1..]
  }

  /**
   * The rows a single left-to-right pass keeps: the last row survives when
   * its key is not among the keys of the rows before it.
   */
  function Kept(rows: Table): (r: Table)
    requires WellFormed(rows)
    ensures WellFormed(r) && |r| <= |rows|
  {
    if rows == [] then []
    else
      var front, last := rows[..|rows| - 1], rows[|rows| - 1];
      if Key(last) in Keys(front) then Kept(front) else Kept(front) + [last]
  }

  /**
   * out is rows restricted to the strictly increasing positions idx: an
   * order-preserving subsequence whose rows are copied unmodified.
   */
  ghost predicate Selects(out: Table, rows: Table, idx: seq<nat>) {
    && |idx| == |out|
    && (forall k :: 0 <= k < |idx| ==> idx[k] < |rows| && out[k] == rows[idx[k]])
    && (forall k, l :: 0 <= k < l < |idx| ==> idx[k] < idx[l])
  }

  /** Adding one row adds exactly its key to the key set. */
  lemma KeysSnoc(rows: Table, row: Row)
    requires WellFormed(rows) && HasKey(row)
    ensures WellFormed(rows + [row])
    ensures Keys(rows + [row]) == Keys(rows) + {Key(row)}
  {
    var all := rows + [row];
    assert all[|rows|] == row;
    forall k | k in Keys(rows) ensures k in Keys(all) {
      var i :| 0 <= i < |rows| && Key(rows[i]) == k;
      assert all[i] == rows[i];
    }
    forall k | k in Keys(all) ensures k in Keys(rows) + {Key(row)} {
      var i :| 0 <= i < |all| && Key(all[i]) == k;
      if i < |rows| {
        assert all[i] == rows[i];
      }
    }
  }

  /** Splitting a non-empty sequence of rows into its front and its last row. */
  lemma KeysOfFront(rows: Table)
    requires WellFormed(rows) && rows != []
    ensures WellFormed(rows[..|rows| - 1])
    ensures Keys(rows) == Keys(rows[..|rows| - 1]) + {Key(rows[|rows| - 1])}
  {
  }

  /**
   * The output carries exactly the keys of the input: every key that occurs
   * among the rows occurs in the output, and no other.
   */
  lemma {:induction false} KeptKeys(rows: Table)
    requires WellFormed(rows)
    ensures Keys(Kept(rows)) == Keys(rows)
  {
    if rows != [] {
      var n := |rows| - 1;
      var front, last := rows[..n], rows[n];
      KeysOfFront(rows);
      KeptKeys(front);
      if Key(last) !in Keys(front) {
        KeysSnoc(Kept(front), last);
      }
    }
  }

  /** No two output rows share a key. */
  lemma {:induction false} KeptKeysDistinct(rows: Table)
    requires WellFormed(rows)
    ensures DistinctKeys(Kept(rows))
  {
    if rows != [] {
      var n := |rows| - 1;
      var front, last := rows[..n], rows[n];
      KeptKeysDistinct(front);
      if Key(last) !in Keys(front) {
        var prev := Kept(front);
        KeptKeys(front);
        forall i | 0 <= i < |prev| ensures Key(prev[i]) != Key(last) {
          assert Key(prev[i]) in Keys(prev);
        }
      }
    }
  }

  /** The output has one row per distinct key of the input. */
  lemma {:induction false} KeptLength(rows: Table)
    requires WellFormed(rows)
    ensures |Kept(rows)| == |Keys(rows)|
  {
    if rows != [] {
      var n := |rows| - 1;
      var front, last := rows[..n], rows[n];
      KeysOfFront(rows);
      KeptLength(front);
      if Key(last) !in Keys(front) {
        assert |Kept(rows)| == |Kept(front)| + 1;
        assert |Keys(rows)| == |Keys(front)| + 1;
      } else {
        assert Keys(rows) == Keys(front);
      }
    }
  }

  /**
   * The output is the input restricted to the positions that are first
   * occurrences of their key, in their original order: a data row is kept if
   * and only if no earlier data row has its key.
   */
  lemma {:induction false} KeptSelectsFirstOccurrences(rows: Table)
    requires WellFormed(rows)
    ensures exists idx: seq<nat> :: Selects(Kept(rows), rows, idx)
              && forall i :: 0 <= i < |rows| ==> (i in idx <==> IsFirstOccurrence(rows, i))
  {
    if rows == [] {
      assert Selects(Kept(rows), rows, []);
    } else {
      var n := |rows| - 1;
      var front, last := rows[..n], rows[n];
      KeptSelectsFirstOccurrences(front);
      var idx0: seq<nat> :| Selects(Kept(front), front, idx0)
                  && forall i :: 0 <= i < |front| ==> (i in idx0 <==> IsFirstOccurrence(front, i));
      assert forall j :: 0 <= j < n ==> front[j] == rows[j];
      assert forall i :: 0 <= i < n ==> IsFirstOccurrence(front, i) == IsFirstOccurrence(rows, i);
      assert IsFirstOccurrence(rows, n) <==> Key(last) !in Keys(front) by {
        if Key(last) in Keys(front) {
          var j :| 0 <= j < n && Key(front[j]) == Key(last);
          assert Key(rows[j]) == Key(rows[n]);
        }
      }
      assert n !in idx0;
      if Key(last) in Keys(front) {
        assert Selects(Kept(rows), rows, idx0);
      } else {
        var idx: seq<nat> := idx0 + [n];
        assert Selects(Kept(rows), rows, idx);
        assert forall i :: 0 <= i < |rows| ==> (i in idx <==> IsFirstOccurrence(rows, i));
      }
    }
  }

  /**
   * The filter changes nothing exactly when the keys are already distinct.
   * A sheet whose data rows all have different keys comes through unchanged.
   */
  lemma {:induction false} KeptUnchangedIffDistinct(rows: Table)
    requires WellFormed(rows)
    ensures Kept(rows) == rows <==> DistinctKeys(rows)
  {
    KeptKeysDistinct(rows);
    if DistinctKeys(rows) && rows != [] {
      var n := |rows| - 1;
      var front, last := rows[..n], rows[n];
      assert DistinctKeys(front);
      KeptUnchangedIffDistinct(front);
      assert Key(last) !in Keys(front);
      assert front + [last] == rows;
    }
  }

  /**
   * Filtering the output again, behind any header row, gives the same output:
   * the header is dropped again and the kept keys are already distinct.
   */
  lemma FilterIdempotent(data: Table, header: Row)
    requires WellFormed(DataRows(data))
    ensures WellFormed(DataRows([header] + Kept(DataRows(data))))
    ensures Kept(DataRows([header] + Kept(DataRows(data)))) == Kept(DataRows(data))
  {
    var out := Kept(DataRows(data));
    assert DataRows([header] + out) == out;
    KeptKeysDistinct(DataRows(data));
    KeptUnchangedIffDistinct(out);
  }

  /**
   * Filtering the output again WITHOUT a header in front is not the identity:
   * its first row is taken for a header and dropped, and the rest is kept.
   */
  lemma RefilterWithoutHeaderDropsFirstRow(data: Table)
    requires WellFormed(DataRows(data))
    ensures WellFormed(DataRows(Kept(DataRows(data))))
    ensures var out := Kept(DataRows(data));
            Kept(DataRows(out)) == (if out == [] then [] else out[1..])
  {
    var out := Kept(DataRows(data));
    KeptKeysDistinct(DataRows(data));
    assert DistinctKeys(DataRows(out));
    KeptUnchangedIffDistinct(DataRows(out));
  }

  /** Keys x, y, x, z: the second x is dropped and the rest keep their order. */
  lemma RepeatedKeyExample(a: Row, b: Row, c: Row, d: Row)
    requires a == ["1", "h1", "x"] && b == ["2", "h2", "y"]
    requires c == ["3", "h3", "x"] && d == ["4", "h4", "z"]
    ensures Kept([a, b, c, d]) == [a, b, d]
  {
    assert Keys([]) == {};
    KeysSnoc([], a);
    assert [] + [a] == [a];
    KeysSnoc([a], b);
    assert [a] + [b] == [a, b];
    KeysSnoc([a, b], c);
    assert [a, b] + [c] == [a, b, c];
    assert [a, b, c, d][..3] == [a, b, c];
    assert [a, b, c][..2] == [a, b];
    assert [a, b][..1] == [a];
    assert [a][..0] == [];
    assert Kept([a]) == [a];
    assert Kept([a, b]) == [a, b];
    assert Kept([a, b, c]) == [a, b];
  }

  /** An empty key is a key like any other: of two rows with it, the first survives. */
  lemma EmptyKeyExample(a: Row, b: Row)
    requires a == ["1", "h1", ""] && b == ["2", "h2", ""]
    ensures Kept([a, b]) == [a]
  {
  }
}
