# Unique-asset filter of the spreadsheet report script

This project models `filterUniqueEntries` from the report script. The script
reads a worksheet as rows of cell text and passes the rows to this filter. The
filter walks the data rows (every row after the header) in order and keeps a
set of the asset names seen so far. The asset name is the text in column 2,
"Defender Atp: Asset Name". A row is appended to the output only when adding
its asset name to the set reports that the name was new. The script then
writes the output rows to a new workbook.

- `dedup.dfy` (module `Dedup`) states the filtering rule on values. `Kept(rows)`
  keeps a row when its key is not among the keys of the rows before it. The
  module also holds the lemmas about that rule.
- `script.dfy` (module `Script`) holds `FilterUniqueEntries`. It is the loop
  itself, with its set of seen names and its growing output, and it is proved
  equal to `Kept` of the data rows.

Behaviour as the code has it:

- The header row (row 0) is skipped by the loop and is not copied to the
  output. The output therefore has no header row, and the writer puts the
  first kept data row at row 0 of the new sheet. No line copies row 0 into
  `filteredData`; the comment at Script.java:90 only says the header row is
  skipped.
- Reading cell 0 (`inst`, otherwise unused) and cell 2 of a data row is
  unchecked. In Java a shorter row raises an index-out-of-bounds exception.
  The model returns `Failure(IndexOutOfBounds(row, index))` for the first such
  data row. The index is 0 for an empty row and 2 for a row of one or two
  cells. This failure is a modelled result, not a precondition.
- Keys are compared exactly, so the empty string is a key like any other.
- The `HashSet` is a mathematical `set<string>`. `add` is modelled by its
  effect on the set and by the boolean it returns ("was absent").

## Model

| member | source | states |
|---|---|---|
| `Script.FilterUniqueEntries` | src/main/java/org/example/Script.java:85-106 | Succeeds exactly when every data row has a cell 2, and then returns `Kept` of the data rows. An input with no rows, or with only a header, gives an empty output. Otherwise it fails at the first data row too short to index: index 0 for an empty row, index 2 for one with one or two cells. The loop invariant says the seen set is the key set of the rows processed so far. |
| `Dedup.DataRows` | src/main/java/org/example/Script.java:91-92 | The rows the loop visits are the rows at positions 1 and up; the header is never visited. |
| `Dedup.Kept` | src/main/java/org/example/Script.java:91-102 | The rows the pass keeps are well-formed and are never more numerous than its input. |
| `Dedup.KeptSelectsFirstOccurrences` | src/main/java/org/example/Script.java:91-102 | The output is the input restricted to a strictly increasing list of positions, with rows copied unmodified. A position is in that list if and only if no earlier data row has the same key. So the output is an order-preserving subsequence made of first occurrences. |
| `Dedup.KeptKeysDistinct` | src/main/java/org/example/Script.java:97-102 | No two output rows share an asset name. |
| `Dedup.KeptKeys` | src/main/java/org/example/Script.java:87-103 | The asset names in the output are exactly the asset names among the data rows, so every name appears in some output row. |
| `Dedup.KeptLength` | src/main/java/org/example/Script.java:91-103 | The output length equals the number of distinct asset names among the data rows. |
| `Dedup.KeptUnchangedIffDistinct` | src/main/java/org/example/Script.java:91-102 | The filter returns its input unchanged if and only if the input's asset names are already distinct. |
| `Dedup.FilterIdempotent` | src/main/java/org/example/Script.java:85-106 | Putting any header row in front of the output and filtering again gives the same output. |
| `Dedup.RefilterWithoutHeaderDropsFirstRow` | src/main/java/org/example/Script.java:91-102 | Filtering the output again with no header in front is not the identity: the first output row is taken for the header and dropped, and all the other rows are kept. |
| `Dedup.RepeatedKeyExample` | src/main/java/org/example/Script.java:91-102 | Data rows with names x, y, x, z give the rows with x, y, z, in that order. |
| `Dedup.EmptyKeyExample` | src/main/java/org/example/Script.java:91-102 | Of two data rows whose asset name is the empty string, only the first is kept. |

## Left out

- `main`: it prompts on standard input, resolves the output path under the user's home directory and reports to the console. This is I/O only.
- `readExcelFile`: it opens the workbook, looks up the sheet by name and renders and trims each cell through Apache POI. This is file I/O and a foreign library; the filter receives its result as a value.
- `writeToExcel`: it builds a POI workbook and writes it to a file. This is file I/O and a foreign library.
- Java object identity: output rows are the same `List` objects as the input rows. The model compares rows as values, so it does not capture aliasing.
- Hashing and iteration order of `HashSet`: only membership matters to the filter.
- `Script.Error`: a failure records the data row's position and the cell index that was out of range. Java's `IndexOutOfBoundsException` carries a message naming the index and the row length instead. Only `main` prints that message, and `main` is not modelled.
