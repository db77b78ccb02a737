# Column reshaping for one year of a survey table

This project models the reshaping step of the preprocessing code in
`notebooks/preprocessing/data_manipulation.py`. The step takes one year of
a table that has one row per value of a *specifier* column. It turns that
table into a single wide row: one cell per (kept row, other column) pair,
named after the specifier value and the column label, with the year in
front.

The model has three modules:

- `Seqs`: concatenation of a sequence of sequences, and where a cell of a
  rectangular grid lands once the grid is concatenated row by row.
- `Text`: the Python string operations the code uses, on `seq<char>`.
  - `Strip` is `str.strip(chars)`: it removes characters drawn from a set at
    both ends.
  - `DeleteAll` is `str.replace(p, "")`: it scans left to right and deletes
    non-overlapping occurrences.
  - `Split` and `Join` are the Python `str.split`/`str.join` pair. `Split`
    runs the same scan as `DeleteAll`, so it restates the deletion rather
    than checks it. What pins the deletion down is the leftmost-first rule:
    it cuts at the first occurrence and goes on after it. Any function that
    obeys that rule equals `DeleteAll` (`DeleteAllUnique`).
- `DataManipulation`: column labels, tables and the four functions of the
  file.
  - A label is a plain string or a tuple of strings. Iterating a plain label
    yields its one-character strings; iterating a tuple yields its parts.
  - A table is a sequence of labels plus rectangular rows of already
    rendered cell texts.
  - The pandas and numpy failures the code can hit are values of a `Result`:
    - `KeyError` for a missing column label;
    - `IndexError` when the flattened block is empty (no row, or no other
      column): line 22 then indexes with `np.array([])`, whose dtype is
      float, and numpy refuses a float index array;
    - `LengthMismatch` when the `DataFrame` constructor gets more or fewer
      values than names;
    - `DuplicateColumn` when `insert` meets an existing "year".
    The last one is proved never to happen. Through `transform_one_df`,
    `LengthMismatch` cannot happen either, and `IndexError` is raised for
    every year whose table keeps no interesting row.

The model follows the code wherever a plainer reading of the program
suggests more. A synthesized name can still contain both deleted texts:

- "nan" survives when one left-to-right scan brings two halves of a "nan"
  together (`NanMaySurvive`).
- Backslash-`n` survives for the same reason (`EscapeMaySurvive`).
- The second deletion can create a "nan" that the first one has already
  passed (`EscapeDeletionMakesNan`).

Line 6 of the source nests `"\n"` inside a double-quoted f-string. Python
parses that only from version 3.12 on, and the model assumes such a
version.

## Model

In the table, `S` is the number of specifier values, `R` the number of
rows, `K` the number of rows the filter keeps and `M` the number of other
columns.

| member | source | states |
|---|---|---|
| Text.TrimLeft | notebooks/preprocessing/data_manipulation.py:5 | `lstrip(chars)`: drops leading characters drawn from the set; its contract is `TrimLeftSound` |
| Text.TrimRight | notebooks/preprocessing/data_manipulation.py:5 | `rstrip(chars)`: drops trailing characters drawn from the set; its contract is `TrimRightSound` |
| Text.Strip | notebooks/preprocessing/data_manipulation.py:5-6 | `strip(chars)` as a right strip after a left strip; its contract is `StripSound` and `StripUnique` |
| Text.TrimLeftSound | notebooks/preprocessing/data_manipulation.py:5 | left strip keeps a suffix of the string; every removed character is in the set; the first kept character is not |
| Text.TrimRightSound | notebooks/preprocessing/data_manipulation.py:5 | right strip keeps a prefix of the string; every removed character is in the set; the last kept character is not |
| Text.StripSound | notebooks/preprocessing/data_manipulation.py:5-6 | `strip(chars)` returns a slice `s[i..j]` such that everything outside it is in the set and its two end characters are not |
| Text.StripUnique | notebooks/preprocessing/data_manipulation.py:5-6 | any slice with those properties is the one `strip` returns, so the character-set strip is fully determined |
| Text.RemoveChars | notebooks/preprocessing/data_manipulation.py:5 | the result is no longer than the input and holds exactly the input's characters that are outside the set |
| Text.DeleteAll | notebooks/preprocessing/data_manipulation.py:7 | deleting every occurrence never makes a string longer |
| Text.Split | notebooks/preprocessing/data_manipulation.py:7 | splitting at a non-empty separator gives at least one piece |
| Text.JoinSplit | notebooks/preprocessing/data_manipulation.py:7 | joining the pieces of a split with the separator gives back the original string |
| Text.DeleteAllIsSplitJoin | notebooks/preprocessing/data_manipulation.py:7 | `replace(p, "")` equals splitting at `p` and joining with nothing |
| Text.SplitHeadPrefix | notebooks/preprocessing/data_manipulation.py:7 | the first piece of a split is a prefix of the string |
| Text.SplitAbsent | notebooks/preprocessing/data_manipulation.py:7 | a string without the separator splits into itself alone |
| Text.FirstOccurrence | notebooks/preprocessing/data_manipulation.py:7 | a string with an occurrence of the pattern has a first one, at or before it |
| Text.SplitHeadFirst | notebooks/preprocessing/data_manipulation.py:7 | no occurrence of the separator starts inside the first piece of a split |
| Text.SplitAtFirst | notebooks/preprocessing/data_manipulation.py:7 | the split cuts at the first occurrence: the first piece is what comes before it, and the split goes on right after it |
| Text.DeleteAllAtFirst | notebooks/preprocessing/data_manipulation.py:7 | the deletion removes the first occurrence, keeps what comes before it and goes on right after it, so of two overlapping occurrences the left one goes |
| Text.DeleteAllUnique | notebooks/preprocessing/data_manipulation.py:7 | any function that leaves a string without the pattern unchanged and cuts at the first occurrence this way equals `DeleteAll` on every string |
| Text.DeleteAllBreak | notebooks/preprocessing/data_manipulation.py:7 | no occurrence reaches across a character that is not in the pattern, so the two sides of it are handled apart |
| Text.DeleteAllAround | notebooks/preprocessing/data_manipulation.py:7 | a block none of whose characters is in the pattern passes through unchanged, and the text on each side of it is handled apart |
| Text.SplitPiecesFree | notebooks/preprocessing/data_manipulation.py:7 | no piece of a split contains the separator |
| Text.DeleteAllPrefix | notebooks/preprocessing/data_manipulation.py:7 | a prefix none of whose characters can start the pattern passes through the deletion unchanged |
| Text.DeleteAllAbsent | notebooks/preprocessing/data_manipulation.py:7 | a string without the pattern is left unchanged |
| Text.DeleteAllChars | notebooks/preprocessing/data_manipulation.py:7 | the deletion adds no character; a character not in the pattern is in the result exactly when it is in the input |
| Text.DeleteAllLength | notebooks/preprocessing/data_manipulation.py:7 | the result is shorter than the input by the pattern length times the number of occurrences removed |
| DataManipulation.Elements | notebooks/preprocessing/data_manipulation.py:5 | what `map` iterates over: the one-character strings of a plain label, or the parts of a tuple; its contract is `CleanPlainLabel` and `CleanTupleLabel` |
| DataManipulation.CleanElement | notebooks/preprocessing/data_manipulation.py:5 | one element with its end newlines stripped, then its end marker characters; its contract is `CleanOneChar`, `MarkerStripNA` and `MarkerStripIsCharSet` |
| DataManipulation.CleanEach | notebooks/preprocessing/data_manipulation.py:5 | the `map` over the elements gives one cleaned element per element |
| DataManipulation.CleanLabel | notebooks/preprocessing/data_manipulation.py:5 | the cleaned elements joined with no separator; its contract is `CleanPlainLabel` and `CleanTupleLabel` |
| DataManipulation.BaseName | notebooks/preprocessing/data_manipulation.py:6 | the specifier without end newlines, `": "` and the cleaned label; `NameBySides` states what the deletions do to each part |
| DataManipulation.NewColumnName | notebooks/preprocessing/data_manipulation.py:4-8 | the final name is never longer than the name before the two deletions |
| DataManipulation.CleanOneChar | notebooks/preprocessing/data_manipulation.py:5 | cleaning a one-character element deletes it exactly when it is a newline or one of `<`, `N`, `A`, `>` |
| DataManipulation.CleanPlainLabel | notebooks/preprocessing/data_manipulation.py:5 | for a plain string label the cleaned text is the label with every newline, `<`, `N`, `A` and `>` removed, other characters in order |
| DataManipulation.CleanTupleLabel | notebooks/preprocessing/data_manipulation.py:5 | for a tuple label each part is cleaned on its own and the results are joined in order with no separator |
| DataManipulation.MarkerStripNA | notebooks/preprocessing/data_manipulation.py:5 | an element `<NA>` cleans to the empty string |
| DataManipulation.MarkerStripIsCharSet | notebooks/preprocessing/data_manipulation.py:5 | the marker strip is by character set: `NAME` cleans to `ME` |
| DataManipulation.NameBySides | notebooks/preprocessing/data_manipulation.py:6-7 | neither deleted text can reach across the `": "` glue: the name is the specifier side after both deletions, `": "`, and the label side after both deletions |
| DataManipulation.NameKeepsSeparator | notebooks/preprocessing/data_manipulation.py:6-7 | the name contains the substring `": "`, so no synthesized name equals "year" |
| DataManipulation.NameWithoutMarkers | notebooks/preprocessing/data_manipulation.py:6-7 | a base name with neither "nan" nor backslash-`n` is returned as it is |
| DataManipulation.NameBySplitting | notebooks/preprocessing/data_manipulation.py:6-7 | the final name is the base name split at "nan" and rejoined with nothing, then split at backslash-`n` and rejoined with nothing |
| DataManipulation.NameOfCleanLabel | notebooks/preprocessing/data_manipulation.py:4-8 | for a plain label free of newlines and marker characters, and a specifier (possibly empty) without 'n', backslash or end newline, the name is the specifier, `": "` and what the two deletions leave of the label |
| DataManipulation.NanMaySurvive | notebooks/preprocessing/data_manipulation.py:7 | label `nnanan` under specifier `x` gives `x: nan`, which still contains "nan" |
| DataManipulation.EscapeMaySurvive | notebooks/preprocessing/data_manipulation.py:7 | a label of two backslashes and two `n`s under specifier `x` gives `x: ` followed by backslash-`n` |
| DataManipulation.EscapeDeletionMakesNan | notebooks/preprocessing/data_manipulation.py:7 | label `na`, backslash-`n`, `n` under specifier `x` gives `x: nan`: the second deletion creates a "nan" |
| DataManipulation.NanInsideWords | notebooks/preprocessing/data_manipulation.py:7 | "nan" is deleted inside words: label `Finanzen` gives `x: Fizen` |
| DataManipulation.NameGrid | notebooks/preprocessing/data_manipulation.py:12-14 | the names as a grid with one row per specifier value and one column per label |
| DataManipulation.CreateNewCols | notebooks/preprocessing/data_manipulation.py:11-15 | `create_new_cols`: the name grid read row by row; its contract is `CreateNewColsLength` and `CreateNewColsAt` |
| DataManipulation.NoYearName | notebooks/preprocessing/data_manipulation.py:25 | no name in the list is "year", so the later `insert` never meets a duplicate label |
| DataManipulation.CreateNewColsLength | notebooks/preprocessing/data_manipulation.py:11-15 | there are exactly `S * M` names |
| DataManipulation.CreateNewColsAt | notebooks/preprocessing/data_manipulation.py:12-14 | the name at `i * M + j` is built from specifier `i` and label `j`, with the specifier as the outer loop |
| DataManipulation.ValueGrid | notebooks/preprocessing/data_manipulation.py:21 | `df.loc[:, other_columns]`: one row per frame row, with the cells under the requested labels in their order |
| DataManipulation.Flatten | notebooks/preprocessing/data_manipulation.py:21 | `.to_numpy().flatten()` of that block, row by row; its contract is `FlattenLength` and `FlattenAt` |
| DataManipulation.FlattenLength | notebooks/preprocessing/data_manipulation.py:21 | flattening the selected block gives `R * M` values |
| DataManipulation.FlattenAt | notebooks/preprocessing/data_manipulation.py:21 | the value at `i * M + j` is row `i`'s cell under label `others[j]` (row-major order) |
| DataManipulation.CreateTransformedDf | notebooks/preprocessing/data_manipulation.py:17-27 | `create_transformed_df`, with `KeyError`, `IndexError`, `LengthMismatch` and `DuplicateColumn` as results, tested in the source's order; its contract is `CreateTransformedDfOutcome`, `CreateTransformedDfShape` and `CreateTransformedDfAt` |
| DataManipulation.CreateTransformedDfOutcome | notebooks/preprocessing/data_manipulation.py:17-28 | `KeyError` exactly when a requested label is not a column; otherwise `IndexError` exactly when there is no row or no requested label; otherwise `LengthMismatch` exactly when the row count differs from the specifier count; never `DuplicateColumn`; success in every remaining case |
| DataManipulation.CreateTransformedDfShape | notebooks/preprocessing/data_manipulation.py:24-25 | on success the frame has one row of `S * M + 1` cells under as many labels, "year" and the year first |
| DataManipulation.CreateTransformedDfAt | notebooks/preprocessing/data_manipulation.py:18-25 | on success position `1 + i * M + j` holds row `i`'s cell under `others[j]`, under the name built from specifier `i` and `others[j]` |
| DataManipulation.KeepRows | notebooks/preprocessing/data_manipulation.py:30 | the filter returns no more rows than it got, each a row of the input whose specifier cell is interesting |
| DataManipulation.KeptPositions | notebooks/preprocessing/data_manipulation.py:30 | the positions of the rows whose specifier cell is interesting, from a starting position on; its contract is `KeptPositionsAscend` and `KeptPositionsExact` |
| DataManipulation.KeptPositionsAscend | notebooks/preprocessing/data_manipulation.py:30 | the kept positions are strictly increasing and lie in range |
| DataManipulation.KeptPositionsExact | notebooks/preprocessing/data_manipulation.py:30 | a position is kept exactly when its specifier cell is interesting |
| DataManipulation.KeepRowsAtPositions | notebooks/preprocessing/data_manipulation.py:30 | the kept rows are the input rows at the kept positions |
| DataManipulation.KeepRowsSelects | notebooks/preprocessing/data_manipulation.py:30 | the kept rows are exactly the rows with an interesting specifier value, in their original order |
| DataManipulation.SpecifierColumn | notebooks/preprocessing/data_manipulation.py:32 | the specifier column has one value per kept row |
| DataManipulation.OtherColumns | notebooks/preprocessing/data_manipulation.py:33 | a label is among the other columns exactly when it is a column other than the key |
| DataManipulation.OtherColumnsRemoves | notebooks/preprocessing/data_manipulation.py:33 | with distinct labels, the other columns are the columns with the key's one position cut out, order kept |
| DataManipulation.OtherColumnsAbsent | notebooks/preprocessing/data_manipulation.py:33 | when the key is not a column every label is kept |
| DataManipulation.FilteredRowsWellFormed | notebooks/preprocessing/data_manipulation.py:30 | the filtered frame keeps the column labels and stays rectangular |
| DataManipulation.TransformOneDf | notebooks/preprocessing/data_manipulation.py:29-35 | `transform_one_df`: a `KeyError` for a missing key, otherwise the kept rows handed on to `create_transformed_df`; its contract is `TransformOneDfOutcome`, `TransformOneDfShape` and `TransformOneDfAt` |
| DataManipulation.TransformKept | notebooks/preprocessing/data_manipulation.py:32-35 | the specifier column and the other labels of the filtered frame passed to `create_transformed_df`; its contract is the three `TransformOneDf` lemmas |
| DataManipulation.TransformOneDfOutcome | notebooks/preprocessing/data_manipulation.py:21-35 | `KeyError` exactly when the key is not a column; `IndexError` exactly when it is one but no row is kept or the key is the only column; success exactly in every other case |
| DataManipulation.TransformOneDfShape | notebooks/preprocessing/data_manipulation.py:30-35 | when the key is a column, some row is kept and there is another column, the call succeeds; the key is not among the other columns, which number one fewer than the columns, and the frame is one row of `K * M + 1` cells with "year" and the year first |
| DataManipulation.TransformOneDfAt | notebooks/preprocessing/data_manipulation.py:21-35 | on success position `1 + i * M + j` holds kept row `i`'s cell under `others[j]`, under the name built from that row's specifier value and `others[j]` |
| DataManipulation.NoKeptRowRaises | notebooks/preprocessing/data_manipulation.py:22 | a frame whose one row has an uninteresting key value gives `IndexError` |
| DataManipulation.KeyOnlyRaises | notebooks/preprocessing/data_manipulation.py:22 | a frame holding only the key column gives `IndexError` even when its row is kept |

## Left out

- `notebooks/models.py` is not part of this model. Its plot styling and plot builders are rendering calls, and its dataset getters are CSV reading and date parsing.
- `filtered_values` (line 22) is left out as a value: it is computed and never used. Its floating-dtype mask is left out too, because cells are modelled as rendered strings. The one effect line 22 has on the result is modelled: on an empty block its index array is `np.array([])`, which raises `IndexError`.
- pandas and numpy themselves are replaced by sequences and indexing. This covers `DataFrame` construction, `.loc`, `.isin`, `.to_numpy().flatten()` and `insert`. Their index objects, dtypes and copies are not modelled.
- Python's `str()` of arbitrary objects is left out. Cells, specifier values and label parts are taken as already-rendered strings, for example NaN as `"nan"` and the missing value as `"<NA>"`. NaN's special behaviour in `isin` is therefore not modelled either.
- Labels that are not iterable are not modelled. Line 5 iterates over the label, so an integer or float label raises `TypeError` there. Tuples holding non-strings are covered with each part already rendered by `str()`.
- Input frames with repeated column labels are excluded by `WellFormed`, because pandas then returns several columns for one label. The output frame may repeat a synthesized name, and the model allows that, as pandas does.
- The stationarity tests and the lag-shifting helper are not part of this model. Their source is not among the files modelled, and they are statistical library calls over floats.
- `NewColumnName`: its own contract states only the length bound. Its exact effect is stated by `NameBySides`, `NameOfCleanLabel`, `NameBySplitting`, `NameWithoutMarkers` and the `Text` lemmas about `DeleteAll`.
- `DeleteAll`: its own contract states only the length bound. Its exact effect is stated by `DeleteAllAtFirst`, `DeleteAllAbsent` and `DeleteAllUnique`.
- `Split`: its own contract states only that there is a piece. Its exact effect is stated by `SplitAtFirst`, `SplitAbsent`, `JoinSplit` and `SplitPiecesFree`.
