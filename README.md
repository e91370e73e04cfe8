# Co-occurrence matrix builder, modelled in Dafny

The web application takes uploaded CSV files. For each one it builds a
campaign co-occurrence matrix. A row holds a mail address in the column
`メール` and a campaign name in the column `キャンペーン名`. Two campaigns
co-occur once for every mail address that has both. `process_file` (app.py)
does four things:

1. It rejects a table that lacks either column.
2. It groups the rows by mail and takes each group's distinct campaign names.
3. It counts every unordered pair of them in a dictionary. The dictionary
   looks each pair up in both orientations, so a pair has only one key.
4. It writes the counts symmetrically into a zero-initialised square frame
   whose two axes are the sorted distinct campaign names. The file is written
   under the name `co_occurrence_matrix_<source name>`.

The model starts from a table that is already parsed. It stops at the values
that `to_csv` would write.

Files and modules:

- `collections.dfy`, module `Collections`: the library behaviour the code
  relies on. This is Python's ordering of `str`, `sorted` over distinct
  values, pandas' `unique()`, and the lookup of a label's position.
- `tables.dfy`, module `Tables`: the parsed table, the two column names, and
  the column check with the projection.
- `counting.dfy`, module `PairCounting`: what a cell must hold (`Cell`:
  the number of distinct mails that have both campaigns), the dictionary
  lookup in both orientations, and the nested counting loops.
- `matrix.dfy`, module `CoOccurrence`: the filling of the `array2` matrix,
  the output name, and `ProcessFile`, which ties everything together.
- `properties.dfy`, module `CoOccurrenceFacts`: lemmas about what a cell
  means.

The counter keeps each pair under the orientation in which it is first seen,
and it checks both orientations when it looks a pair up.
`PairCounting.SingleKeyed` states the resulting invariant: at most one
orientation of each pair is a key.

## Model

| member | source | states |
|---|---|---|
| `Tables.Select` | app.py:35-39 | fails with `MissingColumns` exactly when `メール` or `キャンペーン名` is not a column name; otherwise there is one entry per row, holding the row's cells under the first column of each name |
| `Collections.Less` | app.py:52 | the order `sorted` uses: a string is never below itself, and a proper prefix is below the longer string |
| `Collections.SortedDistinct` | app.py:52 | `sorted(... .unique())`: the result is strictly ascending in Python's string order and holds exactly the values of the input |
| `Collections.Insert` | app.py:52 | inserting into a strictly ascending sequence keeps it strictly ascending and adds exactly the new value |
| `Collections.StrictlySortedUnique` | app.py:52 | two strictly ascending sequences with the same elements are equal, so the axis is determined by the set of campaign names |
| `Collections.LessTransitive` | app.py:52 | Python's `<` on `str` (code point by code point, a proper prefix first) is transitive |
| `Collections.LessTotal` | app.py:52 | any two different strings are ordered one way or the other |
| `Collections.LessAsymmetric` | app.py:52 | `a < b` excludes `b < a` |
| `Collections.SortedIsDistinct` | app.py:52 | a strictly ascending sequence has no repetitions |
| `Collections.Unique` | app.py:42 | `unique()`: no repetitions, exactly the values of the input, never longer than the input |
| `Collections.IndexOf` | app.py:55-56 | `.loc` lookup: the position of the first occurrence of the label |
| `Collections.IndexOfDistinct` | app.py:55-56 | in a sequence without repetitions, the lookup returns the element's own position |
| `Tables.MailValues` | app.py:41 | the `メール` column: one value per entry, the entry's mail, in row order |
| `Tables.CampaignValues` | app.py:52 | the `キャンペーン名` column: one value per entry, the entry's campaign name, in row order |
| `PairCounting.GroupCampaigns` | app.py:41-42 | the group of a mail holds exactly the campaign names that occur with that mail |
| `PairCounting.Increment` | app.py:45-50 | the dictionary update keeps at most one orientation of each pair as a key, and adds exactly one to the pair `{x, y}` and nothing to any other pair |
| `PairCounting.AddCombinations` | app.py:43-50 | `combinations(names, 2)` with the update: each unordered pair of two different names of the group gains exactly one, and every other pair is unchanged |
| `PairCounting.SharedAmongSnoc` | app.py:41 | one more group adds one to a pair's count exactly when that mail has both campaigns |
| `PairCounting.CountPairs` | app.py:40-50 | after all groups, the dictionary has at most one orientation per pair, its keys are campaign names of the table, and the count looked up for every pair equals `Cell` (zero when both names are the same) |
| `CoOccurrence.FillMatrix` | app.py:53-56 | the matrix is fresh and square over the axis, and cell `[i][j]` holds the dictionary's count for labels `i` and `j` in either orientation, 0 where there is no key |
| `CoOccurrence.CellAfterAdd` | app.py:55-56 | writing one key's count at `[r][c]` and `[c][r]` changes exactly those two cells; every other cell keeps the count it had |
| `CoOccurrence.OutputName` | app.py:59 | the name is the literal prefix `co_occurrence_matrix_` followed by the source file name |
| `CoOccurrence.OutputNameInjective` | app.py:59 | different source names give different output names |
| `CoOccurrence.ProcessFile` | app.py:32-60 | fails exactly when a required column is missing. Otherwise: the output name is as above; the axis is every campaign name once, ascending, including names that never co-occur; every cell `[a][b]` is the number of distinct mails with both `a` and `b`; the matrix is symmetric with a zero diagonal |
| `CoOccurrence.CellSymmetric` | app.py:55-56 | cell `[a][b]` equals cell `[b][a]` |
| `CoOccurrence.CoOccurrenceSymmetric` | app.py:53-56 | a co-occurrence matrix is symmetric and its diagonal is 0 |
| `CoOccurrence.CoOccurrenceUnique` | app.py:52-56 | the entries determine the axis and every cell uniquely |
| `CoOccurrenceFacts.CellDependsOnlyOnEntries` | app.py:41-43 | row order and repeated rows do not change any cell |
| `CoOccurrenceFacts.MailRows` | app.py:41 | the rows of one mail hold exactly that mail with each listed campaign name |
| `CoOccurrenceFacts.NewMailAddsOne` | app.py:41-50 | a mail not seen before adds exactly 1 to each pair of two different names among its campaigns, however often each name repeats, and 0 to every other pair |
| `CoOccurrenceFacts.IsolatedCampaignZeroRow` | app.py:52-53 | a campaign whose mails have no other campaign gets an all-zero row |
| `CoOccurrenceFacts.CellAtMostMails` | app.py:41-50 | no cell exceeds the number of distinct mails |
| `CoOccurrenceFacts.ExampleMatrix` | app.py:41-56 | for mail 1 with X and Y, mail 2 with X and Z, and mail 3 with Y, the axis is X, Y, Z and the matrix is `[[0,1,1],[1,0,0],[1,0,0]]`: Y and Z are on the axis although they never meet |
| `CoOccurrenceFacts.ProcessExample` | app.py:32-60 | processing that five-row upload under the name `in.csv` succeeds and yields exactly the file `co_occurrence_matrix_in.csv` with that axis and those cells |

## Left out

- The Flask routes `index`, `complete` and `download_file` (app.py:13-30, app.py:65-76, and the `__main__` block at app.py:78-79): HTTP handling, saving uploads, listing the output directory and templates.
- Reading and writing files: `pd.read_csv` and `to_csv(..., encoding='utf-8-sig')` (app.py:34, app.py:60). The model takes the parsed table and returns what would be written. Joining the output name with the `outputs` directory (app.py:59) is filesystem effect and is not modelled; the file name itself is.
- The `except Exception` that prints the error (app.py:62-63): a failure is a `Failure` result instead of a printed message.
- pandas value semantics: every cell is treated as text, and an empty cell is the name `""`. In the code, `read_csv` reads an empty cell, or text such as `NA`, as NaN. A NaN among the campaign names makes `sorted` (app.py:52) raise `TypeError`; the `except` prints it and no file is written. `groupby` (app.py:41) skips a row whose mail is NaN, but that row's campaign still goes onto the axis. None of this is modelled, and neither are numeric column types, which would sort differently. A parsed frame is always rectangular; `ProcessFile` and `Tables.Select` require that.
- Duplicate column names: `read_csv` renames repeated headers, so the projection uses the first column of each name.
- `Collections.Unique`: states no repetitions and the same values, but not the order of first appearance. That order only decides which orientation of a pair becomes the dictionary key. It changes no count.
- `CoOccurrence.FillMatrix`: visits the dictionary's keys in any order instead of insertion order. Each pair has one key, so the filled matrix does not depend on the order.
- static/js/main.js: browser UI (drag and drop, upload requests, progress display). Its `formatFileSize` uses floating point and is not modelled.
