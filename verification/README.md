# GetCsvInfo: the classifier and the column projector, modelled in Dafny

GetCsvInfo is a pair of batch CSV tools.

- `refactor_csv.py` is the content classifier. It reads every row's `content`, trims it, and tries an ordered mapping of rules. A rule has a regular expression `code`, tried as a prefix match, and an exact `abbreviation`. The first rule that hits yields one record. The record's `id` is the MD5 digest of its content and coordinates. The records are written under the columns `id, content, x, y, z, layer, style` to `refactored_<name>`.
- `useless_process_csv.py` is the column projector. It looks for a fixed list of keywords in the file stem and uses the first one it finds to pick a configured column list, falling back to `default`. It then keeps the requested columns the file has, in requested order, and writes them to `filtered_<name>`.

The model has four modules:

- `Table` (table.dfy) holds cells, rows and frames. A row is a map from column name to cell. A cell is Python `None`, a NaN, or a value kept as its `str()` text.
- `Text` (text.dfy) holds Python's `str.strip()` and the substring test `sub in s`.
- `Classifier` (classifier.dfy) models `refactor_csv.py`. `process_csv_file` is two methods. `ProcessCsvFile` runs the row loop and grows the result sequence. `ClassifyRow` is the loop body: the skip test, the trim, and the rule loop with its `continue` and `break`. The methods are proved to return `ClassifyFile` and `RowRecord`, the specification functions, and the lemmas state what the source promises about those functions.
- `Projector` (projector.dfy) models `useless_process_csv.py`. That code is pure, so the model is functions and lemmas.

The regular-expression engine is the parameter `matcher`. It takes a pattern and a subject and returns `Match`, `NoMatch` or `RegexError`, the last standing for a raised `re.error`. The MD5 digest is the parameter `md5`, a function from the digested text to the id.

## Model

| member | source | states |
|---|---|---|
| `Text.Strip` | refactor_csv.py:62 | `str.strip()`: `lstrip` then `rstrip`; what it leaves is stated by `StripIsTrim` |
| `Text.Contains` | useless_process_csv.py:50 | Python's `sub in s`: `sub` is a prefix of `s` or occurs in its tail; `ContainsIffOccurs` states it as occurrence at a position |
| `Table.Get` | refactor_csv.py:79-83 | `row.get(c)` is the row's cell for `c`, or `None` when the row lacks the column |
| `Text.StripStartSpec` | refactor_csv.py:62 | `lstrip()` gives a suffix of the input; everything cut is white space; the result does not start with white space |
| `Text.StripEndSpec` | refactor_csv.py:62 | `rstrip()` gives a prefix of the input; everything cut is white space; the result does not end with white space |
| `Text.StripIsTrim` | refactor_csv.py:62 | `strip()` gives a contiguous slice with only white space cut on either side and none left at either end |
| `Text.StripIdempotent` | refactor_csv.py:62 | stripping twice equals stripping once |
| `Text.Prefixed` | refactor_csv.py:173 | an output name is the prefix followed by the whole input name, nothing added or lost |
| `Text.ContainsIffOccurs` | useless_process_csv.py:50 | `keyword in name` holds exactly when the keyword occurs at some position of the name |
| `Classifier.IsBlank` | refactor_csv.py:59 | the skip test `pd.isna(content) or content == ""`: `None`, NaN or the empty string, and nothing else |
| `Classifier.HashKey` | refactor_csv.py:26-32 | the text `generate_hash` digests: `str()` of content, x, y, z and layer, concatenated without separator |
| `Classifier.Hits` | refactor_csv.py:69-103 | a rule ends the rule loop when it has a non-empty code and its regex prefix-matches, or the regex fails without error and the non-empty abbreviation equals the content |
| `Classifier.MakeRecord` | refactor_csv.py:77-86 | the record's content is the trimmed text; x, y, z, layer and style are the row's cells unchanged; its id is the digest of its own five key fields |
| `Classifier.FirstHitFrom` | refactor_csv.py:65-103 | the returned rule hits, and no rule between the start and it hits; none returned means no rule from the start hits |
| `Classifier.FirstHit` | refactor_csv.py:65-103 | the claiming rule hits, and every earlier rule was skipped (no code), failed both tests, or raised a regex error |
| `Classifier.RowRecord` | refactor_csv.py:55-103 | the record one row contributes: none for blank content, else the record of the trimmed text when some rule hits it; its properties are stated by `RowRecordSpec` |
| `Classifier.RowRecordSpec` | refactor_csv.py:55-103 | null or `""` content yields nothing; other content yields a record exactly when some rule hits the trimmed text; that record is the one `MakeRecord` builds |
| `Classifier.ClassifyRow` | refactor_csv.py:55-106 | the skip test, trim and rule loop (`continue` for a rule without code, `break` on the first hit, a regex error moving on) return exactly `RowRecord` of the row |
| `Classifier.FillStyle` | refactor_csv.py:43-44 | adds a `style` column when there is none, keeps every other column and the row count, and changes no `row.get` value |
| `Classifier.ClassifyFile` | refactor_csv.py:36-120 | one file's outcome: fill style, skip without `content`, no output when no row yields a record, else the seven fixed columns and the rows' records in row order; stated by `ClassifyFileOutcome`, whose records are `Classified` of the input rows, with `ClassifiedAppend` and `ClassifiedOrigin` for order and origin |
| `Classifier.ProcessCsvFile` | refactor_csv.py:36-120 | the row loop, appending each row's record in turn, returns exactly `ClassifyFile` of the input frame |
| `Classifier.ClassifiedAppend` | refactor_csv.py:55-86 | the records of concatenated rows are the concatenated records: rows are independent and records keep row order |
| `Classifier.ClassifiedAtMostOnePerRow` | refactor_csv.py:65-103 | there are never more records than rows |
| `Classifier.ClassifiedOrigin` | refactor_csv.py:55-103 | every record is the record of some input row |
| `Classifier.ClassifiedEmptyIff` | refactor_csv.py:109-120 | there are no records exactly when no row yields one |
| `Classifier.ClassifiedIdsConsistent` | refactor_csv.py:22-33 | every record's id is the digest of `content+x+y+z+layer` in string form |
| `Classifier.FillStyleKeepsRecords` | refactor_csv.py:43-44 | filling the style column changes no row's record |
| `Classifier.ClassifyFileOutcome` | refactor_csv.py:43-120 | without a `content` column nothing is written; with no record nothing is written; otherwise the columns are exactly `id, content, x, y, z, layer, style`, the records are those of the input rows in row order (the style fill changes none), there are between 1 and row-count of them, and every id is consistent |
| `Classifier.ClassifiedPointwise` | refactor_csv.py:55-86 | rows that yield the same record one by one yield the same record sequence |
| `Classifier.FirstMatchWins` | refactor_csv.py:88-89 | once a rule claims the content, appending further rules changes nothing |
| `Classifier.InertRuleIsTransparent` | refactor_csv.py:69-106 | a rule without a code, or one whose pattern raises a regex error, can be inserted anywhere without changing which rule claims the content |
| `Classifier.IdDependsOnKeyFieldsOnly` | refactor_csv.py:22-33 | rows agreeing on content, x, y, z and layer get the same id, whatever their style |
| `Classifier.HashKeyIgnoresFieldBoundaries` | refactor_csv.py:32 | the digested text has no separators: any two contents and x cells whose `str()` forms run together to the same text digest the same text, whatever y, z and layer are (content `A1` with x `2` collides with content `A` with x `12`, and content `AN` with x `one` with content `A` and x missing) |
| `Classifier.WhitespaceContentIsNotSkipped` | refactor_csv.py:58-62 | any non-empty content made only of white space is not skipped; it is trimmed to `""` and yields the record for `""` exactly when some rule hits `""` |
| `Classifier.RefactoredName` | refactor_csv.py:173 | the classifier's output name: `Prefixed` with `refactored_` |
| `Projector.LastDot` | useless_process_csv.py:33 | the position of the last dot in the name, or -1 when there is none |
| `Projector.Stem` | useless_process_csv.py:33 | the stem is a prefix of the name; when shorter, it ends before the last dot, which is neither the first nor the last character |
| `Projector.FirstKeyword` | useless_process_csv.py:49-53 | the keyword loop: the first listed keyword occurring in the stem, else `"default"`; stated by `FirstKeywordIsEarliest` |
| `Projector.FirstKeywordIsEarliest` | useless_process_csv.py:49-53 | the search returns the earliest listed keyword that occurs in the stem, and `"default"` when none occurs |
| `Projector.GetFileKeyword` | useless_process_csv.py:25-53 | `get_file_keyword`: the keyword search over the ten literal keywords applied to the file stem; stated by `GetFileKeywordSpec` |
| `Projector.GetFileKeywordSpec` | useless_process_csv.py:25-53 | the keyword is `"default"` exactly when none of the ten keywords occurs in the stem; otherwise it is the earliest one that occurs |
| `Projector.SelectColumns` | useless_process_csv.py:147-153 | a configured keyword gives its own `columns`, or a `KeyError` when its entry has none; otherwise the `default` entry's columns, or `[]` |
| `Projector.FilteredName` | useless_process_csv.py:162 | the projector's output name: `Prefixed` with `filtered_` |
| `Projector.PlanFile` | useless_process_csv.py:141-165 | a file is extracted only under `filtered_<name>` and only with a non-empty column list |
| `Projector.PlanFileUsesKeyword` | useless_process_csv.py:143-150 | a stem whose earliest keyword is configured is extracted with that keyword's column list when it is non-empty, skipped when it is empty, and aborts the run when the entry has no `columns` |
| `Projector.PlanFileFallsBackToDefault` | useless_process_csv.py:147-157 | a stem holding no keyword uses the `default` columns: it is skipped when there is no `default` entry or its list is empty, it is extracted with a non-empty `default` list, and the run aborts when the `default` entry has no `columns` |
| `Projector.MissingColumns` | useless_process_csv.py:72 | a column is missing exactly when it is requested and not available |
| `Projector.ExistingColumns` | useless_process_csv.py:78 | a column exists exactly when it is requested and available |
| `Projector.ColumnsPartition` | useless_process_csv.py:72-78 | missing and existing columns split the requested list: their multisets add up to it and their lengths sum to its length |
| `Projector.ExistingIsSubsequence` | useless_process_csv.py:78 | the existing columns are a subsequence of the requested list, in requested order |
| `Projector.ExistingDependsOnMembership` | useless_process_csv.py:78 | the existing columns depend only on which requested columns are available |
| `Projector.Restrict` | useless_process_csv.py:85 | a restricted row keeps the cells of the kept columns and no others |
| `Projector.Project` | useless_process_csv.py:85 | `df[cols]` has the columns `cols` and every row, each restricted to `cols` |
| `Projector.ExtractColumns` | useless_process_csv.py:65-92 | `process_csv_file` of the projector: nothing when no requested column exists, else the file projected on the existing columns; stated by `ExtractColumnsOutcome` |
| `Projector.ExtractColumnsOutcome` | useless_process_csv.py:65-92 | nothing is written when no requested column is present; otherwise the output has exactly the existing columns, in requested order, all of them file columns, with every row and its values kept |
| `Projector.ExtractColumnsIdempotent` | useless_process_csv.py:78-88 | projecting an output again with the same column list gives the same output |

## Left out

- File-system work is not modelled: reading the YAML configuration, setting up the logger, every log message, creating the output directory, enumerating `*.csv`, and deleting old outputs. An outcome value stands in for "skip this file".
- The per-file batch loops of both `main` functions are not modelled. In the classifier every file's outcome is a function of that file alone. In the projector an `Abort` plan (useless_process_csv.py:148, an uncaught `KeyError` for an entry without `columns`) ends the whole batch: the files after it get no outcome at all, which the per-file `PlanFile` does not express. Also left out is the check that stops the classifier run when `pattern_mapping` is empty.
- `process_csv_file` appends a record inside its rule loop. The model's `ClassifyRow` returns that record, and `ProcessCsvFile` appends it. The order and the number of appends are the same.
- pandas `read_csv` and `to_csv` and the UTF-8 BOM encoding are not modelled. A frame is a column list and a sequence of rows.
- The regular-expression engine and MD5 are the parameters `matcher` and `md5`. Compiling a pattern, and the `re.error` it may raise, are one `RegexError` result.
- A cell's `str()` text is not derived from pandas' value formatting. A value cell stores the text `str()` would give, and `None` and NaN print as `None` and `nan`.
- The per-file `except Exception` handler (refactor_csv.py:122) is not modelled beyond a rule's `re.error`. A rule entry that is not a mapping, or a `code` that is not a string, raises when the rule loop reaches it for a non-blank row, and the file then gets no output; rules here are records of strings.
- `Projector.Stem` models `Path.stem` for a bare file name under the rule Python 3.12 uses: a last dot at position 0 or at the end starts no suffix. Directory parts are not modelled.
- `Text.IsSpace` lists the characters that Python's `str.isspace` accepts, written out by hand rather than taken from the Unicode database.

## Notes on the code's behaviour

- Only a raw null, NaN or `""` content is skipped (refactor_csv.py:59). White-space-only content is trimmed to `""` and still tried against the rules (`WhitespaceContentIsNotSkipped`).
- A missing or NaN field enters the digest as `None` or `nan`, its `str()` form (refactor_csv.py:26-32).
- When a rule's pattern raises `re.error`, that rule's abbreviation is not tried, because the exact-match test is the `elif` of the failed regex test (refactor_csv.py:88-106).
- Records carry no rule label. The module's own docstring mentions an abbreviation field, but the code never adds one.
