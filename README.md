# Financial table clean-up, modelled in Dafny

This project models the data-cleaning helpers of `functions.py` and the financial
reconciliation pass `process_financial_dataframe`, and proves what they guarantee.

**The reconciliation pass.** It receives a table, a list of columns to check and a
CAD-to-USD rate. For every row, and every listed column in list order, a present cell goes
through these steps:

- it is replaced by its cleaned number;
- a CAD-tagged value is multiplied by the rate;
- the words found in the cell are appended to the row's `Notes`, labelled with the column,
  together with a CAD remark when there is one;
- a value whose words mention "ltm" or "ttm" is copied into `LTM EBITDA` or `LTM Revenue`;
- an audit record is kept.

**The leaf functions.** These are the numeric cleaner, the text extractor, the CAD
classifier and the target-column resolver. The basic cleaners are column-name cleansing,
missing-value normalisation, dash-text tidying and phone cleaning.

**Files.**

- `Cells.dfy`: a cell is `Missing`, `Num(real)` or `Str(string)`.
- `Strings.dfy`: character classes, filtering, whitespace stripping as Python's
  `str.strip`, substring search and `join`.
- `FinancialFields.dfy`: `clean_numeric_value`, `extract_text_content`,
  `find_target_column` and `is_cad_currency`.
- `BasicCleaning.dfy`: `cleanse_column_names`, `modernize_nans`, `clean_dash_text` and
  `clean_phone`.
- `Frames.dfy`: a table value (`Frame`: column order, columns and height) and a `Table`
  class whose fields the pass updates in place.
- `Reconcile.dfy`: the pass in two forms.
  - As functions: `Step` for one cell, `RunRow`, `RunRows`, `Processed` and `AuditLog`.
  - As the imperative code: `ProcessFinancialDataframe` with its two nested loops, whose
    methods are proved to produce exactly `Processed` and `AuditLog`.
- `ReconcileProperties.dfy`: what the pass guarantees, cell by cell, row by row and for
  the whole table.

**How numbers become text.** Python's `str()` of a number is a caller-supplied function
`render: real -> string`. It is used wherever the source applies `str()` to a value that
may be a number.

**How rows are read.** The rows are read from the table as it stands after the notes
column has been added. `iterrows` iterates over the values taken when the loop starts. The
notes cell, however, is read live from the table being updated.

**Behaviour worth knowing.**

- `"CAD (100)"` cleans to `100`. The stripped text starts with `C`, so it is not wrapped
  in parentheses. At rate 0.73 the cell therefore becomes `73.0`.
- The `Notes` column is created before any row is processed, even when no note is ever
  written.
- The audit record's "Notes Added" field is recomputed for each cell. It is `None` when the
  cell gave no fragment. No value from an earlier cell leaks into it.

## Model

| member | source | states |
|---|---|---|
| BasicCleaning.CleanName | functions.py:10 | a cleaned name has no surrounding whitespace and no line break |
| BasicCleaning.CleanNameKeeps | functions.py:10 | cleaning a name removes whitespace only: its other characters all survive, in order |
| BasicCleaning.CleanseColumnNames | functions.py:8-11 | same number of names, in place and order; each one is its cleaned form, trimmed and free of line breaks |
| BasicCleaning.CleanNameFixpoint | functions.py:10 | a trimmed name without line breaks is left unchanged |
| BasicCleaning.CleanseColumnNamesIdempotent | functions.py:8-11 | cleansing twice equals cleansing once |
| BasicCleaning.ModernizeCell | functions.py:15 | a token ("N/A", "NA", "None", "-", "") or missing cell becomes missing; any other cell is unchanged |
| BasicCleaning.ModernizeNans | functions.py:13-16 | names, height and columns kept; every token cell becomes missing and every other cell is unchanged |
| BasicCleaning.ModernizeNansIdempotent | functions.py:13-16 | no token survives, and a second pass changes nothing |
| BasicCleaning.DropLeadingDash | functions.py:48 | the result is no longer than the input and only uses its characters |
| BasicCleaning.ReplaceDashes | functions.py:51 | no '-' remains; every character comes from the input or from ", " |
| BasicCleaning.ReplaceDashesFixpoint | functions.py:51 | text without '-' is unchanged |
| BasicCleaning.ReplaceDashesKeeps | functions.py:51 | the replacement rewrites only whitespace, dashes and commas: every other character survives, in order |
| BasicCleaning.ReplaceDashesPrefix | functions.py:51 | text without '-' that does not end in whitespace passes through unchanged, whatever follows it |
| BasicCleaning.ReplaceDashesDash | functions.py:51 | a '-' at the front, with the whitespace after it, becomes ", " |
| BasicCleaning.ReplaceDashesAt | functions.py:51 | in `a + "-" + b`, with `a` free of '-', the whitespace at the end of `a`, the dash and the whitespace after it become ", ", and the rest of `b` is replaced in turn; with ReplaceDashesFixpoint this fixes the result on every input |
| BasicCleaning.ReplaceDashesSpaced | functions.py:51 | "x - y" becomes "x, y": the whitespace on both sides of the dash is consumed |
| BasicCleaning.CleanDashText | functions.py:40-56 | missing passes through; anything else becomes trimmed text without '-'; the text in between is fixed by ReplaceDashesAt and ReplaceDashesFixpoint |
| BasicCleaning.CleanDashTextSpaced | functions.py:40-56 | "x - y" is tidied to "x, y" |
| BasicCleaning.CleanDashTextIdempotent | functions.py:40-56 | tidying twice equals tidying once |
| BasicCleaning.CleanDashTextKeeps | functions.py:40-56 | tidying removes or rewrites only whitespace, dashes and commas: every other character of the text survives, in order |
| BasicCleaning.CleanPhone | functions.py:58-62 | missing exactly when the input is missing; otherwise only digits, never longer than the input text |
| BasicCleaning.CleanPhoneKeepsDigits | functions.py:62 | every digit of the input survives; an all-digit string is unchanged |
| BasicCleaning.CleanPhoneAppend | functions.py:62 | the cleaned text of `a + b` is the cleaned text of `a` followed by that of `b`, so the digits survive in order; with CleanPhoneDropsNonDigit and CleanPhoneKeepsDigits this fixes the result character by character |
| BasicCleaning.CleanPhoneDropsNonDigit | functions.py:62 | a single character that is not a digit cleans to the empty text |
| BasicCleaning.CleanPhoneIdempotent | functions.py:58-62 | cleaning twice equals cleaning once |
| FinancialFields.Unwrapped | functions.py:78-80 | removing the wrapping parentheses keeps the digits and dots |
| FinancialFields.ParseDecimal | functions.py:89 | a successful parse is never negative |
| FinancialFields.ParseDecimalDefined | functions.py:88-95 | `float()` of the digit-and-dot residue succeeds iff it has a digit and at most one '.' |
| FinancialFields.ShiftDivides | functions.py:89 | `Shift(v, n)` is `v` divided by 10^n |
| FinancialFields.ParseDecimalWhole | functions.py:89 | a non-empty digit string parses to its decimal value |
| FinancialFields.ParseDecimalPoint | functions.py:89 | `w.f` (digit strings, not both empty) parses to the value of `w` plus the value of `f` divided by 10^\|f\| |
| FinancialFields.ParseDecimalExample | functions.py:89 | "1234.50" parses to 1234.5 |
| FinancialFields.CleanNumeric | functions.py:66-95 | never text; missing stays missing; a number passes through unchanged |
| FinancialFields.CleanNumericText | functions.py:74-95 | text cleans to a number or to missing, never to text |
| FinancialFields.ResidueIsFilter | functions.py:74-83 | the text that is parsed is exactly the digits and dots of the input, in order |
| FinancialFields.CleanNumericMissingIff | functions.py:83-95 | text cleans to missing iff it has no digit or has more than one '.' |
| FinancialFields.Unsigned | functions.py:83-89 | the unsigned parse is never negative |
| FinancialFields.CleanNumericSign | functions.py:76-92 | the sign comes only from parentheses around the whole stripped text |
| FinancialFields.LeadingMinusIgnored | functions.py:83 | a leading '-' is dropped: "-" + s cleans to the magnitude of what s cleans to |
| FinancialFields.Words | functions.py:105 | every word found is a non-empty run of ASCII letters |
| FinancialFields.WordsOfWord | functions.py:105 | a non-empty run of letters is found as one word |
| FinancialFields.WordsSplit | functions.py:105 | a non-letter splits the text: the words of `a + [x] + b` are those of `a` followed by those of `b`, so runs are maximal |
| FinancialFields.WordsKeepLetters | functions.py:105 | the words, concatenated, are exactly the letters of the text |
| FinancialFields.JoinWords | functions.py:107 | joining words with ' ' gives single-spaced text that keeps their letters |
| FinancialFields.ExtractText | functions.py:98-107 | no contract of its own; `ExtractTextShape` and `ExtractTextEmptyIff` state that the result is single-spaced letters, that its letters are exactly the input's, and that it is '' iff the input has no letter |
| FinancialFields.ExtractTextShape | functions.py:98-107 | the result is letters separated by single spaces, and its letters are exactly the input's letters |
| FinancialFields.ExtractTextEmptyIff | functions.py:107 | the result is '' iff the input has no letter |
| FinancialFields.ExtractTextContent | functions.py:98-107 | a missing value gives ''; the result is always single-spaced letters |
| FinancialFields.IsCadCurrency | functions.py:118-123 | a missing value is never CAD |
| FinancialFields.IsCadText | functions.py:118-123 | no contract of its own; `IsCadTextIff` states that the text is CAD iff its lower-cased form contains "cad" or "c$" |
| FinancialFields.IsCadTextIff | functions.py:122-123 | CAD iff the lower-cased text contains "cad" or "c$" |
| FinancialFields.NoLettersNotCad | functions.py:123 | text without letters is never CAD |
| FinancialFields.FindTarget | functions.py:109-116 | a found target is "LTM EBITDA" or "LTM Revenue"; `FindTargetIff` fixes which one in each case |
| FinancialFields.FindTargetIff | functions.py:109-116 | LTM EBITDA iff "ltm" occurs; LTM Revenue iff "ttm" occurs and "ltm" does not; none iff neither occurs (case-insensitive) |
| Frames.WithCell | functions.py:151 | the written cell holds the value; every other cell, the names and the height are unchanged |
| Frames.WithColumn | functions.py:171-172 | a new column of missing cells is appended to the order; an existing column is left alone; no cell value changes |
| Frames.WithCellListed | functions.py:151 | writing a cell keeps every column listed exactly once |
| Frames.WithColumnListed | functions.py:171-172 | adding a column keeps every column listed exactly once |
| Frames.Table.At | functions.py:161 | reading a cell returns the table value's cell |
| Frames.Table.AddColumn | functions.py:172 | the table becomes `WithColumn` of its old value |
| Frames.Table.Put | functions.py:151 | the table becomes `WithCell` of its old value |
| Reconcile.Converted | functions.py:144-148 | never text; missing iff the cleaned number is missing; equal to the cleaned number unless the text is CAD; a CAD number is multiplied by the rate |
| Reconcile.Fragments | functions.py:154-158 | one fragment for extracted text and one for CAD, no other; the first is "<col>: <text>" when there is text; the last is the CAD remark when the value is CAD |
| Reconcile.FragmentsEmptyIff | functions.py:153-160 | a cell gives no fragment iff its text has no letter |
| Reconcile.Target | functions.py:169 | a target is always LTM EBITDA or LTM Revenue |
| Reconcile.AppendNote | functions.py:161-166 | missing notes become the new text; present notes keep their text and the separator in front, the new text ends the result, and nothing else is in between |
| Reconcile.Record | functions.py:176-183 | a record carries its row, its column and the value read |
| Reconcile.RecordFacts | functions.py:176-183 | new value is the converted number; "Notes Added" is None iff the old text has no letter, and otherwise is exactly this cell's fragments joined with "; " (not the row's whole notes); the migration column is the target |
| Reconcile.AddNotes | functions.py:160-166 | only the row's notes change, and only when there are fragments |
| Reconcile.CopyTo | functions.py:168-173 | only the target cell of the row changes; the target column is created if needed |
| Reconcile.Settle | functions.py:151-173 | the writes for one cell touch only its row and only add the target column |
| Reconcile.Step | functions.py:134-183 | one cell's handling keeps the table usable, touches only its row and never drops a column |
| Reconcile.RunRow | functions.py:133-183 | a row's handling touches only that row and never drops a column |
| Reconcile.RunRows | functions.py:132-183 | after k rows, the rows from k on are unchanged |
| Reconcile.Start | functions.py:127-128 | the notes column exists afterwards; the height is unchanged |
| Reconcile.Processed | functions.py:125-187 | the notes column exists; the height is unchanged; no column is dropped |
| Reconcile.AuditLog | functions.py:130-185 | no contract of its own; `AuditLogExact`, `AuditLogCount`, `AuditLogOrdered` and `AuditRowsAt` fix its length, its order and the record at every position |
| Reconcile.Entry | functions.py:134-136 | a missing cell gives no record; a present one gives exactly one, for its row and column |
| Reconcile.AuditRow | functions.py:133-183 | a row never has more records than listed columns |
| Reconcile.AppendNotes | functions.py:160-166 | the method leaves the table as `AddNotes` of its old value |
| Reconcile.CopyValue | functions.py:168-173 | the method leaves the table as `CopyTo` of its old value |
| Reconcile.Examine | functions.py:138-169 | computes the converted number, the fragments and the target of a present value |
| Reconcile.ProcessCell | functions.py:134-183 | one iteration of the inner loop performs `Step` and returns that cell's `Entry` |
| Reconcile.AddNotesColumn | functions.py:127-128 | the table becomes `Start` of its old value |
| Reconcile.ProcessRow | functions.py:133-183 | the inner loop performs `RunRow` and returns `AuditRow` |
| Reconcile.ProcessFinancialDataframe | functions.py:125-187 | the table ends as `Processed` of the input and the returned log is `AuditLog`; the rate defaults to 0.73 |
| ReconcileProperties.StepFrame | functions.py:151-173 | a step touches no cell of its row outside its own column, the notes and the two target columns |
| ReconcileProperties.StepOwn | functions.py:144-151 | a step writes the converted number into its own cell, unless the value read is missing |
| ReconcileProperties.StepNotes | functions.py:153-166 | a step appends its cell's fragments to the row's notes |
| ReconcileProperties.StepCopy | functions.py:168-173 | a step copies its number into the column its text names, and nowhere else |
| ReconcileProperties.RunRowOwn | functions.py:133-151 | within a row, a listed ordinary column ends as the converted value; an unlisted one is untouched |
| ReconcileProperties.RunRowNotes | functions.py:153-166 | within a row, the notes collect the listed cells' fragments in list order |
| ReconcileProperties.RunRowCopies | functions.py:168-173 | within a row, an unlisted column receives the numbers copied to it in list order |
| ReconcileProperties.RunRowNoText | functions.py:133-151 | within a row, a column other than the notes ends without text if it started without text, or if it is listed and its cell is present |
| ReconcileProperties.NotesKeepOld | functions.py:163-166 | existing notes are never lost; their text stays in front |
| ReconcileProperties.NotesMissingIff | functions.py:160-166 | notes end up missing iff they were missing and no listed cell has a letter |
| ReconcileProperties.CopiesUntouched | functions.py:168-173 | a column that no listed cell names keeps its value |
| ReconcileProperties.CopiesLast | functions.py:168-173 | the last listed cell naming a column decides its value |
| ReconcileProperties.RowSettled | functions.py:132-183 | once row r has been handled, later rows never change it |
| ReconcileProperties.ProcessedRow | functions.py:132-187 | row r of the result is that row's own pass applied to the starting table |
| ReconcileProperties.ProcessedCells | functions.py:144-151 | an ordinary cell of the result is the converted input if it is listed and present, and the input cell otherwise |
| ReconcileProperties.ProcessedNoText | functions.py:144-173 | a listed column other than the notes, including a target column, holds no text afterwards; in an ordinary column a cell is missing iff its cleaned number is |
| ReconcileProperties.ProcessedNotes | functions.py:153-166 | each row's notes are its old notes with the listed cells' fragments appended in order |
| ReconcileProperties.ProcessedCopies | functions.py:168-173 | an unlisted column receives the numbers that name it, the last one winning |
| ReconcileProperties.AuditRowSound | functions.py:175-183 | every record of a row belongs to a present listed cell and is its record |
| ReconcileProperties.AuditRowComplete | functions.py:134-183 | every present listed cell of a row has a record |
| ReconcileProperties.AuditRowsSound | functions.py:132-183 | every record of the first k rows belongs to a present listed cell of those rows |
| ReconcileProperties.AuditRowsComplete | functions.py:132-183 | every present listed cell of the first k rows has a record |
| ReconcileProperties.AuditRowsOrdered | functions.py:132-183 | records come in row order |
| ReconcileProperties.Present | functions.py:133-136 | the present listed cells of a row: exactly the listed columns whose cell is not missing, never more than listed |
| ReconcileProperties.AuditRowExact | functions.py:133-183 | a row has exactly one record per present listed cell, and the k-th record is that of the k-th such cell in list order |
| ReconcileProperties.AuditRowsCount | functions.py:132-183 | the first k rows give one record per present listed cell of those rows |
| ReconcileProperties.AuditRowsAt | functions.py:132-183 | the records come row after row: the j-th record of row i (by AuditRowExact, that of its j-th present listed cell) sits right after the records of the rows before i |
| ReconcileProperties.RowsSound | functions.py:132-183 | when each row lists only its own records, every record of the joined rows comes from its own row, one of the first k |
| ReconcileProperties.RowsComplete | functions.py:132-183 | a record in the list of one of the first k rows is in the joined rows |
| ReconcileProperties.RowsOrdered | functions.py:132-183 | when each row lists only its own records, the joined rows are in row order |
| ReconcileProperties.AuditLogExact | functions.py:130-185 | the log has a record for every present listed cell of the input and nothing else; each record carries the value read and the fields the pass computed for it |
| ReconcileProperties.AuditLogOrdered | functions.py:130-185 | the log is ordered by row |
| ReconcileProperties.AuditLogCount | functions.py:130-185 | the log has exactly as many records as the input has present listed cells |
| ReconcileProperties.PlainIdle | functions.py:138-173 | a number whose text has no letter keeps its value, gives no note and names no target |
| ReconcileProperties.StepIdle | functions.py:134-173 | a step on such a cell changes nothing |
| ReconcileProperties.RunRowIdle | functions.py:133-183 | a row of such cells is unchanged |
| ReconcileProperties.RunRowsIdle | functions.py:132-183 | a table of such cells is unchanged |
| ReconcileProperties.ProcessedIdle | functions.py:125-187 | on a settled table the pass only adds the notes column; every record keeps the old value, adds no note and migrates nowhere |
| ReconcileProperties.ProcessedTwice | functions.py:125-187 | if numbers render without letters and the notes column is not listed, a second pass changes nothing, also when "LTM EBITDA" or "LTM Revenue" is listed |
| ReconcileProperties.StepNames | functions.py:171-172 | a step only appends column names |
| ReconcileProperties.StepListed | functions.py:171-172 | a step keeps every column listed exactly once |
| ReconcileProperties.RunRowNames | functions.py:133-173 | a row's handling only appends column names |
| ReconcileProperties.RunRowListed | functions.py:133-173 | a row's handling keeps every column listed exactly once |
| ReconcileProperties.RunRowsNames | functions.py:132-173 | handling rows only appends column names |
| ReconcileProperties.RunRowsListed | functions.py:132-173 | handling rows keeps every column listed exactly once |
| ReconcileProperties.ProcessedListed | functions.py:125-187 | the input's columns keep their order; added columns come after them, each listed once |
| ReconcileProperties.NamedByIff | functions.py:168-169 | a cell names column t iff it is present and its extracted text resolves to t |
| ReconcileProperties.RowTargetsIff | functions.py:133-169 | a row names column t iff one of its listed cells does |
| ReconcileProperties.CreatedIff | functions.py:132-169 | the first k rows name column t iff some present listed cell of those rows names it |
| ReconcileProperties.StepKeys | functions.py:168-172 | a step's columns are the old ones plus the one its cell names, if any |
| ReconcileProperties.RunRowKeys | functions.py:133-172 | a row's columns are the old ones plus exactly those its cells name |
| ReconcileProperties.RunRowsKeys | functions.py:132-172 | after k rows the columns are the old ones plus exactly those the rows' listed cells name |
| ReconcileProperties.ProcessedKeys | functions.py:125-187 | the result's columns are exactly the input's, "Notes", and the target columns that some present listed cell names, even when the value copied there is missing |

## Left out

- Python's `str()` of a number is the parameter `render`. The model does not fix how
  floats are printed, such as `1e-05`, `nan` or `100.0`.
- Numbers are exact reals. Binary floating point, its rounding in `float(value)`, and the
  product with the rate are not modelled.
- `\d` and `[A-Za-z]` are read as ASCII. Python's `\d` also matches other Unicode decimal
  digits, and `float()` accepts them. `lower()` is ASCII lowering. This is exact for the
  substring tests on "cad", "c$", "ltm" and "ttm".
- Booleans, which Python treats as `int`, and other cell types besides number, text and
  missing are not modelled.
- `clean_numeric_value`'s `print` of the parse error is left out. Its result, missing, is
  modelled.
- Rows are addressed by position. Index labels, duplicate labels and the `KeyError` for a
  listed column that does not exist are left out. Callers must list only existing columns,
  or "Notes".
- Pandas dtypes and upcasting on assignment are left out. The aliasing between
  `iterrows` rows and the table is left out too; the model reads rows from a snapshot.
- The audit table is the sequence of records. Building the `pd.DataFrame` from it is not
  modelled.
- `update_data_types` and `date_parsing` are not part of this model. They are outside the
  reconciliation core.
- Cells are not tagged as `int` or `float`. An `int` and a `float` of equal value are one
  `Num` cell and print alike through `render`. Python prints `5` and `5.0` differently, so
  `clean_phone` keeps an extra `0` for the float, and `str(1e20)` holds the letter `e`
  where `str(10**20)` holds none; the model cannot tell these cells apart.
- BasicCleaning.DropLeadingDash: its contract states only the result's length and
  alphabet. Its exact output is fixed by its definition, which `CleanDashText` uses.
- ReconcileProperties.ProcessedTwice: it assumes that `render` writes numbers without
  letters. Python writes `1e-05`, and that text would add a note "col: e" on a second pass.
