# Workforce-planning reconciliation pipeline, modelled in Dafny

The system turns periodic project financial plan (PFP) spreadsheets into one workbook
per business category. Its data logic has two entry points, and this project models both.

The **first run** (`first_time_run_pfp`) cleans a plan and stores it under a dated name:
- It derives a `Unique Code` from the project number and the employee name, and moves
  that column to the front.
- It keeps the first row per code.
- It drops rows without an employee name, then rows of the placeholder employee
  "Labor Cost, Conversion Employee".
- The cleaned plan is saved as `Project Plan Analysis-continuous-YYYY-MM-DD.xlsx`.

The **category extraction** builds the category workbooks:
- It takes the "Checker" sheet of the workbook-structure file, without its rows that
  have no person number, as the employee directory.
- It picks the newest stored plan by the date in its file name.
- It left-merges the plan's `Resource` with the directory's `Name` and projects the
  result to eight columns.
- It splits the rows by the last word before the colon of `Expenditure Organization
  Name`, matched against synonyms of the five categories MOB, PLA, RES, EF and SSC.
- It prefixes every category table with the run date (`Oracle Date`) and a 1-based
  `Index`, and names it `CPW_Tool_{key}_Main.xlsx`.

## Modules

| file | module | what it holds |
|---|---|---|
| `wrappers.dfy` | `Wrappers` | `Option` |
| `masks.dfy` | `Masks` | Boolean indexing `s[m]`, characterised as order-preserving selection at the mask's positions, plus `duplicated(keep='first')` as a seen-set scan |
| `strings.dfy` | `Strings` | `strip`, ASCII `upper`, `split(':')[0]`, `rsplit(' ', 1)[-1]` and integer rendering |
| `frames.dfy` | `Frames` | Cells (`Null`, text, integer) and tables with ordered columns; rows are maps from column name to cell; a missing value renders as the text `nan` |
| `cleaner.dfy` | `Cleaner` | `first_time_run_pfp` |
| `checker.dfy` | `Checker` | The "Checker" sheet filter |
| `selector.dfy` | `Selector` | Latest-plan selection and the dated plan file name |
| `merge.dfy` | `Merge` | The left merge and the eight-column projection |
| `categorizer.dfy` | `Categorizer` | `get_suffix`, `normalize_suffix`, the synonym map and the per-category tables |
| `sequencer.dfy` | `Sequencer` | `Oracle Date`/`Index` stamping and the category workbook names |
| `extraction.dfy` | `Extraction` | The extraction end to end: merge, split by category, and stamp every category table |

## Behaviour worth knowing

- **Join.** The left merge (mainV0b.py:194-200) emits one row per matching directory
  row, or one row with missing directory cells when nothing matches. So the output can
  be longer than the plan (`Merge.JoinCardinality`). It has exactly one row per plan
  row when every `Resource` matches at most one directory row, for example when
  directory names are unique (`Merge.JoinUniqueNames`).
- **Categories.** Each of the five categories filters the merged table on its own
  (mainV0b.py:255-261), with no priority among them. The partitions are disjoint only
  because no upper-cased synonym belongs to two categories
  (`Categorizer.CategoriesDisjoint`).
- **Suffix.** `get_suffix` reads the suffix from the text *before* the first colon
  (mainV0b.py:251-254). So "Some Division: North Mobility" has the suffix "DIVISION"
  and lands in no category (`Categorizer.ColonSegmentDecides`), and "Finance:
  Treasury" has the suffix "FINANCE" (`Categorizer.FinanceInNoCategory`).
- **Dead synonyms.** A normalised suffix is a single word. So the synonyms
  "Enabling Function", "ENABLING FUNCTION", "SHARED SERVICES" and "Shared Services"
  (mainV0b.py:233-234) can never match (`Categorizer.SpacedSynonymNeverMatches`,
  `Categorizer.ShortFormWords`).
- **Bad dates.** A stored name whose date does not exist (e.g. `2023-02-30`) is not
  skipped. `strptime` (mainV0b.py:175) raises and the selection fails
  (`Selector.Selection.BadDate`).

## Model

| member | source | states |
|---|---|---|
| `Cleaner.Clean` | mainV0b.py:81-109 | The cleaned table is well formed (distinct columns; every row has exactly those columns), and an empty plan cleans to an empty table |
| `Cleaner.AddUniqueCode` | mainV1.py:85-87 | Every row gets its `Unique Code` cell and the table stays well formed |
| `Cleaner.AddUniqueCodeColumns` | mainV0b.py:86-88 | `Unique Code` is column 0; the other columns are the input's non-code columns in their original order |
| `Cleaner.CleanColumns` | mainV1.py:86-87 | The cleaned table has `Unique Code` first; every other input column follows in its original relative order |
| `Cleaner.WithCodeChangesOnlyCode` | mainV1.py:85 | The code is `str(Project Number) + " - " + str(Employee Name)`; adding it adds exactly that one cell and changes no other |
| `Cleaner.NullAndNanShareCode` | mainV1.py:85 | A missing employee name renders as the text "nan", so it yields the same code as the name "nan" |
| `Cleaner.FirstCodeMaskAt` | mainV0b.py:98 | `drop_duplicates(keep='first')` keeps a row exactly when no earlier row has its code |
| `Cleaner.CleanAsOneMask` | mainV0b.py:98-108 | The three successive row filters equal one selection with the conjunction of their conditions |
| `Cleaner.CleanMaskAt` | mainV0b.py:98-108 | At every position the combined mask holds exactly when the row is first with its code, named, and not the placeholder |
| `Cleaner.CleanSelectsSurvivors` | mainV1.py:97-107 | The output rows are exactly the coded input rows that come first with their code and have a present, non-placeholder name, in input order |
| `Cleaner.CleanCodesDistinct` | mainV1.py:97 | No two output rows share a `Unique Code` |
| `Cleaner.CleanRowsFromInput` | mainV1.py:97-107 | Every output row is an input row, unchanged except for its added code, that is the first with its code and has a valid name |
| `Cleaner.CleanRowShape` | mainV0b.py:86-108 | No output row has a missing or placeholder employee name, and each row's `Unique Code` is its own code |
| `Cleaner.NanRowLostBehindNullRow` | mainV1.py:97-105 | Dedup runs before the missing-name filter: after a nameless row, a "nan"-named row with the same code is lost; on its own it survives |
| `Cleaner.NamelessHidesSameCode` | mainV1.py:97-105 | Of two rows sharing a code where the first has no employee name, cleaning keeps neither: the second is a duplicate and the first is nameless |
| `Cleaner.CleanKeepsInputs` | mainV1.py:85-87 | The cleaned table still has the project-number and employee-name columns |
| `Cleaner.ReorderFixesCodeFirst` | mainV1.py:86-87 | The column reorder leaves alone columns that already start with `Unique Code` and contain it once |
| `Cleaner.AlreadyCoded` | mainV1.py:85-87 | A table whose first column is `Unique Code` and whose rows already carry their codes is unchanged by adding the code |
| `Cleaner.AddUniqueCodeOfClean` | mainV1.py:85-87 | Re-deriving the code of a cleaned table reproduces the table |
| `Cleaner.CleanHasNoDuplicates` | mainV1.py:97 | A cleaned table has no duplicate code for a second dedup to drop |
| `Cleaner.CleanHasNoBadNames` | mainV1.py:105-107 | A cleaned table has no missing or placeholder name for the second pair of filters to drop |
| `Cleaner.CleanIdempotent` | mainV1.py:85-107 | Cleaning twice equals cleaning once |
| `Masks.DuplicatedFlags` | mainV0b.py:98 | The seen-set scan flags an entry exactly when its key occurred earlier |
| `Masks.MaskSelects` | mainV0b.py:108 | Boolean indexing returns, in order, exactly the entries at the positions where the mask holds |
| `Masks.FilterAfterMask` | mainV0b.py:106-108 | Filtering a selection equals one selection with the conjoined mask |
| `Masks.SelectionDistinct` | mainV0b.py:86-87 | Reordering keeps the column names distinct: a selection from distinct entries has distinct entries |
| `Masks.SelectionOfFirstOccurrences` | mainV0b.py:98 | Selecting only first occurrences of their keys leaves pairwise distinct keys |
| `Checker.DropBlankPersonNumbers` | mainV0b.py:147 | The filtered sheet keeps its columns and stays well formed |
| `Checker.DropBlankKeepsNumberedRows` | mainV0b.py:147 | The filter keeps exactly the rows with a present person number, in their original order |
| `Checker.CleanChecker` | mainV0b.py:145-155 | Nothing is returned exactly when the workbook has no "Checker" sheet; otherwise the sheet keeps its columns and no row lacks a person number |
| `Selector.MatchName` | mainV0b.py:166-172 | A name accepted by the start-anchored pattern yields ten characters of the shape `dddd-dd-dd` |
| `Selector.MatchNameExactly` | mainV0b.py:166-172 | The pattern captures `s` exactly when the name starts with the prefix, then `s` of the shape `dddd-dd-dd`, then `.xlsx`; anything may follow, since the match is anchored at the start only |
| `Selector.MatchNameAccepts` | mainV0b.py:166-172 | The stored name for a real date, followed by any text, is accepted and captures that date's text |
| `Selector.ParseDate` | mainV0b.py:175 | `strptime` succeeds only with a real calendar date (year 1..9999, month 1..12, a day the month has) |
| `Selector.FormatDate` | mainV0b.py:293 | `strftime('%Y-%m-%d')` produces text of the pattern's date shape |
| `Selector.PlanFileName` | mainV0b.py:293-294 | The stored name for a real date is accepted by the selector's pattern and captures that date's text |
| `Selector.ParseFormat` | mainV0b.py:293 | Parsing a formatted date gives the date back |
| `Selector.FormatParse` | mainV0b.py:175 | Formatting a parsed date gives the captured text back |
| `Selector.DigitsDetermine` | mainV0b.py:175 | Two equally long digit runs that spell the same number are the same text |
| `Selector.PlanFileNameRoundTrip` | mainV0b.py:293-294 | The name the first run stores for date d matches the pattern, captures d's text, and that text parses to d |
| `Selector.MatchedNameStartsWithPlanFileName` | mainV0b.py:166-175 | Every accepted name with a real date starts with the stored name for that date; only text after `.xlsx` can differ |
| `Selector.LeapDayParses` | mainV0b.py:175 | `strptime` accepts the 29th of February of a leap year and yields that date |
| `Selector.ImpossibleDateRejected` | mainV0b.py:175 | Text of the right shape such as `2023-02-30` is still no date: parsing it fails |
| `Selector.LatestReplaced` | mainV0b.py:170-181 | A matching name whose date is strictly later than the current leader's (or the first matching name) becomes the leader, later than every earlier matching name |
| `Selector.LatestKept` | mainV0b.py:170-181 | A non-matching name, or one whose date is not strictly later, leaves the leader in place |
| `Selector.SelectLatest` | mainV0b.py:166-181 | No match exactly when no name matches. A bad date exactly when some matching name has an impossible date, reporting the first such name. Otherwise a matching name whose date no other matching date exceeds, the first listed among ties |
| `Merge.Project` | mainV0b.py:202-213 | A merged row has exactly the eight output columns |
| `Merge.MergeRow` | mainV0b.py:194-200 | A plan row yields as many rows as directory rows share its name, or one row when none does |
| `Merge.MergeRowContents` | mainV0b.py:194-213 | Those rows pair the plan row with each matching directory row in directory order, or with nulls when none matches |
| `Merge.LeftMerge` | mainV0b.py:194-200 | A left merge never loses a plan row: the output has at least as many rows as the plan |
| `Merge.Join` | mainV0b.py:194-213 | The merged table has the eight columns in source order and is well formed |
| `Merge.LeftMergeShape` | mainV0b.py:202-213 | Every merged row has exactly the eight projected columns |
| `Merge.JoinColumnsDistinct` | mainV0b.py:202-213 | The eight projected columns are distinct |
| `Merge.JoinCardinality` | mainV0b.py:194-200 | The output row count is the sum over plan rows of max(1, matching directory rows), so at least the plan's row count |
| `Merge.LeftMergeAppend` | mainV0b.py:194-200 | Merging a concatenated plan concatenates the merges |
| `Merge.LeftMergeBlock` | mainV0b.py:194-200 | Output order follows plan order: the merge of a plan is the merge of the rows before row `i`, then row `i`'s own block, then the merge of the rows after it |
| `Merge.Lookup` | mainV0b.py:194-200 | The reference lookup finds nothing exactly when no directory row has the name, else the first row that has it |
| `Merge.AtMostOneMatch` | mainV0b.py:194-200 | With unique directory names at most one row matches |
| `Merge.LookupNone` | mainV0b.py:194-200 | The merge finds no match exactly when the lookup finds nothing |
| `Merge.LookupSome` | mainV0b.py:194-200 | The first matching row the merge selects is the lookup's row |
| `Merge.MergeRowUnique` | mainV0b.py:194-200 | With unique names a plan row yields exactly one row, joined with the lookup's row |
| `Merge.JoinUniqueNames` | mainV0b.py:194-213 | With unique directory names the merge keeps one row per plan row, in plan order, each joined with its named directory row or with nulls |
| `Merge.MergeRowOrgName` | mainV0b.py:194-213 | Every row a plan row yields carries that plan row's `Expenditure Organization Name` |
| `Merge.LeftMergeOrgNames` | mainV0b.py:194-213 | When every plan row names its organisation, so does every merged row |
| `Strings.StripIsTrimmedSlice` | mainV0b.py:242 | `strip` returns a contiguous slice; everything it cuts is whitespace, and the result has no whitespace at either end |
| `Strings.BeforeFirst` | mainV0b.py:252 | `split(':')[0]` is the longest prefix without a colon |
| `Strings.AfterLast` | mainV0b.py:253-254 | `rsplit(' ', 1)[-1]` is the longest suffix without a space |
| `Strings.UpperSpaces` | mainV0b.py:242 | Upper-casing neither creates nor removes spaces |
| `Strings.UpperHasNoLower` | mainV0b.py:242 | Upper-casing leaves no lower-case ASCII letter |
| `Frames.Render` | mainV0b.py:86 | `astype(str)` of a non-negative integer is a non-empty run of decimal digits that spells it; of a negative one, a minus sign followed by the digits of its magnitude |
| `Frames.RenderInjectiveOnInts` | mainV0b.py:86 | Different integers render as different texts: `astype(str)` loses no integer value |
| `Strings.NatToDecimalValue` | mainV0b.py:86 | The digits `str(n)` writes for a non-negative integer spell `n` |
| `Categorizer.GetSuffix` | mainV0b.py:251-254 | The suffix is the last word of the stripped pre-colon segment: a space-free tail of it, preceded by a space unless it is the whole segment |
| `Categorizer.GetSuffixWhole` | mainV0b.py:253-254 | A segment without a space is its own suffix |
| `Categorizer.SegmentAt` | mainV0b.py:252 | When the text before the first colon at `colon` is already stripped, the segment is exactly that text |
| `Categorizer.NormalizeStripped` | mainV0b.py:237-242 | Normalising a word that is already stripped only upper-cases it |
| `Categorizer.NormalizeSuffix` | mainV0b.py:237-242 | The normalised text is as long as the stripped text, has a space exactly when it does, and holds no lower-case ASCII letter |
| `Categorizer.NormalizedSuffixAt` | mainV0b.py:251-254 | Given the colon and last-space positions, the normalised suffix is the upper-cased word between them |
| `Categorizer.NormalizedSuffixHasNoSpace` | mainV0b.py:237-254 | A normalised suffix never contains a space |
| `Categorizer.SpacedSynonymNeverMatches` | mainV0b.py:229-259 | A synonym containing a space never selects its category |
| `Categorizer.MobilityWords` | mainV0b.py:230 | MOB is selected exactly by MOB and MOBILITY |
| `Categorizer.PlacesWords` | mainV0b.py:231 | PLA is selected exactly by PLA and PLACES |
| `Categorizer.ResilienceWords` | mainV0b.py:232 | RES is selected exactly by RES and RESILIENCE |
| `Categorizer.ShortFormWords` | mainV0b.py:233-234 | For a space-free word, EF is selected exactly by EF and SSC exactly by SSC |
| `Categorizer.CategoryWords` | mainV0b.py:229-259 | For each category, the normalised suffixes that select it |
| `Categorizer.LeadingLetter` | mainV0b.py:229-235 | Space-free words selecting MOB, PLA, RES, EF and SSC start with M, P, R, E and S respectively |
| `Categorizer.WordsDisjoint` | mainV0b.py:229-235 | No space-free word selects two categories |
| `Categorizer.CategoriesDisjoint` | mainV0b.py:229-259 | No organisation name selects two categories |
| `Categorizer.NoCategoryForLetter` | mainV0b.py:229-235 | A space-free word starting with none of M, P, R, E, S selects no category |
| `Categorizer.ColonSegmentDecides` | mainV0b.py:251-259 | "Some Division: North Mobility" has suffix "DIVISION" and selects no category |
| `Categorizer.FinanceInNoCategory` | mainV0b.py:251-259 | "Finance: Treasury" has suffix "FINANCE" and selects no category |
| `Categorizer.MobilityOnlyInMob` | mainV0b.py:229-235 | "MOBILITY" selects MOB and no other category |
| `Categorizer.MobilitySuffixSelectsMob` | mainV0b.py:251-259 | "North Mobility: Some Division" selects MOB and nothing else |
| `Categorizer.Partition` | mainV0b.py:256-260 | A category table keeps the merged columns and is well formed |
| `Categorizer.CategoryMask` | mainV0b.py:257-259 | The category mask has one flag per merged row |
| `Categorizer.CategoryMaskWords` | mainV0b.py:229-259 | A row's flag in each category's mask holds exactly when its normalised suffix is one of that category's single-word synonyms |
| `Categorizer.Categorize` | mainV0b.py:255-262 | One table per category, in map order, each with the merged columns |
| `Categorizer.CategorizeKeys` | mainV0b.py:255-261 | The tables are keyed MOB, PLA, RES, EF, SSC in that order |
| `Categorizer.KeysInOrder` | mainV0b.py:229-235 | The keys of the synonym map, in insertion order, are MOB, PLA, RES, EF, SSC |
| `Categorizer.PartitionSelects` | mainV0b.py:256-260 | A category table is the order-preserving selection of exactly the rows whose organisation name selects the category |
| `Categorizer.PartitionRowsSelect` | mainV0b.py:256-260 | Every row of a category table is an input row that selects the category |
| `Categorizer.PartitionKeepsSelected` | mainV0b.py:256-260 | Every input row that selects a category is in its table |
| `Categorizer.PartitionsDisjoint` | mainV0b.py:255-261 | No input row is selected by two categories' masks |
| `Sequencer.Stamp` | mainV0b.py:335-339 | Stamping keeps the row count and well-formedness |
| `Sequencer.StampContents` | mainV0b.py:337-338 | `Oracle Date` is column 0 and `Index` column 1, the old columns follow in order, every row carries the run date and its 1-based position, and no other cell changes |
| `Sequencer.IndexCounts` | mainV0b.py:338 | The `Index` values are pairwise distinct and lie in 1..n |
| `Sequencer.ThreeRowsNumbered` | mainV0b.py:335-339 | A three-row table is numbered exactly 1, 2, 3 with the run date on every row |
| `Sequencer.UnstampStamp` | mainV0b.py:337-338 | Removing the two added columns gives back the input table |
| `Sequencer.CategoryFileName` | mainV0b.py:345 | The workbook name embeds the category key at a fixed position |
| `Sequencer.CategoryFileNameInjective` | mainV0b.py:345 | Different categories get different workbook names |
| `Extraction.StampableColumns` | mainV0b.py:337-338 | Neither `Oracle Date` nor `Index` is among the eight merged columns, so inserting them never collides |
| `Extraction.JoinOrgNamesPresent` | mainV0b.py:194-213 | When every plan row names its organisation, the merged table meets the category split's need for organisation names |
| `Extraction.StampAll` | mainV0b.py:336-339 | Every category table is stamped and keeps its key; removing the two columns gives it back, and its rows carry the run date and are numbered 1 to n |
| `Extraction.Extract` | mainV0b.py:332-339 | An extraction run yields one stamped table per category, keyed MOB, PLA, RES, EF, SSC in that order |
| `Extraction.ExtractContents` | mainV0b.py:332-339 | Each category workbook holds, after its two stamped columns, exactly the merged rows of its category in merged order, numbered 1 to n and dated with the run date |

## Left out

- SharePoint access is network I/O: folder listing, file download and upload
  (mainV0b.py:17-79, 117-131, 162-165, 182-190). The selector takes the list of file
  names and returns the chosen name, not the file's contents.
- Excel reading and writing, including the per-sheet header row choice, is library
  deserialisation. The model receives parsed tables.
- The "first file with an Excel extension" pick (mainV0b.py:60-72) is embedded in the
  I/O.
- The Streamlit UI, credentials and hard-coded site paths are left out. The run date
  (`datetime.now()`) is a parameter: `date` of `Sequencer.Stamp` and `d` of
  `Selector.PlanFileName`.
- The `unique_prefixes`, `unique_suffixes` and `selected_suffixes` computation
  (mainV0b.py:214-249) is only printed and never affects a result.
- All `print` logging and the broad `except` clauses that print and return nothing are
  left out.
- The in-place change of the caller's frame (mainV0b.py:86) is left out. The model
  returns new tables.
- Cells are missing, text or integers. Floats, dates and booleans are not modelled, and
  neither are column dtypes.
- Frames.Render: renders `Int(123)` as "123" even when its column also holds a missing
  cell. pandas reads such a column as float64, so `astype(str)` (mainV0b.py:86) gives
  "123.0" and the real `Unique Code` differs from the model's.
- Merge.Join: compares key cells, so an integer `Resource` never meets a text `Name` and
  the row gets missing directory cells. pandas instead raises `ValueError` when it merges
  an int64 key column with an object column (mainV0b.py:194-200).
- Missing-column `KeyError`s are preconditions (`HasColumns`, `PlanReady`,
  `DirectoryReady`), and so is the `ValueError` of inserting a column that already
  exists.
- A table never has two columns with the same name (`WellFormed`).
- A plan that already holds one of the projected directory columns is excluded by
  `Merge.PlanReady`. pandas would suffix both copies and the projection would raise.
- A missing `Expenditure Organization Name` is excluded by
  `Categorizer.OrgNamesPresent`. pandas rejects the resulting shorter mask as
  unaligned.
- For an empty merged table, the model gives empty category tables with the merged
  columns. pandas' treatment of an empty object-typed mask is not modelled.
- Strings.Upper: upper-cases ASCII letters only. Python's `str.upper` also maps
  non-ASCII letters, some of them to ASCII (dotless `ı` to `I`). So a suffix spelled
  with such letters could select a category in the source but not in the model.
- Selector.MatchName: `\d` is taken as an ASCII digit. Python's `re` also accepts
  other Unicode decimal digits there.
- Selector.FormatDate: writes the year with four digits. Some platforms' `strftime('%Y')`
  does not zero-pad years below 1000. Only dates before year 1000 are affected.
- The merge gives no warning when a `Resource` matches several directory rows; it
  silently emits all of them, as modelled.
