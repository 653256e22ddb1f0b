# HOA letters: export and document choice, modelled in Dafny

The repository prepares collection letters for homeowners' associations in two scripts.

`execution.py` reads the latest converted account table. It runs these steps:

- It checks that the required columns are present.
- It converts every balance and drops the rows under $10.00 and the rows with an unusable address type.
- It groups the remaining rows by account, in ascending order.
- It builds an association-to-email index from the roster `emails.csv`; the first email seen for an association wins.
- It writes one ten-column export row per account to `letters_export.csv`. Two headers appear twice.

`generate_docs.py` reads that export back. For every row it does three things:

- It cleans the cells and resolves each placeholder to the column copies pandas produced.
- It picks Letter 2, Letter 1 or no document.
- It builds the template context, the association folder name and the document file name.

The model is made of these modules:

- `Wrappers`: Option and Result.
- `Tables`: a row is a map from column name to cell text. An absent key is an empty (NaN) cell.
- `Strings`: the parts of Python's `str` the scripts use:
  - `strip` over the Unicode whitespace set;
  - `lower` on ASCII letters;
  - `split()` and `join`;
  - `in`, `startswith` and `endswith`;
  - code-point ordering.
- `Numerals`: the numerals `float()` accepts, held as exact decimal digit strings, and the `,.2f` format.
- `Fields`: the helper functions of execution.py.
- `Grouping`: the sort and group-by on `Account #`.
- `Execution`: the body of execution.py.
  - The filter, the roster index and the records are functions.
  - The loops of lines 138-143 and 168-201 are methods proved equal to those functions.
  - `Export` runs the whole script.
- `GenerateDocs`: the helpers and the main loop of generate_docs.py; the loop is the method `GenerateDocs`.
- `Handoff`: what generate_docs.py does with the file execution.py writes.
- `Sequences`: generic facts about sequences that the proofs cite.

Both scripts are modelled with these parameters, which stand for what lies outside the model:

- The tables come in already read.
- "roster present", "input CSV present" and "template exists" are booleans.
- The two date strings of execution.py come from the caller.
- For generate_docs.py, the caller gives the fallback date and a function that stands for `parse_month_from_date`.

## Model

| member | source | states |
|---|---|---|
| Tables.Get | generate_docs.py:47-48 | a cell is present exactly when its column is in the row, and then it is that column's text |
| Strings.Trim | execution.py:18 | the result has no whitespace at either end; it is empty exactly when the input is all whitespace; an already stripped string is unchanged |
| Strings.TrimSplits | execution.py:18 | the input is some whitespace, then the stripped text, then some whitespace |
| Strings.Lower | execution.py:65 | same length, each character lower-cased on ASCII letters |
| Strings.LowerIsLowerCase | execution.py:78 | a lower-cased string has no upper-case ASCII letter |
| Strings.Words | execution.py:78 | `split()` yields only non-empty, whitespace-free words |
| Strings.WordsOfJoin | execution.py:78 | splitting words joined by single spaces gives the words back |
| Strings.JoinSingleSpaced | execution.py:78 | words joined by " " have only single inner spaces and no space at either end |
| Strings.WordsOfLowerTrim | execution.py:78 | stripping before splitting does not change the words |
| Strings.RemoveChar | execution.py:83 | `replace(c, '')` leaves no `c` and is no longer than the input |
| Strings.RemoveCharKeeps | execution.py:83 | every character other than `c` survives `replace(c, '')` |
| Strings.RemoveCharAbsent | execution.py:83 | removing a character that does not occur changes nothing |
| Strings.LessIrreflexive | generate_docs.py:42 | no string sorts before itself |
| Strings.LessTransitive | generate_docs.py:42 | string order is transitive |
| Strings.LessTotal | generate_docs.py:42 | any two different strings are ordered one way |
| Strings.LessAsymmetric | generate_docs.py:42 | string order is asymmetric |
| Numerals.NatText | execution.py:36 | `str(int)` of a natural: digits only, no leading zero, reading back to the number |
| Numerals.NatTextOfDigits | execution.py:36 | a digit string without leading zeros is the text of its own value |
| Numerals.ParseFloat | execution.py:34 | every finite value `float()` accepts has digits on both sides of the point and at least one digit |
| Numerals.FloatStrip | execution.py:34 | only the whitespace `float()` skips is dropped from the ends; a separator U+001C to U+001F anywhere in the input stays in the text |
| Numerals.ParseFloatRejectsSeparator | execution.py:34 | `float()` raises on every text that holds a separator U+001C to U+001F, at the ends included |
| Numerals.SeparatorBeforeDigits | execution.py:34 | `float("\x1c12")` raises |
| Numerals.ParseShow | execution.py:187 | writing a decimal out and reading it back with `float()` gives the same decimal |
| Numerals.IntTextReadsBack | execution.py:36 | `str(int(f))` of an integral value reads back as the same integer, with no fraction |
| Numerals.AtLeastTenByWhole | execution.py:118 | a value is at least 10.00 exactly when it is non-negative and its whole part is at least 10 |
| Numerals.IntegralScaled | execution.py:35 | `is_integer()` holds exactly when the fraction adds nothing to the scaled value |
| Numerals.TwoDigits | execution.py:84 | the two fraction digits of the format are the number below 100 they stand for |
| Numerals.GroupThousandsDigits | execution.py:84 | removing the commas from a grouped number gives its digits back |
| Numerals.GroupThousandsCommas | execution.py:84 | commas stand exactly every fourth place from the right, and everything else is a digit |
| Numerals.Fixed2ReadsBack | execution.py:84 | the `,.2f` text without its commas is a well-formed two-decimal numeral that reads back to the same cents |
| Fields.Coalesce | execution.py:14-21 | the result is stripped |
| Fields.CoalescePicksFirst | execution.py:14-21 | "" exactly when no argument is present and non-blank; otherwise the first such argument, stripped |
| Fields.CoalesceBlank | execution.py:14-21 | "" exactly when no argument is present and non-blank |
| Fields.CoalesceAt | execution.py:14-21 | when argument k is the first present, non-blank one, the result is that argument stripped |
| Fields.CoalesceOne | execution.py:14-21 | with one argument: that argument stripped, or "" when it is absent |
| Fields.CleanStreetNumberBlank | execution.py:28-30 | a blank or absent street number gives "" |
| Fields.CleanStreetNumberIntegral | execution.py:31-36 | an integral numeral, with its one ".0" taken off first, becomes the bare integer |
| Fields.CleanStreetNumberKeeps | execution.py:31-39 | a value that does not end in ".0" and is not an integral numeral comes back stripped and unchanged |
| Fields.CleanTextKeepsSeparator | execution.py:31-39 | stripped text holding a separator U+001C to U+001F is returned with only its trailing ".0" dropped |
| Fields.CleanStreetNumberPointZero | execution.py:23-39 | "123.0" becomes "123" |
| Fields.CleanStreetNumberPointZeroZero | execution.py:23-39 | "123.00" becomes "123" |
| Fields.CleanStreetNumberFraction | execution.py:23-39 | "45.50" is kept |
| Fields.CleanStreetNumberUnit | execution.py:23-39 | "12A" is kept |
| Fields.CleanStreetNumberIdempotent | execution.py:23-39 | cleaning twice equals cleaning once when the stripped value has no inner space and does not end in ".0.0" |
| Fields.IntTextIsClean | execution.py:36 | the integer text the function returns is left alone by a second cleaning |
| Fields.CleanStreetNumberRepeatedPointZero | execution.py:31-36 | "1.0.0.0" becomes "1.0.0", which a second cleaning turns into "1" |
| Fields.CleanStreetNumberInnerSpace | execution.py:28-39 | "x .0" becomes "x ", which a second cleaning turns into "x" |
| Fields.NonEmpty | execution.py:52-53 | the join's filter keeps only non-empty parts, and none exactly when all parts are empty |
| Fields.NonEmptyAppend | execution.py:52-53 | the filter distributes over concatenation |
| Fields.JoinNonEmptyEnds | execution.py:52-53 | a line is empty exactly when all its parts are; otherwise it starts and ends with the first and last non-empty parts |
| Fields.JoinNonEmptySkipsEmpty | execution.py:52-53 | an empty part contributes no separator |
| Fields.AddressOfEmpty | execution.py:55-57 | the address is empty exactly when every part is |
| Fields.AddressOfComplete | execution.py:52-56 | with all five parts present the address is "street addr1, city state zip" |
| Fields.BuildFullAddressEnds | execution.py:41-57 | a row's address is "" exactly when its five parts are empty; otherwise it begins with the first non-empty part and ends with the last one, so no stray space or comma |
| Fields.BuildFullAddressStreetOnly | execution.py:52-57 | without city, state and zip the address is the street line alone, with no comma |
| Fields.BuildFullAddressCityOnly | execution.py:52-57 | without street number and address the address is the city line alone |
| Fields.BuildFullAddressExample | execution.py:41-57 | 100 / Main St / Springfield / IL / 62704 gives "100 Main St, Springfield IL 62704" |
| Fields.FirstContaining | execution.py:64-74 | None exactly when no header contains the needle case-insensitively; otherwise the first header that does |
| Fields.FirstPresent | execution.py:61-63 | None exactly when no candidate is a header; otherwise the first candidate, in priority order, that is |
| Fields.PickAssocColumn | execution.py:59-67 | "Association Name", then "HOA Name", then "Association" when present; only when none is, the first header containing "assoc"; any result is a header |
| Fields.FindEmailColumn | execution.py:69-74 | None exactly when no header contains "email" case-insensitively; otherwise the first header that does |
| Fields.NormalizeKey | execution.py:76-78 | the key is lower-case, single-spaced and stripped |
| Fields.KeyOfWords | execution.py:78 | the key is the lower-cased words of the name joined by single spaces |
| Fields.KeyWords | execution.py:78 | the key has the same words as the lower-cased name |
| Fields.NormalizeKeySame | execution.py:76-78 | two names get the same key exactly when their lower-cased words agree |
| Fields.NormalizeKeyIdempotent | execution.py:76-78 | normalising a key again changes nothing |
| Fields.NormalizeKeyExample | execution.py:76-78 | "  Oak Ridge HOA " and "oak ridge hoa" get the same key |
| Fields.Money | execution.py:80-86 | the result is "" or starts with "$" |
| Fields.MoneyFinite | execution.py:83-84 | a value `float()` accepts is written "$" and its `,.2f` text |
| Fields.MoneyRejects | execution.py:85-86 | text `float()` rejects gives "" instead of an error |
| Fields.MoneyRejectsSeparator | execution.py:80-86 | a value holding a separator U+001C to U+001F formats as "" |
| Fields.MoneyReadsBack | execution.py:80-86 | without its commas the result is "$" and a two-decimal numeral with the value's cents rounded half up |
| Fields.MoneyIdempotent | execution.py:80-86 | formatting a formatted amount again changes nothing |
| Fields.MoneyOfShown | execution.py:187 | `money` of a converted balance's text is the format of that balance |
| Fields.InfinityMoneyReadsBack | execution.py:80-86 | the "inf" formats read back to themselves |
| Fields.NaNMoneyReadsBack | execution.py:80-86 | the "nan" format reads back to itself |
| Fields.MoneyExample | execution.py:80-86 | 1234.5 gives "$1,234.50" |
| Fields.MoneyExampleWithSymbols | execution.py:83 | "$1,234.5" gives "$1,234.50" |
| Fields.MoneyExampleRejected | execution.py:85-86 | "abc" gives "" |
| Grouping.RowsWith | execution.py:124-125 | the rows gathered for an account all carry that account |
| Grouping.GroupByAccount | execution.py:124-125 | no group is empty |
| Grouping.InsertAccounts | execution.py:125 | adding a row adds its account to the groups' accounts and nothing else |
| Grouping.InsertAscending | execution.py:124-125 | adding a row keeps the groups in strictly ascending account order |
| Grouping.InsertRows | execution.py:125 | adding a row appends it to its own account's group and to no other |
| Grouping.GroupByAccountFacts | execution.py:124-125 | the groups ascend strictly, there is one for exactly each account the rows carry, and each holds exactly its account's rows in input order |
| Grouping.GroupRows | execution.py:125 | the group at each position is non-empty and holds exactly its account's rows |
| Execution.MissingRequired | execution.py:100-103 | None exactly when all of Balance, Address Type and Account # are present; otherwise the first one missing |
| Execution.CheckColumns | execution.py:99-107 | succeeds with the association column exactly when the required columns and an association column exist; otherwise the error of the first failed guard |
| Execution.CheckRoster | execution.py:128-136 | succeeds with the email column exactly when the roster exists, has "Association Name" and has an email column; otherwise the error of the first failed guard |
| Execution.BalanceOf | execution.py:110-115 | a converted balance is well formed; a failed conversion only happens on a present cell |
| Execution.FilterRowsFacts | execution.py:110-121 | the filter fails exactly when some balance does not convert, naming the first such row; otherwise it keeps exactly the eligible rows in order |
| Execution.Kept | execution.py:117-121 | a row is kept exactly when it is in the input, its balance is at least 10.00 and its address type is one of the two kept types |
| Execution.TenDollarsKept | execution.py:117-118 | a balance of "10.00" passes the filter |
| Execution.NineNinetyNineDropped | execution.py:117-118 | a balance of "9.99" does not |
| Execution.SymbolsIgnored | execution.py:110-115 | "$1,250.00" converts to 1250.00 |
| Execution.SymbolsOnlyIsZero | execution.py:112-113 | a balance of only symbols converts to 0 and is dropped |
| Execution.TextBalanceFails | execution.py:114 | a balance of "abc" does not convert |
| Execution.SeparatorBalanceFails | execution.py:110-115 | a balance holding a separator U+001C to U+001F does not convert, so the run stops |
| Execution.Entries | execution.py:139-141 | one (key, email) entry per roster row |
| Execution.SetDefaults | execution.py:142-143 | every key of the index is non-empty, and so is its email |
| Execution.BuildEmailIndex | execution.py:138-143 | the loop builds exactly the index of the roster |
| Execution.SetDefaultsFirstWins | execution.py:142-143 | a key is in the index exactly when some entry offers it with an email, and it maps to the email of the first such entry |
| Execution.SetDefaultKeeps | execution.py:143 | an entry for a key already in the index changes nothing |
| Execution.LookupEmailOfRoster | execution.py:184 | the lookup is "" exactly when no roster row offers the key; otherwise the first offering row's email |
| Execution.FirstOfType | execution.py:170 | None exactly when no row has the address type; otherwise the first row that has it |
| Execution.SourceRowPrefersProperty | execution.py:174 | the source row is the first Property Address row, or the group's first row when there is none |
| Execution.AddressRowIsSourceRow | execution.py:181 | the address row is always the source row |
| Execution.OwnersNameCases | execution.py:176 | "First Last" when both are present, otherwise whichever is present, never with a stray space |
| Execution.AmountIsMoneyOfText | execution.py:187 | the amount is `money` of the converted balance's text |
| Execution.LayoutFollowsHeaders | execution.py:152-163 | a record has one value per header, and a repeated header repeats its value |
| Execution.RecordFollowsHeaders | execution.py:190-201 | each account's row has one value per header, and the duplicated propertyAddress and accNum columns carry equal values |
| Execution.RecordFields | execution.py:174-201 | the dates, the source row's owner name, address and association, the stripped account, the association's email and the amount land in their columns |
| Execution.HeadersRepeat | execution.py:152-163 | ten headers; the only repeats are positions 2 and 5, and 4 and 8 |
| Execution.Records | execution.py:168-201 | one record per group, the `k`-th that of the `k`-th group |
| Execution.BuildRecords | execution.py:166-201 | the loop builds exactly the records of the groups |
| Execution.Export | execution.py:99-201 | running the script body gives exactly the run's outcome |
| Execution.ExportRunOutcome | execution.py:99-201 | the run stops with the first failing guard; it succeeds exactly when all succeed, and then it holds the records of the kept rows' groups |
| Execution.RecordsAccounts | execution.py:168-201 | one ten-value row per group, carrying the group's stripped account |
| Execution.ExportOnePerAccount | execution.py:124-201 | as many rows as distinct accounts among the kept rows, in strictly ascending account order, each built from exactly that account's rows |
| Execution.DistinctAccounts | execution.py:125 | no account has two groups |
| GenerateDocs.CleanValue | generate_docs.py:16-21 | the result is stripped, never a spelling of "nan" or "none", and either "" or the stripped cell |
| GenerateDocs.CleanValueIdempotent | generate_docs.py:16-21 | cleaning twice equals cleaning once |
| GenerateDocs.CleanValueKeeps | generate_docs.py:20-21 | text that is not a spelling of "nan" or "none" comes back stripped |
| GenerateDocs.CleanValueDropsNanNone | generate_docs.py:21 | any casing of "nan" or "none", with any surrounding whitespace, becomes "" |
| GenerateDocs.CleanValueExamples | generate_docs.py:21 | "NaN" and "None" become "" |
| GenerateDocs.MatchingColumns | generate_docs.py:40 | a column is kept exactly when it is in the header and is the base or starts with the base and "." |
| GenerateDocs.KeyLeTotal | generate_docs.py:42 | the sort key orders any two columns |
| GenerateDocs.KeyLeTransitive | generate_docs.py:42 | the sort key order is transitive |
| GenerateDocs.KeyLeAntisymmetric | generate_docs.py:42 | two columns ordered both ways are equal |
| GenerateDocs.InsertByKey | generate_docs.py:42 | inserting adds exactly the one column |
| GenerateDocs.SortByKey | generate_docs.py:42 | sorting loses and adds no column |
| GenerateDocs.SortByKeySorted | generate_docs.py:42 | the result is ordered by the key |
| GenerateDocs.SortedUnique | generate_docs.py:42 | two key-ordered arrangements of the same columns are equal, so the order is fully determined |
| GenerateDocs.ResolveColsFacts | generate_docs.py:34-42 | exactly the matching columns, none lost or added, ordered with the base first and the rest in code-point order, and the only such ordering |
| GenerateDocs.FirstNonEmptyPicksFirst | generate_docs.py:46-51 | "" exactly when all values are empty; otherwise the first non-empty one |
| GenerateDocs.CleanedCells | generate_docs.py:46-48 | one cleaned cell per column, an absent column giving "" |
| GenerateDocs.GetFirstNonemptyPicksFirst | generate_docs.py:44-51 | "" exactly when every listed column is absent or cleans to ""; otherwise the cleaned value of the first that does not |
| GenerateDocs.DropForbidden | generate_docs.py:56 | the leading run of forbidden characters is removed, and only it |
| GenerateDocs.ReplaceRuns | generate_docs.py:56 | the substitution leaves no forbidden character and empties only the empty string |
| GenerateDocs.SafeFolderName | generate_docs.py:53-56 | the name is never empty and contains none of `<>:"/\|?*` |
| GenerateDocs.ReplaceRunsKeeps | generate_docs.py:56 | text without forbidden characters is unchanged |
| GenerateDocs.ReplaceRunsAppend | generate_docs.py:56 | the substitution works piecewise on text not split inside a run |
| GenerateDocs.ReplaceRunsOfRun | generate_docs.py:56 | a run of forbidden characters becomes one "_" |
| GenerateDocs.ReplaceRunsMaximalRun | generate_docs.py:56 | a maximal run becomes one "_" and the text around it is substituted independently |
| GenerateDocs.SafeFolderNameBlank | generate_docs.py:55 | a name that cleans to "" becomes "Unknown" |
| GenerateDocs.SafeFolderNameClean | generate_docs.py:55-56 | a clean name without forbidden characters is its cleaned self |
| GenerateDocs.ChooseTemplate | generate_docs.py:132-144 | a chosen template is usable; Letter 1 only when Letter 2 is not usable; a skip exactly when neither is usable |
| GenerateDocs.CheckInputs | generate_docs.py:59-69 | the run goes ahead exactly when the CSV exists and at least one template does; otherwise the error of the first failed check |
| GenerateDocs.AbortExactlyWhenNothingUsable | generate_docs.py:64-69 | the missing-templates abort happens exactly when no row could get a document |
| GenerateDocs.NoSkipWithLetter1 | generate_docs.py:138-144 | with the Letter 1 template present no row is skipped |
| GenerateDocs.BaseContext | generate_docs.py:118-127 | the base context has exactly the eight placeholder keys |
| GenerateDocs.ContextExtendsBase | generate_docs.py:118-142 | Letter 1 gets the base context; Letter 2 gets the base context plus exactly the offsite address key |
| GenerateDocs.FileName | generate_docs.py:137-144 | the file name starts with the account part and " - " and ends with " - Letter N.docx" |
| GenerateDocs.FileNameTellsLetter | generate_docs.py:137-144 | the file name determines the letter |
| GenerateDocs.ResolveAll | generate_docs.py:79-91 | every wanted header, and only those, is resolved against the columns |
| GenerateDocs.UnknownAccountPart | generate_docs.py:110 | an empty account number gives "Unknown_Account" |
| GenerateDocs.UnknownAssociationPart | generate_docs.py:111 | an empty association gives "Unknown_Association" |
| GenerateDocs.RowOutcomeFacts | generate_docs.py:97-144 | a row is skipped exactly when no template is usable; a document uses an existing template, Letter 2 exactly for an offsite address with its template, the matching context, a safe folder and the matching file name |
| GenerateDocs.Plan | generate_docs.py:97-144 | one outcome per row, the `k`-th that of the `k`-th row |
| GenerateDocs.PlanFacts | generate_docs.py:97-144 | over a run: no skip when Letter 1 exists, every document from an existing template, Letter 2 only for rows with an offsite address |
| GenerateDocs.GenerateDocs | generate_docs.py:59-144 | the run fails on the first failed input check; otherwise the loop yields exactly the plan of the rows |
| Handoff.ReadColumnsMatchHeaders | generate_docs.py:75-76 | each column read back matches the header it was written under |
| Handoff.ShortColumnsDoNotMatch | generate_docs.py:40 | columns shorter than a header never resolve to it |
| Handoff.OffsiteUnresolved | generate_docs.py:107 | no column of the export resolves to "{{ownersOffsiteAddress}}" |
| Handoff.ExportNeverLetter2 | generate_docs.py:107-144 | on the export every row gets Letter 1 when that template exists and is skipped otherwise; Letter 2 is never produced |

## Left out

- Reading and writing files are outside the model: which `converted*.csv` is newest, `read_csv` and `to_csv`, `utf-8-sig`, `makedirs`. The tables, the roster and the existence of files are parameters.
- The clock is outside the model: `datetime.now`, `strftime` and `monthrange` in execution.py, and `parse_month_from_date` with the fallback date in generate_docs.py. Dates are strings the caller supplies, and the month of a date is a function parameter.
- Rendering with DocxTemplate, saving the document and the `generated` counter are left out. They belong to that library, and the counter depends on its success. `GenerateDocs` lists the documents it would hand to the renderer.
- The `print` warnings and progress messages are left out; they do not affect the result.
- IEEE doubles are not modelled. Values are exact decimals, and `,.2f` rounds half up on the exact digits. A double can round a value written with a 5 in the third decimal place the other way. Very long numerals can lose precision through `int(float(s))`.
- Numerals.ParseFloat: exponents ("1e3"), underscores and non-ASCII digits, which Python's `float()` accepts, are rejected. Whitespace is handled as `float()` handles it. Inside the text, non-ASCII whitespace is rejected just as a blank is. At the ends, `float()` skips the ASCII whitespace and every non-ASCII whitespace character, but not the separators U+001C to U+001F that `str.strip()` removes.
- Grouping.GroupByAccount: rows within a group keep their input order. pandas' default `sort_values` is not stable, so "the first row of a group" is the first of the rows as given.
- Strings.Lower: only ASCII letters are lower-cased. Python's `lower()` also maps other letters.
- Fields.Coalesce: an empty (NaN) cell counts as absent. Python's `str(nan)` would yield "nan", which `coalesce` keeps. This matters only for a cell pandas read as NaN and which is then passed through `coalesce`. In the source such a cell becomes the text "nan": an empty first or last name gives an owner name such as "nan Smith" (`Execution.OwnersName`); an empty address part gives a "nan" part (`Fields.BuildFullAddress`); and a roster row with an empty email enters "nan" for its association, which then wins over every later email (`Execution.SetDefaults`, `Execution.EmailIndex`). The model gives "Smith", leaves the part out, and skips the roster row.
- Pandas renaming repeated headers on read (".1", ".2", …) is taken as given. `Handoff.ReadColumns` is the header list the export produces after that renaming.
- Screen upload (screen.py) is not part of this model.

Where the code differs from its own comments and the description of the project, the model follows the code:

- A balance that does not convert raises `ValueError` in `astype(float)`, so the whole run stops (`Execution.FilterRows` fails with `BadBalance`). Only an empty cell after removing `$` and `,` becomes 0.
- `clean_street_number` is not idempotent on every input. "1.0.0.0" becomes "1.0.0", and that becomes "1". An inner space ("x .0") gives "x ", which a second cleaning strips. Idempotence is proved on the domain without inner spaces and without a trailing ".0.0".
- execution.py never writes a `{{ownersOffsiteAddress}}` column, and `offsite_rows` is unused. So on its own export generate_docs.py never produces Letter 2 (`Handoff.ExportNeverLetter2`).
- A missing roster ends the run, and the roster must have the exact header "Association Name", not one found by `pick_assoc_column`.
- The address row of line 181 is always the source row (`Execution.AddressRowIsSourceRow`).
