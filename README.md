# NameSorter core in Dafny

This project models the validate → parse → sort pipeline of the NameSorter
application. Raw text lines are handled as follows:

- The **name validator** keeps the lines with two to four name parts.
- The **name parser** turns each kept line into a `PersonName` record: a last name and one or more given names.
- The **LINQ sort strategy** orders the records by last name, then by the given names joined with single spaces.
- The **name sorter** parses every line and hands the parsed list to the strategy.
- The **name sorter service** runs the whole pipeline, with its guards for null and empty input and for cancellation.

Every file of the core is pure, so the model uses datatypes, functions and lemmas.

Modules (one file each):

| module | file | models |
|---|---|---|
| `Outcomes` | `outcomes.dfy` | `Option` (`None` is C# `null`). `Result`/`Error`: each exception the core throws is an `Err` carrying its kind. |
| `Text` | `text.dfy` | The .NET string operations the core relies on: `char.IsWhiteSpace`, `string.Trim()`, `Split(' ', RemoveEmptyEntries)`, `string.Join(" ", …)`, and an ordinal string order. |
| `PersonNames` | `person_name.dfy` | `PersonName` and its `ToString` rendering. |
| `NameValidator` | `name_validator.dfy` | `ValidateNames` and `IsValidNameFormat`. |
| `NameParser` | `name_parser.dfy` | `Parse`, with its three ordered error kinds. |
| `LinqSortStrategy` | `linq_sort_strategy.dfy` | The generic `OrderBy`/`ThenBy` strategy, as a stable insertion sort. |
| `NameSorter` | `name_sorter.dfy` | `NameSorter.Sort` over injected strategy and parser functions. |
| `NameSorterService` | `name_sorter_service.dfy` | `SortNamesAsync` over injected validator and sorter functions. |
| `HostConfiguration` | `host_configuration.dfy` | The registered key selectors and the concrete wiring. End-to-end lemmas about the assembled pipeline. |

Injected collaborators (interfaces resolved by dependency injection) are
function-valued fields of the `NameSorter.Sorter` and
`NameSorterService.Service` datatypes. `HostConfiguration` fills them with the
concrete validator, parser and strategy.

The key ordering is modelled as ordinal lexicographic order on characters
(`Text.LexLe`). The sort is specified without reference to how it is computed:
`LinqSortStrategy.StableSortCharacterized` proves that its result is the
*unique* sequence that is sorted by the keys and keeps every class of
equal-keyed items in input order. That is the meaning of a stable
`OrderBy(...).ThenBy(...)`.

### Where the validator's remark and its code differ

The remark on `IsValidNameFormat` says it also makes sure that no part of the
name is empty or whitespace (NameSorterCore/Validators/NameValidator.cs:39).
The code does not do this:

- `Trim()` removes every white character, but `Split` cuts only at `' '`
  (NameSorterCore/Validators/NameValidator.cs:43, NameSorterCore/Helpers/NameParser.cs:22).
- So a part such as a lone tab survives the split. The validator accepts the line, and the parser then raises the invalid-part error.

The model follows the code. The consequence is recorded under Findings.

## Model

| member | source | states |
|---|---|---|
| `Text.IsWhite` | NameSorterCore/Validators/NameValidator.cs:43 | `char.IsWhiteSpace`, which `Trim()` uses: U+0009..U+000D, U+0020, U+0085, U+00A0 and the Unicode space, line and paragraph separators. |
| `Text.WhiteAndNameCharacters` | NameSorterCore/Validators/NameValidator.cs:43 | Spaces, tabs and line breaks are white; ASCII letters, digits, hyphens and apostrophes are not. |
| `Text.Trim` | NameSorterCore/Validators/NameValidator.cs:43 | The result is the slice of the input left after cutting a white prefix and a white suffix. It is empty iff the input is all white, and otherwise it starts and ends with a non-white character. |
| `Text.TrimPadded` | NameSorterCore/Validators/NameValidator.cs:43 | Trimming white padding around a core that starts and ends with non-white characters gives back exactly that core. |
| `Text.SplitOnSpace` | NameSorterCore/Helpers/NameParser.cs:22 | Every piece is non-empty and contains no `' '`. |
| `Text.SplitOnSpaceIsSplitWithoutEmpties` | NameSorterCore/Helpers/NameParser.cs:22 | The split equals an independent definition: cut at every `' '`, then drop the empty pieces (`RemoveEmptyEntries`). |
| `Text.SplitOnSpaceOfJoin` | NameSorterCore/Helpers/NameParser.cs:22 | Splitting words joined by single spaces gives back the words. |
| `Text.Tokens` | NameSorterCore/Validators/NameValidator.cs:43 | Trim-then-split yields no part iff the line is all white, and every part is a non-empty word without spaces. |
| `Text.TokensOfJoin` | NameSorterCore/Helpers/NameParser.cs:22 | Trim-then-split of single-space-joined words gives back the words when the outer characters are not white. |
| `Text.NormalizeKeepsTokens` | NameSorterCore/Helpers/NameParser.cs:22 | Collapsing a line to its parts joined by single spaces does not change its parts. |
| `Text.Join` | NameSorterCore/Models/PersonName.cs:16 | `string.Join(" ", parts)`: the parts in order with one space between neighbours; `Text.SplitOnSpaceOfJoin` proves that splitting undoes it for space-free words. |
| `Text.LexLe` | NameSorterCore/Sorters/LinqSortStrategy.cs:37 | A prefix of a string is ordered before it, and a string is ordered before another only if its first character is not greater. |
| `Text.LexLeAtFirstDifference` | NameSorterCore/Sorters/LinqSortStrategy.cs:37 | `a` is ordered before `b` iff `a` is a prefix of `b`, or `a` has the smaller character at the first index where they differ. |
| `Text.LexLeTotal` | NameSorterCore/Sorters/LinqSortStrategy.cs:37 | The ordinal string order is total. |
| `Text.LexLeTransitive` | NameSorterCore/Sorters/LinqSortStrategy.cs:37 | The ordinal string order is transitive. |
| `Text.LexLeAntisymmetric` | NameSorterCore/Sorters/LinqSortStrategy.cs:37 | Two strings each ordered before the other are equal. |
| `PersonNames.Render` | NameSorterCore/Models/PersonName.cs:14-17 | `ToString` neither starts nor ends with a white character, and with a clean last name it is non-empty and ends with the last name's final character. |
| `PersonNames.RenderWithoutGivenNames` | NameSorterCore/Models/PersonName.cs:16 | With no given names, `ToString` is the trimmed last name, with no leading space. |
| `PersonNames.RenderJoinsParts` | NameSorterCore/Models/PersonName.cs:16 | When every part is non-empty and free of white characters, `ToString` is the parts joined by single spaces, and splitting it on `' '` gives back given names ++ [last name]. |
| `PersonNames.RenderExample` | NameSorter.Core.Tests/NameFileProcessorTests.cs:35-52 | `("Doe", ["Jane"])` renders as `"Jane Doe"`. |
| `NameValidator.IsValidNameFormat` | NameSorterCore/Validators/NameValidator.cs:41-47 | A line is valid iff trimming it and splitting on `' '` leaves two to four parts; an all-white line is never valid. |
| `NameValidator.ValidNameHasInnerSpace` | NameSorterCore/Validators/NameValidator.cs:43-46 | A valid line has a space inside its trimmed form, since two parts need one between them. |
| `NameValidator.ValidateNames` | NameSorterCore/Validators/NameValidator.cs:19-29 | A null list gives the argument-null error for `names`. Otherwise the result is the order-preserving filter by `IsValidNameFormat`: a line is kept iff it is in the input and valid. |
| `NameValidator.Where` | NameSorterCore/Validators/NameValidator.cs:27 | The filter never lengthens the list, and every kept line satisfies the predicate. |
| `NameValidator.WhereMembers` | NameSorterCore/Validators/NameValidator.cs:27 | A line is kept iff it is an input line that satisfies the predicate. |
| `NameValidator.WhereAppend` | NameSorterCore/Validators/NameValidator.cs:27 | Filtering distributes over concatenation, so kept lines keep their relative order. |
| `NameValidator.WhereKeepsGoodList` | NameSorterCore/Validators/NameValidator.cs:27 | A list whose every line is valid comes back unchanged. |
| `NameValidator.WhereKeepsAllIff` | NameSorterCore/Validators/NameValidator.cs:27 | The output is as long as the input iff every line is valid. |
| `NameValidator.ValidateNamesIdempotent` | NameSorterCore/Validators/NameValidator.cs:27 | Validating an already validated list returns it unchanged. |
| `NameValidator.ValidityOfJoinedWords` | NameSorterCore/Validators/NameValidator.cs:41-47 | A line made of `n` single-spaced words, whose first word does not start and last word does not end with a white character, is valid iff 2 ≤ n ≤ 4. |
| `NameValidator.TwoWordsValid` | NameSorter.Core.Tests/Validators/NameValidatorTests.cs:75 | `"John Doe"` is valid. |
| `NameValidator.OneWordInvalid` | NameSorter.Core.Tests/Validators/NameValidatorTests.cs:76 | `"John"` is not valid. |
| `NameValidator.FourWordsValid` | NameSorter.Core.Tests/Validators/NameValidatorTests.cs:77 | `"John Edward Martin Doe"` is valid. |
| `NameValidator.FiveWordsInvalid` | NameSorter.Core.Tests/Validators/NameValidatorTests.cs:78 | `"John Edward Martin Samuel Doe"` is not valid. |
| `NameValidator.BlankInvalid` | NameSorter.Core.Tests/Validators/NameValidatorTests.cs:79-80 | `"  "` and `""` are not valid. |
| `NameValidator.ValidateNamesExampleFilters` | NameSorter.Core.Tests/Validators/NameValidatorTests.cs:27-36 | The six-line list keeps exactly the 2-, 3- and 4-part lines, in order. |
| `NameValidator.ValidateNamesExampleKeepsSpacing` | NameSorter.Core.Tests/Validators/NameValidatorTests.cs:38-45 | Lines with extra outer and inner spaces are kept verbatim. |
| `NameParser.Parse` | NameSorterCore/Helpers/NameParser.cs:14-41 | Null gives the blank-name error, and so does a line with no part. Exactly one part gives the too-few-parts error. Two or more parts with a white-only part give the invalid-part error. Otherwise the result is a record whose given names ++ [last name] are exactly the line's parts, with at least one given name. |
| `NameParser.ParseSucceedsIff` | NameSorterCore/Helpers/NameParser.cs:22-40 | A line parses iff it has at least two parts and none is white only. No upper bound on the number of parts is enforced. |
| `NameParser.ParseValidatedName` | NameSorterCore/Helpers/NameParser.cs:31-38 | A line the validator keeps either parses, to a record with one to three given names, or fails with the invalid-part error. It parses iff no part is white only. |
| `NameParser.RenderOfParse` | NameSorterCore/Helpers/NameParser.cs:37-40 | Rendering a successful parse gives the line's parts joined by single spaces. |
| `NameParser.ParseOfNormalize` | NameSorterCore/Helpers/NameParser.cs:22 | Collapsing the spacing of a line does not change how it parses. |
| `NameParser.ParseOfRender` | NameSorterCore/Helpers/NameParser.cs:37-40 | A record with clean parts and at least one given name parses back from its rendering. |
| `NameParser.ParseExampleGivenNamesInOrder` | NameSorter.Core.Tests/Helpers/NameParserTests.cs:21-31 | `"John Michael Doe"` parses to last name `Doe` and given names `[John, Michael]`. |
| `NameParser.ParseExampleLastNameOnly` | NameSorter.Core.Tests/Helpers/NameParserTests.cs:34-40 | `"Doe"` gives the too-few-parts error. |
| `NameParser.ParseExampleBlank` | NameSorter.Core.Tests/Helpers/NameParserTests.cs:43-67 | Null, `""` and `"   "` give the blank-name error. |
| `NameParser.ParseExampleExtraSpaces` | NameSorter.Core.Tests/Helpers/NameParserTests.cs:70-80 | `"  John   Doe  "` parses to `("Doe", ["John"])`. |
| `NameParser.ParseExampleTabPart` | NameSorterCore/Helpers/NameParser.cs:31-34 | `"John \t Doe"` is valid for the validator, yet parsing it gives the invalid-part error. The corrected check rejects it. |
| `NameParser.WellFormedNameParses` | NameSorterCore/Validators/NameValidator.cs:36-40 | A line passes the corrected check iff it is valid and parses; it then has one to three given names. |
| `LinqSortStrategy.Create` | NameSorterCore/Sorters/LinqSortStrategy.cs:20-24 | A null primary selector gives the argument-null error for `primarySortCriteria`. A null secondary selector is accepted. Otherwise both selectors are stored. |
| `LinqSortStrategy.Sort` | NameSorterCore/Sorters/LinqSortStrategy.cs:32-46 | A null collection gives the argument-null error for `items`. Otherwise the result is sorted by the keys, is a permutation of the input, and keeps equal-keyed items in input order. An input of at most one item comes back unchanged. |
| `LinqSortStrategy.KeyLeReflexive` | NameSorterCore/Sorters/LinqSortStrategy.cs:37-43 | Every item may precede itself. |
| `LinqSortStrategy.KeyLeTotal` | NameSorterCore/Sorters/LinqSortStrategy.cs:37-43 | Any two items are comparable. |
| `LinqSortStrategy.KeyLeTransitive` | NameSorterCore/Sorters/LinqSortStrategy.cs:37-43 | The primary-then-secondary order is transitive. |
| `LinqSortStrategy.SameKeyIff` | NameSorterCore/Sorters/LinqSortStrategy.cs:37-43 | Two items compare equal iff their primary keys are equal and, when a secondary selector is set, their secondary keys are too. |
| `LinqSortStrategy.SortedByKeys` | NameSorterCore/Sorters/LinqSortStrategy.cs:37-43 | In a sorted sequence the primary keys never decrease. Among equal primary keys, the secondary keys never decrease. |
| `LinqSortStrategy.InsertPermutation` | NameSorterCore/Sorters/LinqSortStrategy.cs:37 | Inserting an item adds exactly that item. |
| `LinqSortStrategy.InsertSorted` | NameSorterCore/Sorters/LinqSortStrategy.cs:37 | Inserting into a sorted sequence keeps it sorted. |
| `LinqSortStrategy.InsertKeyClass` | NameSorterCore/Sorters/LinqSortStrategy.cs:37-43 | Inserting an item puts it at the front of its own key class and changes no other class. |
| `LinqSortStrategy.StableSortPermutation` | NameSorterCore/Sorters/LinqSortStrategy.cs:37-45 | The sort returns a permutation of its input. |
| `LinqSortStrategy.StableSortSorted` | NameSorterCore/Sorters/LinqSortStrategy.cs:37-45 | The sort returns a sequence sorted by the keys. |
| `LinqSortStrategy.StableSortKeyClass` | NameSorterCore/Sorters/LinqSortStrategy.cs:37-43 | The sort lists each class of equal-keyed items in input order. |
| `LinqSortStrategy.StableSortStable` | NameSorterCore/Sorters/LinqSortStrategy.cs:37-43 | The sort is stable for every key class. |
| `LinqSortStrategy.SortedStableUnique` | NameSorterCore/Sorters/LinqSortStrategy.cs:37-43 | Two sorted sequences with the same key classes are equal. |
| `LinqSortStrategy.StableSortCharacterized` | NameSorterCore/Sorters/LinqSortStrategy.cs:37-45 | A sequence is the sort's result iff it is sorted by the keys and keeps every key class of the input. |
| `LinqSortStrategy.SortedUnchanged` | NameSorterCore/Sorters/LinqSortStrategy.cs:37-45 | A sorted input comes back unchanged, so sorting twice equals sorting once. |
| `LinqSortStrategy.SortIgnoresOrderAcrossClasses` | NameSorterCore/Sorters/LinqSortStrategy.cs:37-45 | Inputs with the same key classes sort to the same result. |
| `NameSorter.Create` | NameSorterCore/Sorters/NameSorter.cs:20-24 | A null strategy gives the argument-null error for `sortStrategy`; it is checked before the parser. A null parser gives the error for `nameParser`. Otherwise both are stored. |
| `NameSorter.ParseAll` | NameSorterCore/Sorters/NameSorter.cs:40 | The list parses iff every line does. Then the records correspond to the lines position by position. Otherwise the error is that of the first line that fails. |
| `NameSorter.ParseAllFailsAtFirstError` | NameSorterCore/Sorters/NameSorter.cs:40 | A line that fails makes the whole list fail, with the earliest failing line's error; no line is skipped. |
| `NameSorter.Sort` | NameSorterCore/Sorters/NameSorter.cs:36-46 | A null list gives the argument-null error for `names`. A line that fails to parse fails the call with the first such error. Otherwise the strategy's outcome on the parsed lines, in input order, is the result. |
| `NameSorterService.Create` | NameSorterCore/Services/NameSorterService.cs:21-25 | A null validator gives the argument-null error for `nameValidator`; it is checked before the sorter. A null sorter gives the error for `nameSorter`. Otherwise both are stored. |
| `NameSorterService.SortNamesAsync` | NameSorterCore/Services/NameSorterService.cs:34-50 | A null list gives the argument-null error. An empty list gives an empty result even when cancellation is requested. Otherwise a cancellation request gives the cancellation error before validation. A validator error propagates, and no valid line gives an empty result. Otherwise the result is the sorter's outcome on the valid lines. |
| `HostConfiguration.LastNameKey` | NameSorterApp/Configuration/HostConfiguration.cs:48 | The primary key is the record's last part, its last name. |
| `HostConfiguration.GivenNamesKey` | NameSorterApp/Configuration/HostConfiguration.cs:49 | For space-free given names, the secondary key splits back into exactly the given names, so it determines them. |
| `HostConfiguration.StrategyOrders` | NameSorterApp/Configuration/HostConfiguration.cs:44-50 | The registered strategy never fails, and returns the records sorted by last name then given names, as a permutation, with equal names in input order. |
| `HostConfiguration.NameOrder` | NameSorterApp/Configuration/HostConfiguration.cs:47-49 | The registered strategy orders records by last name, and by joined given names among equal last names. |
| `HostConfiguration.ParseKeptLines` | NameSorterCore/Services/NameSorterService.cs:45-49 | Every kept line either parses, to a record with one to three given names, or fails with the invalid-part error. It parses iff no part is white only. |
| `HostConfiguration.ServiceSortsKeptLines` | NameSorterCore/Services/NameSorterService.cs:40-49 | With a filtering validator, the service returns an empty list when nothing is kept. Otherwise it returns the sorter's outcome on the kept lines. |
| `HostConfiguration.SorterOnParsableLines` | NameSorterCore/Sorters/NameSorter.cs:36-46 | On lines that fail only with the invalid-part error, the concrete sorter fails iff some line fails. Otherwise it returns their parses in name order. |
| `HostConfiguration.SortNamesEndToEnd` | NameSorterCore/Services/NameSorterService.cs:34-50 | The assembled pipeline fails, with the invalid-part error, exactly when some kept line has a white-only part. Otherwise it returns the kept lines' parses: sorted by last name then given names, as a permutation, with equal names in input order. |
| `HostConfiguration.SortNamesGivenNameCount` | NameSorterCore/Services/NameSorterService.cs:45-49 | Every returned record has one to three given names and is the parse of a kept line. |
| `HostConfiguration.RecordsOfParses` | NameSorterCore/Sorters/NameSorter.cs:40-45 | A rearrangement of parses holds only records parsed from the lines, and they inherit the parses' given-name bounds. |
| `HostConfiguration.SortNamesCancellation` | NameSorterCore/Services/NameSorterService.cs:40-43 | With cancellation requested, an empty list still gives an empty result; any other list gives the cancellation error. |
| `HostConfiguration.SortExampleLastThenGiven` | NameSorter.Core.Tests/Sorters/LinqSortStrategyTests.cs:20-37 | Doe/John, Smith/Jane, Doe/Jane sort to Doe/Jane, Doe/John, Smith/Jane. |
| `HostConfiguration.SortExampleSameLastName` | NameSorter.Core.Tests/Sorters/LinqSortStrategyTests.cs:39-52 | Smith/Zoe, Smith/Amy sort to Smith/Amy, Smith/Zoe. |
| `HostConfiguration.SortNamesExampleTabFailsBatch` | NameSorterCore/Helpers/NameParser.cs:31-34 | One line with a tab part, `"John \t Doe"`, fails the whole batch with the invalid-part error. |
| `HostConfiguration.CorrectedSortNamesNeverFails` | NameSorterCore/Validators/NameValidator.cs:36-40 | With the corrected validator, the pipeline on a non-null list without cancellation always succeeds. It returns the kept lines' parses in name order, each with one to three given names. |
| `HostConfiguration.CorrectedSortNamesExampleTab` | NameSorterCore/Validators/NameValidator.cs:36-40 | With the corrected validator, the batch containing `"John \t Doe"` succeeds. |

## Left out

- File I/O, console output and the orchestration around it (`NameFileProcessor`, `FileSystem`, `Program`): these are input/output plumbing.
- Dependency-injection lifetimes and the service container: only the concrete wiring in `HostConfiguration.cs` is modelled.
- `async`/`Task` and the `CancellationToken` type: cancellation is a boolean input, read once where `SortNamesAsync` checks its token.
- `LinqSortStrategy.Sort`: keys are compared ordinally. .NET's culture-sensitive default comparer, used by `OrderBy` over `object` keys, is a foreign library and is not modelled. Dafny characters are Unicode scalar values, not UTF-16 code units.
- `LinqSortStrategy.Strategy`: key selectors return strings. The source's `Func<T, object>` selectors with arbitrary comparable key types are not modelled.
- `NameValidator.ValidateNames`: a `null` element inside a list is not modelled; lists hold strings only. Likewise, `PersonName` never has a `null` `GivenNames`.
- `LinqSortStrategy.Sort`: `OrderBy` is lazy and evaluated when enumerated. The model evaluates it at once, which gives the same result for pure key selectors.
- Moq-based test scaffolding, such as call counting: only the behaviour the tests assert is modelled.
- Invalid-argument errors carry their kind and, for null arguments, the parameter name. Exception messages are not modelled.

## Findings

| source | as written | input that shows it | evidently intended | confidence | as-written member | corrected member |
|---|---|---|---|---|---|---|
| NameSorterCore/Validators/NameValidator.cs:36-47 | The comment promises that no part is empty or whitespace. The code counts only the parts of `Trim().Split(' ', RemoveEmptyEntries)`, so a white-only part such as a tab passes. The parser then rejects that line, and the whole batch fails. | `["Jane Doe", "John \t Doe"]` | The validator drops lines with a white-only part, so that every kept line parses and the batch succeeds. | medium; not executed | `HostConfiguration.SortNamesExampleTabFailsBatch` | `HostConfiguration.CorrectedSortNamesNeverFails` |
