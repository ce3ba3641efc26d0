# Word count with definitions — a Dafny model

This project models the core of the WordCount API:

- It turns a text into a word-frequency table.
- It ranks the table by count and keeps the top `limit` words.
- It looks every ranked word up in a dictionary service.
- It joins the responses back onto the ranked words.
- It validates the upload request that carries the text.

It also models the page scraper that counts the words of HTML elements.

Modules, one per source file plus three shared ones:

| module | file | models |
|---|---|---|
| `Common` | `common.dfy` | `Option` (a reference that may be null), `Result` (a call that may throw), `HasValue` |
| `Strings` | `strings.dfy` | `String.Split(char)` and its inverse `Join` |
| `Tables` | `tables.dfy` | a `Dictionary<string, int>` that only grows, with `TryGetValue` and the indexer set (`Put`); the reference occurrence table `Tally` |
| `WordProcessor` | `word_processor.dfy` | `WordProcessorService`: letter-run tokenising, lower-casing, `CountOccurrences` |
| `WordCounter` | `word_counter.dfy` | `WordCounterService.ProcessWordsWithDefinitionsAsync`: stable ranking, `Take`, lookups, `ToDictionary` by word, assembly in ranked order |
| `SearchParameter` | `search_parameter.dfy` | `WordCountSearchParameter`: its constants, `Validate` and `ReadFileStream` |
| `CountWordData` | `count_word_data.dfy` | `CountWordDataService.FetchWordsWithCount`: filter, split, group-count, and the loop over elements |

### How the .NET dictionary is modelled

A .NET `Dictionary` enumerates its entries in insertion order when nothing is removed. The ranking step depends on that order, because `OrderByDescending` is a stable sort. So a dictionary is a sequence of `Entry(key, count)` with distinct keys, not a `map`.

`Tally(items)` is the reference definition of "the occurrence table". It holds one entry per distinct item, in order of first occurrence. Each entry's count is the item's multiplicity.

Two loops are proved to build `Tally` of what they count:

- `WordProcessor.CountOccurrences`, which uses `TryGetValue` and then `counts[item] = count + 1`.
- `CountWordData.AddOccurrences`, the same step carried across the scraper's elements.

The scraper's `GroupBy(s => s)...ToDictionary(...)` is not a loop. It is modelled directly by `Tally`, which keeps the groups in order of first occurrence and gives each group its size.

### Collaborators

Behaviour that lives outside the core comes in as function parameters:

- `isLetter`: the regex class `\p{L}`.
- `lower`: the culture-dependent `ToLower`.
- `hasValue`: the `HasValue()` string extension.
- `lookup`: `FetchDefinitionsAsync`.

`IsAsciiLetter` and `AsciiLower` are one concrete instance of `isLetter` and `lower`. The worked examples from the repository's unit tests are proved with that instance.

A thrown exception is a `Failure` value:

- `ToDictionary` on a duplicate key gives `DuplicateKey`.
- `Validate` gives `InvalidInput` or `DisallowedContentType`.

### Limits and lookups

- A non-positive `limit` gives an empty ranking, because `Take` returns nothing (`WordCounter.RankLength`).
- There is no cancellation or fault policy. `Task.WhenAll` is awaited with no token, and `FetchDefinitionsAsync` catches its own exceptions (src/libs/WordCount.Api.Core/Data/ExternalService/DefinitionsApiService.cs:68-80). So the lookup is a total function.
- An unknown word, or a lookup whose request failed, gives a response without a `Word`. That word gets empty definitions.
- The real client can also return null: a 200 response whose body deserializes to null makes the client's own status assignment throw, and it returns null from its catch. The model has no null responses; see `WordCounter.ProcessWordsWithDefinitions` under "## Left out".
- The only error the service itself raises is the duplicate key in `ToDictionary`.

## Model

| member | source | states |
|---|---|---|
| `Strings.SplitCount` | src/libs/WordCount.Api.Core/Data/Service/CountWordDataService.cs:42 | `Split(' ')` yields one more piece than there are separators |
| `Strings.SplitPieces` | src/libs/WordCount.Api.Core/Data/Service/CountWordDataService.cs:42 | no piece contains the separator, and every character of a piece comes from the input |
| `Strings.JoinSplit` | src/libs/WordCount.Api.Core/Data/Service/CountWordDataService.cs:42 | joining the pieces with the separator gives back the input (nothing is lost by splitting) |
| `Strings.SplitJoin` | src/libs/WordCount.Api.Core/Data/Service/CountWordDataService.cs:42 | splitting a join of separator-free pieces gives back exactly those pieces |
| `Tables.TryGetValue` | src/libs/WordCount.Api.Core/Data/Service/WordProcessorService.cs:38 | the lookup misses exactly when the key is absent, and a hit returns a stored entry's count |
| `Tables.Put` | src/libs/WordCount.Api.Core/Data/Service/WordProcessorService.cs:42 | the indexer set keeps keys distinct: an existing key keeps its position and takes the new count, a new key is appended, and every other entry is unchanged |
| `Tables.SumPut` | src/libs/WordCount.Api.Core/Data/Service/WordProcessorService.cs:42 | overwriting a count changes the total by exactly the difference |
| `Tables.Distinct` | src/libs/WordCount.Api.Core/Data/Service/WordProcessorService.cs:36-43 | the keys in first-occurrence order hold the same elements as the items, each once |
| `Tables.TallyKeys` | src/libs/WordCount.Api.Core/Data/Service/WordProcessorService.cs:36-43 | the occurrence table's keys are the distinct items in first-occurrence order, with no duplicates |
| `Tables.TallyLookup` | src/libs/WordCount.Api.Core/Data/Service/WordProcessorService.cs:36-44 | looking a word up in the occurrence table gives its number of occurrences, and nothing when it never occurs |
| `Tables.TallyKeysIn` | src/libs/WordCount.Api.Core/Data/Service/WordProcessorService.cs:36-44 | every key of the table is one of the items |
| `Tables.TallyPositive` | src/libs/WordCount.Api.Core/Data/Service/WordProcessorService.cs:38-42 | every stored count is at least 1 |
| `Tables.CountStep` | src/libs/WordCount.Api.Core/Data/Service/WordProcessorService.cs:38-42 | one loop iteration (look up, absent as 0, store plus one) turns the table of a prefix into the table of the prefix plus one item |
| `Tables.CountStepInto` | src/libs/WordCount.Api.Core/Data/Service/WordProcessorService.cs:38-42 | the same step, for the table the iteration builds |
| `Tables.TallyCountOrZero` | src/libs/WordCount.Api.Core/Data/Service/WordProcessorService.cs:38-41 | a failed lookup counts as zero occurrences |
| `Tables.TallyPrefixStep` | src/libs/WordCount.Api.Core/Data/Service/WordProcessorService.cs:36-43 | the step from the prefix of length i to the prefix of length i + 1 |
| `Tables.TallySnoc` | src/libs/WordCount.Api.Core/Data/Service/WordProcessorService.cs:42 | counting one more item stores its previous multiplicity plus one |
| `Tables.TallySum` | src/libs/WordCount.Api.Core/Data/Service/WordProcessorService.cs:36-43 | the counts add up to the number of items counted |
| `Tables.TallyKeysGrow` | src/libs/WordCount.Api.Core/Data/Service/WordProcessorService.cs:36-43 | keys are only ever added: the keys after fewer items are a prefix of the keys after more |
| `WordProcessor.LetterRun` | src/libs/WordCount.Api.Core/Data/Service/WordProcessorService.cs:25-26 | the run is all letters and is maximal (the next character is not a letter) |
| `WordProcessor.WordsAreLetterRuns` | src/libs/WordCount.Api.Core/Data/Service/WordProcessorService.cs:25-26 | every match of `\p{L}+` is a non-empty run of letters |
| `WordProcessor.WordsOfLetters` | src/libs/WordCount.Api.Core/Data/Service/WordProcessorService.cs:25-26 | a text made of letters alone is one match |
| `WordProcessor.WordsOfNonLetters` | src/libs/WordCount.Api.Core/Data/Service/WordProcessorService.cs:25-26 | a text without letters has no matches |
| `WordProcessor.WordsSeparator` | src/libs/WordCount.Api.Core/Data/Service/WordProcessorService.cs:25-26 | a non-letter separates the matches: those of `a + [c] + b` are those of `a` followed by those of `b` |
| `WordProcessor.LetterRunPrefix` | src/libs/WordCount.Api.Core/Data/Service/WordProcessorService.cs:25 | a run of letters stops at the first non-letter, whatever follows |
| `WordProcessor.LowerAll` | src/libs/WordCount.Api.Core/Data/Service/WordProcessorService.cs:26 | every match is lower-cased, position by position |
| `WordProcessor.CountOccurrences` | src/libs/WordCount.Api.Core/Data/Service/WordProcessorService.cs:32-45 | the loop builds the occurrence table of the items; keys are distinct and the counts add up to the number of items |
| `WordProcessor.FetchWordsWithCount` | src/libs/WordCount.Api.Core/Data/Service/WordProcessorService.cs:22-30 | the result is the occurrence table of the lower-cased letter runs; the counts add up to the number of runs; every key is the lower-case form of some run |
| `WordProcessor.AsciiKeysAreLowerLetters` | src/libs/WordCount.Api.Core/Data/Service/WordProcessorService.cs:25-27 | with ASCII letters, every key consists of lower-case letters only |
| `WordProcessor.NoLettersNoKeys` | src/libs/WordCount.Api.Core/Data/Service/WordProcessorService.cs:22-30 | a text without letters yields an empty dictionary |
| `WordProcessor.WordProcessorExampleMissingWord` | src/tests/WordCount.Api.Tests/Data/Service/WordProcessorServiceTests.cs:37-38 | "HIAWATHA" gives `hiawatha` once and no entry for `leicester` |
| `WordProcessor.WordProcessorExampleCaseFold` | src/libs/WordCount.Api.Core/Data/Service/WordProcessorService.cs:26-27 | "Go go GO" counts as a single key `go` with count 3 |
| `WordProcessor.WordProcessorExampleRepeated` | src/tests/WordCount.Api.Tests/Data/Service/WordProcessorServiceTests.cs:36 | the comma-separated repeated word is counted 5 times |
| `WordCounter.WithCountAppend` | src/libs/WordCount.Api.Core/Services/WordCounterService.cs:35 | the entries with a given count, in order, distribute over concatenation |
| `WordCounter.InsertByCountPermutes` | src/libs/WordCount.Api.Core/Services/WordCounterService.cs:35 | inserting adds exactly the one entry |
| `WordCounter.InsertByCountSorted` | src/libs/WordCount.Api.Core/Services/WordCounterService.cs:35 | insertion keeps a list ordered by descending count |
| `WordCounter.OrderByCountDescendingPermutes` | src/libs/WordCount.Api.Core/Services/WordCounterService.cs:35 | `OrderByDescending` is a permutation of the dictionary's entries |
| `WordCounter.OrderByCountDescendingSorted` | src/libs/WordCount.Api.Core/Services/WordCounterService.cs:35 | the result is ordered by non-increasing count |
| `WordCounter.InsertByCountWithCount` | src/libs/WordCount.Api.Core/Services/WordCounterService.cs:35 | an inserted entry goes after every entry with the same count |
| `WordCounter.OrderByCountDescendingStable` | src/libs/WordCount.Api.Core/Services/WordCounterService.cs:35 | the sort is stable: entries with equal counts keep their dictionary order |
| `WordCounter.OrderByCountDescendingDistinct` | src/libs/WordCount.Api.Core/Services/WordCounterService.cs:35-36 | sorting keeps keys distinct, so the following `ToDictionary` cannot throw |
| `WordCounter.Take` | src/libs/WordCount.Api.Core/Services/WordCounterService.cs:35 | `Take(n)` is the prefix of length min(n, length), empty for n <= 0 |
| `WordCounter.RankLength` | src/libs/WordCount.Api.Core/Services/WordCounterService.cs:35-36 | the ranking has min(limit, number of words) entries, none when the limit is not positive |
| `WordCounter.RankNonIncreasing` | src/libs/WordCount.Api.Core/Services/WordCounterService.cs:35-36 | the ranked words come in non-increasing count order |
| `WordCounter.RankKeepsTop` | src/libs/WordCount.Api.Core/Services/WordCounterService.cs:35-36 | every ranked entry is in the table, and every dropped entry counts no more than any kept one |
| `WordCounter.RankStable` | src/libs/WordCount.Api.Core/Services/WordCounterService.cs:35-36 | ties keep their dictionary order among the kept entries |
| `WordCounter.RankDistinct` | src/libs/WordCount.Api.Core/Services/WordCounterService.cs:35-36 | the ranked keys are distinct, so `ToDictionary(x => x.Key, ...)` on them succeeds |
| `WordCounter.RankTieExample` | src/libs/WordCount.Api.Core/Services/WordCounterService.cs:35-36 | {a:5, b:5, c:3} with limit 2 ranks as [a, b], not [b, a] |
| `WordCounter.FetchAll` | src/libs/WordCount.Api.Core/Services/WordCounterService.cs:38-39 | one lookup per ranked word; `Task.WhenAll` returns them in the words' order |
| `WordCounter.DefinitionsByWord` | src/libs/WordCount.Api.Core/Services/WordCounterService.cs:41-42 | the dictionary is built exactly when no word is carried twice; its keys are the words the responses carry |
| `WordCounter.DefinitionsByWordValues` | src/libs/WordCount.Api.Core/Services/WordCounterService.cs:41-42 | each word maps to its response's definitions, or to an empty list when they are null |
| `WordCounter.DefinitionsByWordFailure` | src/libs/WordCount.Api.Core/Services/WordCounterService.cs:41-42 | a failure names a word that two responses carry |
| `WordCounter.MatchingDefinitionsSkipsWordless` | src/libs/WordCount.Api.Core/Services/WordCounterService.cs:41 | a response without a word contributes to no word's definitions |
| `WordCounter.MatchingDefinitionsAt` | src/libs/WordCount.Api.Core/Services/WordCounterService.cs:41-42 | with unique words, a word's definitions are those of the response that carries it, and empty when none does |
| `WordCounter.DefinitionsForMatches` | src/libs/WordCount.Api.Core/Services/WordCounterService.cs:41-52 | `TryGetValue` on the built dictionary, with an empty fallback, equals the search of the responses by word |
| `WordCounter.DefinitionsByWordOrderIrrelevant` | src/libs/WordCount.Api.Core/Services/WordCounterService.cs:38-42 | the order in which responses arrive does not change the dictionary built from them |
| `WordCounter.Assemble` | src/libs/WordCount.Api.Core/Services/WordCounterService.cs:44-55 | one output per ranked word, in ranked order, with its count and the definitions found for it or an empty list |
| `WordCounter.ProcessWordsWithDefinitions` | src/libs/WordCount.Api.Core/Services/WordCounterService.cs:30-58 | the ranked words, in order and with their counts, each with the definitions of the response carrying that word; min(limit, number of words) entries in non-increasing count order; the call fails exactly when two responses carry the same word, naming it |
| `SearchParameter.JoinLinesIsJoin` | src/libs/WordCount.Api.Core/Data/Filters/WordCountSearchParameter.cs:47-49 | `AppendLine` per line is a join at the terminator with one final empty piece |
| `SearchParameter.JoinLinesSplit` | src/libs/WordCount.Api.Core/Data/Filters/WordCountSearchParameter.cs:47-49 | the text splits back into the lines read, then one empty piece |
| `SearchParameter.JoinLinesEmpty` | src/libs/WordCount.Api.Core/Data/Filters/WordCountSearchParameter.cs:45-51 | the text is empty exactly when the file has no lines, and otherwise ends in a terminator |
| `SearchParameter.MissingFileFirst` | src/libs/WordCount.Api.Core/Data/Filters/WordCountSearchParameter.cs:24-27 | a missing file is reported as invalid `File` before any other check |
| `SearchParameter.ValidationAccepts` | src/libs/WordCount.Api.Core/Data/Filters/WordCountSearchParameter.cs:22-41 | validation passes exactly when the file exists, its content type is not refused and its text has a value; the text is then the file's lines joined |
| `SearchParameter.ContentTypeWithoutValueAccepted` | src/libs/WordCount.Api.Core/Data/Filters/WordCountSearchParameter.cs:29-30 | a missing or empty content type is not refused; the upload is judged on its text alone |
| `SearchParameter.AllowedTypesAccepted` | src/libs/WordCount.Api.Core/Data/Filters/WordCountSearchParameter.cs:16 | plain text and Word documents pass the content-type check |
| `SearchParameter.RefusedTypeBeforeText` | src/libs/WordCount.Api.Core/Data/Filters/WordCountSearchParameter.cs:29-35 | a refused content type is reported with the allowed list, whatever the file holds |
| `SearchParameter.EmptyFileFailsOnText` | src/tests/WordCount.Api.Tests/Data/Filters/WordCountSearchParameterTests.cs:115-131 | an empty file of an allowed type fails on `Text` |
| `SearchParameter.AcceptedTextKeepsLines` | src/libs/WordCount.Api.Core/Data/Filters/WordCountSearchParameter.cs:35-40 | an accepted text splits back into the file's lines |
| `SearchParameter.WordCountSearchParameter.constructor` | src/libs/WordCount.Api.Core/Data/Filters/WordCountSearchParameter.cs:17-20 | a new request holds the file, no text, and `Limit` = `DefaultLimit` = 10 |
| `SearchParameter.WordCountSearchParameter.ReadFileStream` | src/libs/WordCount.Api.Core/Data/Filters/WordCountSearchParameter.cs:43-52 | the loop appends every line with its terminator, in order |
| `SearchParameter.WordCountSearchParameter.Validate` | src/libs/WordCount.Api.Core/Data/Filters/WordCountSearchParameter.cs:22-41 | the outcome is the first failing check in the order file, content type, text; `Text` is assigned once the first two checks pass, even when the third fails; `Limit` and `File` are untouched |
| `CountWordData.StripDisallowed` | src/libs/WordCount.Api.Core/Data/Service/CountWordDataService.cs:40 | only ASCII letters and spaces remain |
| `CountWordData.StripCounts` | src/libs/WordCount.Api.Core/Data/Service/CountWordDataService.cs:40 | kept characters keep their multiplicity and all others disappear |
| `CountWordData.StripAppend` | src/libs/WordCount.Api.Core/Data/Service/CountWordDataService.cs:40 | the filter works character by character, so it distributes over concatenation |
| `CountWordData.StripKept` | src/libs/WordCount.Api.Core/Data/Service/CountWordDataService.cs:40 | a text of kept characters passes unchanged |
| `CountWordData.LastWithValue` | src/libs/WordCount.Api.Core/Data/Service/CountWordDataService.cs:36-46 | the last element that has a value, or none when no element has one |
| `CountWordData.ScrapedTableStep` | src/libs/WordCount.Api.Core/Data/Service/CountWordDataService.cs:39-45 | an element with a value replaces the whole dictionary with its own table; one without a value leaves it alone |
| `CountWordData.FetchWordsWithCount` | src/libs/WordCount.Api.Core/Data/Service/CountWordDataService.cs:30-48 | the loop leaves the table of the last element that has a value, or an empty dictionary |
| `CountWordData.ElementTableKeys` | src/libs/WordCount.Api.Core/Data/Service/CountWordDataService.cs:40-45 | every key consists of ASCII letters only (possibly the empty word) |
| `CountWordData.ElementTableSum` | src/libs/WordCount.Api.Core/Data/Service/CountWordDataService.cs:40-45 | the counts add up to one more than the number of spaces in the element |
| `CountWordData.ElementTableLookup` | src/libs/WordCount.Api.Core/Data/Service/CountWordDataService.cs:42-45 | a key's count is the number of pieces equal to it |
| `CountWordData.NewLineGlues` | src/libs/WordCount.Api.Core/Data/Service/CountWordDataService.cs:40 | a line break is deleted, not turned into a separator, so the words either side of it fuse |
| `CountWordData.DoubleSpaceCountsEmpty` | src/libs/WordCount.Api.Core/Data/Service/CountWordDataService.cs:42 | two spaces in a row produce an empty piece, which is counted as the word "" |
| `CountWordData.TwoPiecesTwoKeys` | src/libs/WordCount.Api.Core/Data/Service/CountWordDataService.cs:42-45 | two different words separated by a space give two entries of count 1, in order |
| `CountWordData.NoCaseFolding` | src/libs/WordCount.Api.Core/Data/Service/CountWordDataService.cs:42-45 | grouping is case-sensitive: "Word word" gives two keys |
| `CountWordData.AddOccurrences` | src/libs/WordCount.Api.Core/Data/Service/CountWordDataService.cs:42-45 | counting more items into an occurrence table gives the table of everything counted |
| `CountWordData.FetchAllWordsWithCount` | src/libs/WordCount.Api.Core/Data/Service/CountWordDataService.cs:30-48 | with the dictionary carried across elements, the result is the table of the pieces of every element that has a value, and the counts add up to their number |
| `CountWordData.AllPiecesCountsEveryElement` | src/libs/WordCount.Api.Core/Data/Service/CountWordDataService.cs:36-46 | every valued element's pieces are all counted |
| `CountWordData.SingleValuedElementAgrees` | src/libs/WordCount.Api.Core/Data/Service/CountWordDataService.cs:36-46 | with one element that has a value, the loop as written and the accumulating loop agree |
| `CountWordData.NoValuedNoPieces` | src/libs/WordCount.Api.Core/Data/Service/CountWordDataService.cs:39 | elements without a value contribute nothing |
| `CountWordData.OverwriteLosesEarlierElement` | src/libs/WordCount.Api.Core/Data/Service/CountWordDataService.cs:42-45 | for two valued elements `u` and `v`, the loop as written has no entry for `u`; the accumulating loop counts it once |

## Left out

- I/O is not modelled: the HTTP client, `Task.WhenAll`, the stream reader, `IFormFile`, AngleSharp's document loading and `QuerySelectorAll`. The lines of the uploaded file, the inner HTML of the elements and the lookup responses are inputs.
- `WordCounter.FetchAll`: the lookup is a deterministic total function. A lookup that throws, or a cancellation, is not modelled; in the code it would make the whole call throw.
- `WordProcessor.FetchWordsWithCount`: the regex class `\p{L}` and culture-sensitive `ToLower` are parameters, not Unicode tables.
- `WordProcessor.CountOccurrences` and `WordProcessor.FetchWordsWithCount`: the `IEqualityComparer<string>` argument, which `FetchWordsWithCount` passes as `CurrentCultureIgnoreCase` (src/libs/WordCount.Api.Core/Data/Service/WordProcessorService.cs:27), is left out. Keys are compared by ordinal equality, not by `CurrentCultureIgnoreCase`. So two lower-case keys that the culture treats as equal but that differ ordinally are counted separately. Examples are "οδοσ" and "οδος" (σ and ς), or "ſ" and "s". The source stores one key for each such pair.
- `Common.HasValue` takes the string extension's test for a non-null string as a parameter. Its own definition is not part of this model.
- Counts are unbounded integers. 32-bit overflow of a count needs more than 2^31 occurrences of a word and is not modelled.
- `SearchParameter.NewLine`: `Environment.NewLine` is modelled as "\n". `StreamReader.ReadLine`'s handling of "\r\n" is modelled by taking the lines as input.
- The MIME constants are written out as the standard MIME strings. The exception message texts are replaced by the error's data (the field name, or the content type and the allowed list).
- The HTTP controller, `GetWordCountCommand`, dependency injection, hosting and logging are not part of this model.
- Cancellation and the exceptions caught inside `FetchDefinitionsAsync` are not modelled. A lookup whose request failed is the response without a `Word` that it returns.
- `WordCounter.ProcessWordsWithDefinitions`: lookup responses are never null in the model. The real client returns null when a 200 response's body deserializes to null (src/libs/WordCount.Api.Core/Data/ExternalService/DefinitionsApiService.cs:54, :66, :76-80). Reading `x.Word` on that null at src/libs/WordCount.Api.Core/Services/WordCounterService.cs:41 then throws. So the source can also fail when no two responses carry the same word; the model's "fails exactly when a word is carried twice" holds only for non-null responses.
- Dictionaries are values (sequences of entries). Aliasing of the dictionary object returned by a service is not modelled.

## Findings

| source | as written | input that shows it | evidently intended | confidence | as-written member | corrected member |
|---|---|---|---|---|---|---|
| src/libs/WordCount.Api.Core/Data/Service/CountWordDataService.cs:42-45 | inside the loop over elements, `wordDictionary` is replaced by the table of the current element, so only the last element that has a value is counted | two elements whose inner HTML is "alpha" and "beta": the result has no entry for `alpha` | counting the words of every element into one dictionary; as written, each pass of the loop throws away the previous pass's work, so looping over all elements only to keep the last one has no purpose | not executed | `CountWordData.OverwriteLosesEarlierElement` | `CountWordData.FetchAllWordsWithCount` |

The scraper's tests (src/tests/WordCount.Api.Tests/Data/CountWordDataServiceTests.cs:50-59) look the word up lower-cased (`wordToTest.ToLower()`). The scraper never lower-cases, so `HIAWATHA` can only be found under its upper-case key (`CountWordData.NoCaseFolding`). That mismatch is in the tests rather than in the service, so it is noted here and not modelled further.
