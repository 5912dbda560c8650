# Software license classifier — a Dafny model

This project models the core of a small FastAPI service. The service sorts
software licenses into one of six categories: Productivity, Design,
Communication, Development, Finance and Marketing. For each license it
gets a category and a short explanation of at most 150 characters from a
large language model (Groq's chat-completion API). The model covers two
versions of the service.

**The current service** (`app/`):
- `GroqService` builds the prompt and reads the model's two-line reply
  ("Category: …" / "Explanation: …"). It coerces the category into the six
  labels and truncates the explanation to 150 characters.
- The validators in `app/models/types.py` apply the same truncation and the
  same category check to every `LicenseClassification` that is built.
- `ClassificationService` keeps the results in an insertion-ordered
  dictionary. It classifies one license or a batch, and supports get,
  update, delete, clear and statistics.
- `CSVParser` extracts license names from the rows of an uploaded file and
  checks the file name.

**The first version** (`old.py`) has the same pieces with different rules:
- It stores whatever category the reply names.
- It tests reply lines before stripping them.
- It skips a header row by four keywords on unstripped text.
- It accepts only file names ending in ".csv" in lower case.
- It ends a batch at the first failure, leaving earlier results stored.

**How the model is built:**
- The chat-completion call is an oracle. Its outcome is a value:
  - `Reply.ModelReply`: the message content or the exception's text;
  - for the service class, `ClassificationService.GroqResult`: the pair
    `GroqService.ClassifyLicense` returns, or its error, constrained by
    `GroqService.MeetsContract`, which `GroqService.ClassificationOutcome`
    is proved to meet.
- A Python dict is `PyDict.Dict`: its keys in insertion order plus a map.
- The two stores are classes, each with one dictionary field that their
  methods reassign.
- Each loop is a method proved equal to a specification function. The
  lemmas prove what the source promises about that function.

**Two behaviours worth knowing:**
- A reply whose category line names a label outside the six (for example
  "Misc") is not a failure. The service searches the whole reply for one
  of the six names, falls back to "Development" when none occurs, and keeps
  the model's own explanation (`GroqService.OffListCategoryCoerced`,
  `GroqService.MiscReadAsDevelopment`).
- `ClassificationService.classify_license` lets the exception of the Groq
  call propagate. Only `classify_multiple` substitutes a fallback
  classification for a failed item, and it never stores that fallback.

## Model

| member | source | states |
|---|---|---|
| `GroqService.BuildClassificationPrompt` | app/services/groq_service.py:63-79 | the prompt names all six categories verbatim, names the license, shows both reply tags and asks for a 140-145 character explanation |
| `GroqService.FirstMentioned` | app/services/groq_service.py:103-106 | a category found by the substring search is one of those searched |
| `GroqService.FirstMentionedAt` | app/services/groq_service.py:103-106 | the first category in list order whose lower-cased name occurs in the lower-cased reply is the one chosen |
| `GroqService.FirstMentionedNone` | app/services/groq_service.py:103-106 | when no category occurs in the reply, the search finds nothing |
| `GroqService.FirstMentionedIsFirst` | app/services/groq_service.py:103-106 | a chosen category occurs in the reply and no earlier one does; nothing chosen means none occurs |
| `GroqService.FindMentioned` | app/services/groq_service.py:102-106 | the search loop returns the first category, in list order, found in the lower-cased reply, or nothing, exactly as `FirstMentioned` |
| `GroqService.CoerceCategory` | app/services/groq_service.py:102-109 | the final category is always one of the six, and a valid parsed category is kept unchanged |
| `GroqService.DefaultExplanation` | app/services/groq_service.py:111-112 | the default explanation is never empty |
| `GroqService.ParsedResponse` | app/services/groq_service.py:81-114 | `_parse_response` always returns one of the six categories and a non-empty explanation |
| `GroqService.ReadTaggedLines` | app/services/groq_service.py:91-100 | the loop reads each line stripped; the values come from the last "Category:" and "Explanation:" lines, or "" |
| `GroqService.ParseResponse` | app/services/groq_service.py:81-114 | the method returns exactly `ParsedResponse`: a valid category and a non-empty explanation |
| `GroqService.FormattedLinesTagged` | app/services/groq_service.py:94-100 | the two lines of a well-formed reply are read back as their category and explanation |
| `GroqService.FormattedReplyReadBack` | app/services/groq_service.py:75-77 | a reply in the format the prompt requests, with a valid category, parses to exactly that category and explanation |
| `GroqService.FormattedReplyClassified` | app/services/groq_service.py:45-50 | end to end, such a reply yields its category and its explanation truncated |
| `GroqService.OffListCategoryCoerced` | app/services/groq_service.py:102-109 | a well-formed reply with an off-list category and no mention of any of the six becomes "Development" with the model's explanation kept |
| `GroqService.NoCategoryMentioned` | app/config/config.py:17-24 | a text without the letters d, u, f, k mentions none of the six labels under ASCII lower-casing |
| `GroqService.LetterlessReplyCoerced` | app/services/groq_service.py:102-109 | an off-list category with a reply lacking the letters d, u, f and k mentions no label under ASCII lower-casing, so it is coerced to "Development" and keeps its explanation |
| `GroqService.MiscReadAsDevelopment` | app/services/groq_service.py:102-112 | "Category: Misc" / "Explanation: General tools" parses to ("Development", "General tools") |
| `GroqService.TruncateExplanation` | app/services/groq_service.py:116-131 | the result has at most 150 characters; a fitting input is unchanged; a longer one keeps its first 147 characters, ends in "...", and is exactly 150 long |
| `GroqService.TruncateIdempotent` | app/services/groq_service.py:128-129 | truncating twice is truncating once |
| `GroqService.TruncationAgrees` | app/models/types.py:5-9 | `truncate_logic` computes the same string as `_truncate_explanation` for every string |
| `GroqService.ClassificationOutcome` | app/services/groq_service.py:45-53 | it succeeds exactly when the call completes; a success has a valid category and an explanation of 1 to 150 characters; a failure is one error with the "Groq API error: " prefix |
| `GroqService.ClassifyLicense` | app/services/groq_service.py:12-53 | the method's result is `ClassificationOutcome` of the call's outcome |
| `Types.TruncateLogic` | app/models/types.py:5-9 | non-strings pass unchanged; a string of at most 150 characters is unchanged; a longer one becomes its first 147 characters plus "...", exactly 150 long |
| `Types.TruncateLogicIdempotent` | app/models/types.py:5-9 | applying the before-validator twice equals applying it once |
| `Types.CategoryLogic` | app/models/types.py:11-17 | it succeeds with the argument itself exactly when the argument is one of the six (exact, case-sensitive), else raises the fixed message |
| `Types.ValidateExplanation` | app/models/types.py:20 | a `TruncatedExplanation` never rejects a string: it returns the truncated string, at most 150 long; non-strings are rejected |
| `Schemas.NewLicenseClassification` | app/models/schemas.py:5-11 | construction succeeds exactly when the category is valid; the instance keeps the name and category, holds the truncated explanation and is well formed |
| `Schemas.NewUpdateLicenseRequest` | app/models/schemas.py:13-18 | the same two validators on the update body |
| `Schemas.RevalidationKeepsWellFormed` | app/models/schemas.py:5-11 | rebuilding a well-formed classification from its fields gives it back unchanged |
| `Reply.LastTagValueIsLastTagged` | app/services/groq_service.py:95-100 | the value read comes from the last line carrying the tag: a later line overrides an earlier one |
| `Reply.LastTagValueUntagged` | app/services/groq_service.py:91-100 | with no tagged line, the value stays "" |
| `Reply.TagsExclusive` | app/services/groq_service.py:97-100 | no line starts with both tags, so the `elif` never hides a tagged line |
| `Reply.FormattedReplySplit` | app/services/groq_service.py:94 | a well-formed reply splits on '\n' into exactly its two lines |
| `Text.Strip` | app/services/groq_service.py:96 | `str.strip()`: the result is no longer than the input and neither starts nor ends with whitespace |
| `Text.StripIsInfix` | app/services/groq_service.py:96 | the strip of a string is a slice of it with only whitespace outside the slice |
| `Text.StripEmptyIffBlank` | app/utils/csv_parser.py:31 | `s.strip()` is empty exactly when `s` is all whitespace, which is the blank-row test |
| `Text.StripIdempotent` | app/services/groq_service.py:96-100 | stripping an already stripped value changes nothing |
| `Text.SplitOn` | app/services/groq_service.py:94 | `split('\n')` always gives at least one piece, and no piece holds the separator |
| `Text.JoinSplit` | app/services/groq_service.py:94 | joining the pieces back with the separator gives the text again |
| `Text.SplitJoin` | app/services/groq_service.py:94 | splitting a join of separator-free pieces gives the pieces back |
| `Text.Lower` | app/services/groq_service.py:104 | `lower()` as modelled: same length, each upper-case ASCII letter becomes its own lower-case letter, every other character unchanged, so no upper-case ASCII letter is left |
| `Text.RemoveAll` | app/services/groq_service.py:98-100 | `replace(tag, "")` removes the tag's non-overlapping occurrences left to right, and never lengthens the line |
| `Text.RemoveAllAbsent` | app/services/groq_service.py:98 | `replace(tag, "")` changes nothing when the tag does not occur |
| `PyDict.Dict.Set` | app/services/classification_service.py:29 | `d[k] = v` maps k to v and leaves every other key alone; a new key goes last in the order, and an existing key keeps its place |
| `PyDict.Dict.Pop` | app/services/classification_service.py:113 | `d.pop(k)` removes exactly k and keeps the other keys, with their values, in order |
| `PyDict.Dict.Values` | app/services/classification_service.py:61 | `list(d.values())` lists one value per key, in key order |
| `PyDict.LenIsKeyCount` | app/services/classification_service.py:135 | `len(d)` is the number of keys listed in order |
| `CategoryCounts.TallySnoc` | app/services/classification_service.py:130-132 | reading one more category increments its count, starting from 0 |
| `CategoryCounts.TallyCount` | app/services/classification_service.py:129-132 | each category is counted as often as it occurs; a category that does not occur has no entry |
| `CategoryCounts.TallyKeys` | app/services/classification_service.py:129-132 | the counted categories are exactly those that occur |
| `CategoryCounts.TallyTotal` | app/services/classification_service.py:129-138 | the counts add up to the number of categories read |
| `CategoryCounts.CountCategories` | app/services/classification_service.py:129-132 | the counting loop computes `Tally` of the stored categories, in storage order |
| `CategoryCounts.StatisticsOf` | app/services/classification_service.py:115-138 | the total is the number of entries; the counts are valid, add up to the total, and each equals its category's occurrences; the names are the keys; an empty store gives 0, {} and [] |
| `ClassificationService.Classified` | app/services/classification_service.py:21-31 | it succeeds exactly when the Groq call succeeded; the classification carries the name and exactly the Groq pair, and is well formed; a Groq error propagates unchanged |
| `ClassificationService.Fallback` | app/services/classification_service.py:50-54 | the fallback carries the input name, category "Development" and the fixed error explanation, and is well formed |
| `ClassificationService.BatchItem` | app/services/classification_service.py:44-55 | item i carries input name i and is well formed: the Groq pair on success, the fallback on failure |
| `ClassificationService.BatchItems` | app/services/classification_service.py:43-57 | the result list has the input's length, and item i is `BatchItem` of input i |
| `ClassificationService.Store` | app/services/classification_service.py:29 | storing a success, or skipping a failure, keeps the store valid |
| `ClassificationService.StoreAll` | app/services/classification_service.py:44-55 | a batch of writes keeps the store valid |
| `ClassificationService.StoreAllUntouched` | app/services/classification_service.py:44-55 | a name no successful outcome carries keeps its stored value |
| `ClassificationService.StoreAllLastWins` | app/services/classification_service.py:44-55 | the last successful outcome for a name is what ends up stored |
| `ClassificationService.Outcomes` | app/services/classification_service.py:44-47 | outcome i is `Classified` of input i; every success is well formed |
| `ClassificationService.BatchUntouched` | app/services/classification_service.py:43-57 | a name that is absent from the batch, or whose items all failed, keeps its stored value, so fallbacks are never stored |
| `ClassificationService.BatchLastWins` | app/services/classification_service.py:43-57 | for duplicate names, the last successful item is stored |
| `ClassificationService.StatisticsCategoriesValid` | app/services/classification_service.py:129-132 | every category in the statistics is one of the six, because the store holds only validated classifications |
| `ClassificationService.UpdateRebuildSucceeds` | app/services/classification_service.py:88-92 | an update request that passed validation rebuilds into a classification with exactly its fields |
| `ClassificationService.ClassificationService.constructor` | app/services/classification_service.py:7-9 | the store starts empty |
| `ClassificationService.ClassificationService.ClassifyLicense` | app/services/classification_service.py:11-31 | returns `Classified`; on success the classification is stored under the name, and on failure nothing is stored |
| `ClassificationService.ClassificationService.ClassifyMultiple` | app/services/classification_service.py:33-57 | the results are `BatchItems`, of input length and order; the store is the old store with only the successes written, in order |
| `ClassificationService.ClassificationService.GetAllClassifications` | app/services/classification_service.py:59-61 | one well-formed value per stored name, in insertion order, each the value stored under that name |
| `ClassificationService.ClassificationService.GetClassification` | app/services/classification_service.py:63-65 | None exactly for an absent name; otherwise exactly the (well-formed) value stored under that name |
| `ClassificationService.ClassificationService.UpdateClassification` | app/services/classification_service.py:67-95 | an absent name gives KeyError and leaves the store unchanged; otherwise the revalidated classification replaces only that key, and a validation error changes nothing |
| `ClassificationService.ClassificationService.DeleteClassification` | app/services/classification_service.py:97-113 | an absent name gives KeyError; otherwise the stored value is returned and exactly that key is removed |
| `ClassificationService.ClassificationService.GetStatistics` | app/services/classification_service.py:115-138 | both the early return and the counting loop give `StatisticsOf` the store |
| `ClassificationService.ClassificationService.ClearAll` | app/services/classification_service.py:140-142 | the store is left empty |
| `CsvParser.CellName` | app/utils/csv_parser.py:31-41 | a row offers at most one name: its stripped first cell, non-empty |
| `CsvParser.KeptNamesSnoc` | app/utils/csv_parser.py:30-41 | each row adds its own contribution at the end, so row order is kept |
| `CsvParser.KeptNamesAfterFirst` | app/utils/csv_parser.py:30-41 | every non-blank row after row 0 is kept |
| `CsvParser.KeptNamesSkipOnlyFirst` | app/utils/csv_parser.py:28-37 | only row 0 can be skipped as a header, and only when it is non-blank and passes the header test; later header-like rows are kept |
| `CsvParser.NonBlankNamesShape` | app/utils/csv_parser.py:30-41 | at most one name per row, each non-empty and already stripped |
| `CsvParser.ParsedLicenses` | app/utils/csv_parser.py:43-46 | the error is raised exactly when no name is kept, so an empty list is never returned |
| `CsvParser.ParseLicenses` | app/utils/csv_parser.py:9-53 | the row loop with its `continue`s returns `ParsedLicenses` of the rows |
| `CsvParser.ParsedLicensesShape` | app/utils/csv_parser.py:30-46 | every returned name is non-empty and already stripped, with no more names than rows; which names they are is `KeptNamesSkipOnlyFirst` |
| `CsvParser.IsHeaderCell` | app/utils/csv_parser.py:28-36 | the header test: the first cell, lower-cased and stripped, contains one of the five keywords |
| `CsvParser.ValidateCsvFormat` | app/utils/csv_parser.py:56-66 | true exactly when the lower-cased name ends with ".csv" |
| `CsvParser.ValidateCsvFormatIgnoresCase` | app/utils/csv_parser.py:66 | a name is accepted exactly when its lower-cased form is |
| `Legacy.LegacyParseResponse` | old.py:69-78 | the loop reads unstripped lines; the last "Category:" and "Explanation:" lines win |
| `Legacy.LegacyTruncate` | old.py:80-82 | the inline truncation equals `_truncate_explanation`, so it is at most 150 long |
| `Legacy.LegacyClassify` | old.py:67-91 | it succeeds exactly when the call completes; a success carries the name and an explanation of at most 150 characters; a failure is one "Error classifying license: " error |
| `Legacy.LegacyClassifyLicense` | old.py:31-91 | the method's result is `LegacyClassify` of the call's outcome |
| `Legacy.LegacyReadsAnyPlainCategory` | old.py:74-88 | any plain category in a well-formed reply is returned unvalidated |
| `Legacy.LegacyAgreesOnFormattedReplies` | old.py:70-78 | on well-formed replies with a valid category, both versions read the same pair |
| `Legacy.LegacyKeepsOffListCategory` | old.py:84-88 | "Misc" is returned as is by the old version, while the current one gives "Development" |
| `Legacy.IndentedLineReadOnlyNow` | old.py:74-78 | an indented tagged line is ignored by the old version and read by the current one |
| `Legacy.LegacyAcceptsFilename` | old.py:101 | the old check: the file name, case as given, ends with ".csv" |
| `Legacy.LegacyFilenameAcceptedNow` | old.py:101-102 | every name the old check accepts, the current check accepts |
| `Legacy.UpperCaseExtensionAcceptedOnlyNow` | old.py:101-102 | "DATA.CSV" is rejected by the old check and accepted by the current one |
| `Legacy.IsLegacyHeaderCell` | old.py:115 | the old header test: the first cell, lower-cased but not stripped, contains one of four keywords |
| `Legacy.LegacyExtractNames` | old.py:110-117 | the old row loop keeps `KeptNames` under the old header test |
| `Legacy.TitleHeaderKeptByLegacy` | old.py:115 | a row 0 marked only by "title" is a license for the old version and a header for the current one; all other rows are treated alike |
| `Legacy.LegacyOutcomes` | old.py:124-125 | outcome i is `LegacyClassify` of name i |
| `Legacy.FirstFailure` | old.py:123-128 | every outcome before the returned index succeeded, and the one at it failed |
| `Legacy.StoreEachLastWins` | old.py:124-128 | after storing in turn, each name holds its last classification |
| `Legacy.StoreEachUntouched` | old.py:124-128 | names not written keep their stored value |
| `Legacy.BatchRun` | old.py:123-130 | the batch succeeds exactly when every item succeeded, returning all classifications in order; otherwise it returns the error of the first failed item |
| `Legacy.BatchRunKeepsEarlierItems` | old.py:123-133 | after an abort, every item before the first failure is stored, and the last one for each name wins |
| `Legacy.BatchRunSkipsLaterItems` | old.py:123-133 | a name that only items at or after the first failure carry is not written |
| `Legacy.BatchRunStoresAll` | old.py:123-130 | a successful batch has stored every classification it returns |
| `Legacy.LegacyBatch` | old.py:94-133 | a bad file name or no names stores nothing; a success returns one classification per name in order; any failed call makes the batch fail |
| `Legacy.LegacyUpdateAgrees` | old.py:172-183 | the old handwritten checks accept the same updates as the current validators, and store the same classification |
| `Legacy.LegacyApp.constructor` | old.py:19 | `classifications_db` starts empty |
| `Legacy.LegacyApp.ClassifyLicenses` | old.py:94-133 | the result and the new store are `LegacyBatch` of the old store and the inputs |
| `Legacy.LegacyApp.ClassifyAndStore` | old.py:122-130 | the batch loop stores as it goes and returns `BatchRun` of the outcomes |
| `Legacy.LegacyApp.GetResults` | old.py:136-148 | an empty store gives the "no classifications" reply; otherwise the stored value of each name, in insertion order |
| `Legacy.LegacyApp.GetResultByName` | old.py:151-160 | an unknown name gives "not found"; otherwise exactly the value stored under that name |
| `Legacy.LegacyApp.UpdateLicense` | old.py:163-192 | an unknown name is rejected first, then an invalid category; otherwise only that entry is replaced, with the explanation truncated |
| `Legacy.LegacyApp.DeleteResult` | old.py:195-205 | an unknown name is rejected; otherwise exactly that key is removed, and its value is returned with the message |
| `Legacy.LegacyApp.GetStatistics` | old.py:226-244 | an empty store gives the message; otherwise the same statistics as the current service |

## Left out

- The chat-completion call itself (network I/O, model, temperature, token limit, system prompt) is not modelled. Its outcome is an input: `Reply.ModelReply`, or `ClassificationService.GroqResult` for the service class.
- The `print` logging in `classify_multiple` is not modelled.
- FastAPI routing, HTTP status codes and `HTTPException` plumbing (app/api/routes.py, app/main.py, the decorators in old.py) are not modelled, nor is `async`. In old.py, the "no licenses" 400 and per-item errors are raised inside the `try` and re-wrapped as "Error processing file: …" 500s. The model reports them as `NoLicensesFound` and `ClassificationFailed`, without the re-wrap.
- UTF-8 decoding and `csv.reader` are not modelled. Both parsers take already-split rows, so the decoding and `csv.Error` branches of `parse_licenses` are absent.
- Settings loading is not modelled. Only `VALID_CATEGORIES` and `MAX_EXPLANATION_LENGTH` are used.
- The `root` endpoint of old.py and `StatsResponse` / `ErrorResponse` carry no logic and are not modelled.
- Text.Lower: models `str.lower()` on ASCII letters only. Python also maps some non-ASCII characters to ASCII letters (U+212A KELVIN SIGN becomes 'k'), so `NoCategoryMentioned` and `LetterlessReplyCoerced` hold under ASCII lower-casing, not under full Unicode case mapping.
- Pydantic is modelled as the two field validators plus the constructor. Type coercion of non-string inputs is not modelled: only a string or another value reaches a validator.
- `Legacy.LegacyApp.ClassifyLicenses`: requires one reply per extracted name. The source makes exactly one call per name, and a run that aborts simply leaves later replies unused.
- The old version's store holds plain dicts, not validated models. `Legacy.DbValid` asks only that each value be stored under its own name.
