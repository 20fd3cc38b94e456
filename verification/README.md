# Bible export helpers, modelled in Dafny

This project models the two pieces of real logic in the repository's utility
scripts.

- **`toSentenceCase(text)`** (`src/utils/toSentenceCase.js`). It runs a global
  replace with `/([^.!?]+[.!?]*)/g`. Each match is trimmed. An empty match is
  dropped. Otherwise the first character is upper-cased, the rest are
  lower-cased, and one space is appended. The whole result is then trimmed.
  - `ReplaceAll` is a hand-written scanner that plays the regular-expression
    engine.
  - `Segments`, `Sentences` and `JoinSpaced` give an independent description
    of the output, and `ToSentenceCaseBySegments` proves the two agree.
- **The three-level export fold.** It builds book key → chapter number →
  verse number → text.
  - `fetchBible` (`src/utils/fetch-bible.js`) keys books by
    `commonName || name` and stores `verse.text || ""`.
  - `fetchTranslationData` (`src/utils/fetch-all-bibles.js`) keys books by
    `name` and stores `verse.text` unchanged, so `null` stays `null`.
  - Both run the same loops. `Export.ExportTranslation` models them statement
    by statement, with the key and text policies as parameters.
    `FetchBible` and `FetchAllBibles` instantiate it.
  - A JavaScript object is an association list in insertion order
    (`OrderedMap`). Assigning to an existing property keeps its position;
    assigning to a new one appends it.
  - The SQL queries are functions from their parameters to row sequences
    (`BibleSource.Source`).

Modules, one per file: `Chars`, `Strings`, `SentenceCase`, `Optional`,
`OrderedMap`, `BibleSource`, `Export`, `FetchBible`, `FetchAllBibles`.

## Model

| member | source | states |
|---|---|---|
| `Chars.ToUpper` | src/utils/toSentenceCase.js:13 | ASCII upper-casing: the result is never a lower-case letter; a lower-case letter becomes the upper-case letter at the same place in the alphabet; every other character is unchanged |
| `Chars.ToLower` | src/utils/toSentenceCase.js:13 | ASCII lower-casing, the mirror image of `ToUpper`: an upper-case letter becomes the lower-case letter at the same place in the alphabet |
| `Chars.CaseKeepsClass` | src/utils/toSentenceCase.js:13 | changing case never creates or removes whitespace or a terminator, and both mappings agree once folded to lower case |
| `Strings.TrimIsInfix` | src/utils/toSentenceCase.js:10 | `trim` returns an infix of its input; everything cut off before and after it is whitespace |
| `Strings.SkeletonTrim` | src/utils/toSentenceCase.js:16 | `trim` removes whitespace only: the non-whitespace characters, in order, are kept |
| `SentenceCase.MatchLength` | src/utils/toSentenceCase.js:9 | the greedy match at a non-terminator is non-empty; it ends at the end of the text, or right after a terminator with a non-terminator next |
| `SentenceCase.MatchIsSegment` | src/utils/toSentenceCase.js:9 | the match has the shape `[^.!?]+[.!?]*` |
| `SentenceCase.MatchLengthUnique` | src/utils/toSentenceCase.js:9 | any prefix of that shape which cannot be extended is exactly the match the engine takes |
| `SentenceCase.SegmentationUnique` | src/utils/toSentenceCase.js:9 | a text has exactly one cut into successive whole matches, and `Segments` is it |
| `SentenceCase.CapitalizeFacts` | src/utils/toSentenceCase.js:13 | the capitalised string is in sentence case, and position by position it has the same letters up to case, the same whitespace and the same terminators |
| `SentenceCase.SentenceOfSegment` | src/utils/toSentenceCase.js:10-13 | a trimmed, capitalised match is a non-empty trimmed sentence, and a final terminator survives |
| `SentenceCase.SkeletonRewrite` | src/utils/toSentenceCase.js:10-14 | the callback changes nothing but case and whitespace |
| `SentenceCase.SkeletonReplaceAll` | src/utils/toSentenceCase.js:9-15 | the global replace changes nothing but case and whitespace |
| `SentenceCase.ToSentenceCase` | src/utils/toSentenceCase.js:7-17 | the output has no leading or trailing whitespace; it equals the input once whitespace is deleted and letters lower-cased; it is empty exactly when the input is empty or all whitespace |
| `SentenceCase.ReplaceAllLeadingStops` | src/utils/toSentenceCase.js:9 | the engine copies a leading run of terminators it cannot match, and continues after it |
| `SentenceCase.ToSentenceCaseBySegments` | src/utils/toSentenceCase.js:8-16 | the output is the leading terminator run, then the non-empty trimmed and capitalised segments joined by exactly one space |
| `SentenceCase.SentencesOfOutput` | src/utils/toSentenceCase.js:9-16 | every sentence of the output is non-empty, trimmed and in sentence case; every one but the last ends in a terminator |
| `SentenceCase.JoinSpacedTrimmed` | src/utils/toSentenceCase.js:13-16 | sentences joined by single spaces form a trimmed text that starts with the first sentence |
| `SentenceCase.TrimAfterStops` | src/utils/toSentenceCase.js:16 | the final `trim` removes only the space appended after the last sentence |
| `SentenceCase.LeadingStopsKept` | src/utils/toSentenceCase.js:9-16 | leading terminators are kept verbatim, with no space between them and the converted rest |
| `SentenceCase.NoStopsIsOneSentence` | src/utils/toSentenceCase.js:9-13 | text without `.`, `!` or `?` that is not all whitespace becomes one capitalised, trimmed sentence |
| `SentenceCase.SentenceKeepsInside` | src/utils/toSentenceCase.js:10-13 | a sentence is its segment minus surrounding whitespace; position by position it keeps the whitespace and the letters up to case, so inner whitespace is preserved |
| `SentenceCase.AllStopsFixed` | src/utils/toSentenceCase.js:9-16 | text made only of terminators is returned unchanged |
| `SentenceCase.FixpointResumesCleanly` | src/utils/toSentenceCase.js:16 | a text the function leaves unchanged never has whitespace right after its leading terminators |
| `SentenceCase.ToSentenceCaseIdempotent` | src/utils/toSentenceCase.js:8-16 | applying the function to its own output changes nothing exactly when that output has no whitespace right after its leading terminators |
| `SentenceCase.PaddedStopsNotIdempotent` | src/utils/toSentenceCase.js:9-16 | whitespace, then terminators, then text without terminators becomes terminators, one space, and the capitalised text; a second application changes it again |
| `SentenceCase.IdempotenceCounterexample` | src/utils/toSentenceCase.js:9-16 | `"  ...x"` gives `"... X"`, which is not a fixed point |
| `SentenceCase.StopsThenWords` | src/utils/toSentenceCase.js:9-16 | terminators directly followed by text without terminators keep their place, with no space inserted |
| `SentenceCase.HelloWorldExample` | src/utils/toSentenceCase.js:9-13 | `"hELLO wORLD"` becomes `"Hello world"` |
| `SentenceCase.LeadingStopsExample` | src/utils/toSentenceCase.js:9-16 | `"...hi"` becomes `"...Hi"` |
| `OrderedMap.PutKeys` | src/utils/fetch-bible.js:26 | a property assignment keeps the key's place when it exists and appends it otherwise |
| `OrderedMap.GetPutSame` | src/utils/fetch-bible.js:50-51 | an assigned property reads back the assigned value |
| `OrderedMap.GetPutOther` | src/utils/fetch-bible.js:50-51 | assigning one property leaves every other property's value alone |
| `OrderedMap.PutPut` | src/utils/fetch-bible.js:26 | a second assignment to the same key replaces the first |
| `OrderedMap.AssignAllKeys` | src/utils/fetch-bible.js:24-26 | a run of assignments leaves the keys in order of first assignment, each once |
| `OrderedMap.AssignAllLastWins` | src/utils/fetch-bible.js:49-51 | a key holds the value of its last assignment |
| `OrderedMap.AssignAllAbsent` | src/utils/fetch-bible.js:24-26 | a key that is never assigned is absent |
| `OrderedMap.DedupSorted` | src/utils/fetch-bible.js:41-45 | keys that arrive in ascending order come out strictly ascending, the last one included |
| `Export.ExportTranslation` | src/utils/fetch-bible.js:24-54 | the three nested loops, with every read of `doc[key]` and `doc[key][number]` finding an object, build exactly the reference document `ExportDocument` |
| `Export.VerseStep` | src/utils/fetch-bible.js:49-51 | one verse assignment through the two enclosing objects adds one assignment to that chapter and keeps every enclosing object in place |
| `Export.ExportKeys` | src/utils/fetch-bible.js:17-26 | the top-level keys are the keys of the book rows in row order, each once |
| `Export.ExportNoBooks` | src/utils/fetch-bible.js:14-20 | with no book rows the result is `{}` |
| `Export.ExportBook` | src/utils/fetch-bible.js:26-37 | the last book row with a key determines that key's value alone: an earlier book with the same key is discarded by the later `= {}` |
| `Export.ExportAbsent` | src/utils/fetch-bible.js:24-26 | a key no book row produces is absent |
| `Export.ExportEmptyBook` | src/utils/fetch-bible.js:26 | a book without chapter rows appears, mapped to `{}` |
| `Export.BookKeysAreChapters` | src/utils/fetch-bible.js:29-37 | a book's keys are its chapter numbers, each once, in row order; strictly ascending under `ORDER BY number` |
| `Export.ChapterKeysDistinct` | src/utils/fetch-bible.js:29-37 | distinct chapter numbers are exactly the book's keys |
| `Export.BookChapter` | src/utils/fetch-bible.js:36-37 | the last chapter row with a number maps to that chapter's verses |
| `Export.BookEmptyChapter` | src/utils/fetch-bible.js:37 | a chapter without verse rows appears, mapped to `{}` |
| `Export.ChapterKeysAreVerses` | src/utils/fetch-bible.js:40-51 | a chapter's keys are its verse numbers, each once, in row order; strictly ascending under `ORDER BY number` |
| `Export.ChapterVerse` | src/utils/fetch-bible.js:49-51 | a duplicate verse number keeps the last row's value |
| `Export.ExportVerse` | src/utils/fetch-bible.js:24-52 | following a book, chapter and verse row, each the last of its key, reaches the value made from that verse's text |
| `Export.ExportOnlyReads` | src/utils/fetch-bible.js:14-20 | the result depends only on the rows the queries return for that one translation |
| `Export.ExportMapValues` | src/utils/fetch-bible.js:50-51 | exporting with a text policy `f ∘ g` equals exporting with `g` and mapping every stored value by `f`, when the two key policies agree on the book rows |
| `FetchBible.DisplayKey` | src/utils/fetch-bible.js:25-26 | the book key: either the name or the common name, and empty only when the name is empty |
| `FetchBible.DisplayKeyPolicy` | src/utils/fetch-bible.js:26 | a `null` or `""` common name falls back to the name; a non-empty common name is used |
| `FetchBible.NormalizedText` | src/utils/fetch-bible.js:50-51 | the stored verse value: empty exactly when the text is `null` or empty, and otherwise is the text |
| `FetchBible.FetchBibleData` | src/utils/fetch-bible.js:13-55 | `fetchBible` builds the reference document for `eng_kjv`, with one key per distinct display key in book-row order |
| `FetchBible.FetchBibleVerse` | src/utils/fetch-bible.js:49-51 | a stored verse value is its text when non-empty, otherwise `""`; never `null` |
| `FetchBible.SharedKeyKeepsLater` | src/utils/fetch-bible.js:26-37 | two books with the same display key, the later one last with that key, leave only the later book's chapters |
| `FetchBible.GenesisExample` | src/utils/fetch-bible.js:24-52 | Genesis with verse 1 "In the beginning" and verse 2 `NULL` gives `{"Genesis": {1: {1: "In the beginning", 2: ""}}}` |
| `FetchAllBibles.FetchTranslationData` | src/utils/fetch-all-bibles.js:21-52 | `fetchTranslationData` builds the reference document keyed by `book.name`, one key per distinct name, in book-row order |
| `FetchAllBibles.TranslationVerse` | src/utils/fetch-all-bibles.js:45-46 | a stored verse value is the `text` column exactly, so `NULL` stays `null` |
| `FetchAllBibles.VerbatimExample` | src/utils/fetch-all-bibles.js:35-49 | the Genesis source gives `{"Genesis": {1: {1: "In the beginning", 2: null}}}` |
| `FetchAllBibles.TranslationsIndependent` | src/utils/fetch-all-bibles.js:32-33 | each call starts from `{}` and reads only its translation's rows, so one translation's result cannot depend on another's |
| `FetchAllBibles.AgreesWithFetchBible` | src/utils/fetch-all-bibles.js:35-46 | when no book has a non-empty common name, `fetchBible`'s document is this one with `null` and empty texts replaced by `""` |
| `FetchAllBibles.KeyPoliciesDiffer` | src/utils/fetch-all-bibles.js:37 | a book whose non-empty common name differs from its name is filed under different keys by the two scripts |

## Left out

- SQLite access through better-sqlite3 (`prepare`, `all`, `close`). Each query is a function from its parameters to the rows it returns. The `ORDER BY` clauses appear only as the ascending-order premise of the key-ordering lemmas.
- Filesystem work (`existsSync`, `mkdirSync`, `writeFileSync`), output paths, and `JSON.stringify`. These are I/O and library serialisation.
- JavaScript's numeric ordering of integer-like property keys. This is engine behaviour, not code logic. Every level keeps insertion order. Under ascending input the keys come out strictly ascending (`BookKeysAreChapters`, `ChapterKeysAreVerses`), so for non-negative numbers both orders agree.
- Console logging throughout.
- The `try`/`catch`/`finally` driver at src/utils/fetch-bible.js:62-68. A database error is an I/O failure outside this model.
- The translations array and export loop at src/utils/fetch-all-bibles.js:12-17 and 55-64. This is driver code. Line 14 also lacks a comma after `"KJV+Apocrypha"`, so the file does not parse as written. Independence across translations is stated by `TranslationsIndependent`.
- src/utils/inspect-db.js and src/utils/fetch-translations.js. They are query-and-print scripts with no logic of their own.
- Full Unicode `toUpperCase` / `toLowerCase`. Case mapping is ASCII only, so there are no multi-character expansions and no surrogate pairs under `charAt(0)`. The whitespace set is the one `String.prototype.trim` uses.
- A `NULL` book `name` is not modelled; `name` is always a string.
- A book key equal to `"__proto__"`. In JavaScript, `bibleData[key] = {}` with that key calls the prototype setter and creates no own property, so `JSON.stringify` omits it. `Put` stores it like any other key.
- SentenceCase.ToSentenceCaseIdempotent: states idempotence only for outputs with no whitespace right after their leading terminators. Idempotence does not hold in general, and there is an exact characterisation:
  - whitespace in front of a terminator run (`"  ...x"`) produces `"... X"`;
  - a second application turns that into `"...X"`;
  - `PaddedStopsNotIdempotent` and `IdempotenceCounterexample` prove this.
