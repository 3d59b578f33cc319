# Word count analyzer — a Dafny model of its counting core

The word count analyzer is a single React component, `WordCount`
(`src/components/WordCount.tsx`). It counts how often each word occurs in
pasted text or in uploaded `.docx` files, keeps one result per source, and
exports all results as a new document. This project models the component's
logic in Dafny and proves what it guarantees:

- **Tokenizer** (`tokenize.dfy`). `text.split(/\s+/)` is modelled exactly,
  including the empty pieces that leading or trailing whitespace produces.
  Then come the letter filter (`/\p{L}/u`), the normalization of a word (NFC,
  then `en-US` lower case) and the `w:t` run join of the extractor.
- **Aggregator** (`word_counts.dfy`). `countWords` folds words into a
  `Record<string, number>`. Every key contains a letter, so JavaScript
  enumerates the record's keys in insertion order. The record is therefore an
  association list in enumeration order. `Tally` is the left fold that defines
  it. The `CountWords` method runs the same fold the way a JavaScript engine
  stores an object: a key order plus a key-to-count map. It is proved equal to
  `Tally`. Keys, counts, order and total are proved against independent
  definitions: `Distinct`, `Occurrences` and `FirstIndex`.
- **Analysis** (`analysis.dfy`). `extractTextFromDocx` works on an abstract
  archive, and the analysis of one file and of a batch of files follows
  `Promise.all`: all-or-nothing, in upload order.
- **Export** (`export.dfy`). The paragraph texts and file name of the
  document `downloadResults` produces.
- **Session** (`session.dfy`). The component's state (`files`, `results`,
  `textInput`, `activeTab`) as a class whose methods are the event handlers.
  Every stored result is kept consistent: unique keys, positive counts, and a
  total equal to their sum.

The Unicode services the component borrows from the host are the `\s` and
`\p{L}` classes, `normalize("NFC")` and `toLocaleLowerCase("en-US")`. They are
fields of a `Tables` value that every operation takes as a parameter. They
stay uninterpreted, so every property holds whatever tables the host ships.

Two behaviours of the code are worth stating because a reader might expect
otherwise. `handleFileChange` *replaces* the stored results with those of the
new batch (an empty selection therefore clears them); it does not append.
Exporting an empty result list is not rejected: `downloadResults` has no such
check, and the model exports a document with no sections.

## Model

| member | source | states |
|---|---|---|
| `Unicode.HasLetter` | src/components/WordCount.tsx:78 | `/\p{L}/u.test(word)`: holds exactly when some character of the fragment is a letter; `Tokenize.WithLetters` keeps exactly the fragments for which it holds |
| `Unicode.NormalizeWord` | src/components/WordCount.tsx:87-91 | `normalizeWord`: the `en-US` lower case of the NFC form; `WordCounts.CountWordsSpec` proves every key is this form of a retained word and every count counts the words with this form |
| `Tokenize.Split` | src/components/WordCount.tsx:76-77 | splitting on `\s+` gives at least one piece, and no piece contains whitespace |
| `Tokenize.SplitSpaceFree` | src/components/WordCount.tsx:76-78 | a whitespace-free text is one piece, itself, and is a word exactly when it holds a letter |
| `Tokenize.SplitAtRun` | src/components/WordCount.tsx:77 | a whitespace-free chunk followed by a whitespace run is cut exactly at the run, and the run with any whitespace continuing it is dropped |
| `Tokenize.WordsSkipSpace` | src/components/WordCount.tsx:76-78 | leading whitespace changes no word: it only adds an empty first piece, which the letter filter drops |
| `Tokenize.WordsAcrossGap` | src/components/WordCount.tsx:76-78 | a non-empty whitespace gap between two texts neither joins nor cuts words: the words of the whole are the words of the first text followed by those of the second |
| `Tokenize.SplitKeepsNonSpace` | src/components/WordCount.tsx:77 | the pieces, concatenated, are exactly the non-whitespace characters of the text, in order: splitting loses nothing else |
| `Tokenize.WithLetters` | src/components/WordCount.tsx:78 | the filter keeps only letter-bearing fragments of the input, and keeps every one of them |
| `Tokenize.WithLettersSnoc` | src/components/WordCount.tsx:78 | a fragment without a letter adds nothing to the words; one with a letter adds itself at the end |
| `Tokenize.Words` | src/components/WordCount.tsx:76-78 | every word holds a letter, contains no whitespace and is non-empty, and there are no more words than fragments |
| `Tokenize.Tokens` | src/components/WordCount.tsx:76-81 | one key per word, in text order, each the normalized form of its word |
| `Tokenize.WordsEmptyIff` | src/components/WordCount.tsx:76-78 | a text has no words exactly when none of its fragments holds a letter |
| `Tokenize.NoLetterNoWords` | src/components/WordCount.tsx:76-78 | a text with no letter character (digits, punctuation, whitespace) has no words |
| `Tokenize.EmptyTextNoWords` | src/components/WordCount.tsx:76-78 | the empty text splits into one empty fragment and has no words |
| `Tokenize.Join` | src/components/WordCount.tsx:69-71 | the joined text starts with the first run; `Tokenize.JoinSnoc` states how each further run is added |
| `Tokenize.JoinSnoc` | src/components/WordCount.tsx:69-71 | joining one more run appends the separator and that run to the joined text |
| `Tokenize.WordsOfJoin` | src/components/WordCount.tsx:69-78 | when a space is whitespace, the words of the space-joined runs are the words of each run, in run order |
| `Tokenize.SplitJoin` | src/components/WordCount.tsx:69-77 | joining non-empty, whitespace-free runs with one space and splitting the result gives the runs back |
| `WordCounts.Lookup` | src/components/WordCount.tsx:82 | the read of `acc[w]` defaulting to 0, on the ordinary record: a word that is not a key reads as 0 |
| `WordCounts.LookupAt` | src/components/WordCount.tsx:82 | in a record with unique keys, looking up a key gives exactly the count stored with it |
| `WordCounts.TotalWords` | src/components/WordCount.tsx:96-98 | `getTotalWords`: the sum is at least every single count, and at least the number of keys when every count is positive; `WordCounts.BumpTotal` and `WordCounts.TallyTotal` prove it equals the number of words folded |
| `WordCounts.Bump` | src/components/WordCount.tsx:82 | one increment of `acc[w]` (starting from 0 when absent) keeps every count positive |
| `WordCounts.BumpKeys` | src/components/WordCount.tsx:82 | the update keeps the key order and appends `w` only when it is new |
| `WordCounts.BumpLookup` | src/components/WordCount.tsx:82 | the update adds one to the count of `w` and changes no other count |
| `WordCounts.BumpTotal` | src/components/WordCount.tsx:82 | the update raises the sum of the counts by exactly one |
| `WordCounts.Tally` | src/components/WordCount.tsx:80-84 | every count of the folded record is at least 1 |
| `WordCounts.DistinctSpec` | src/components/WordCount.tsx:106 | the first-occurrence enumeration has no duplicates, holds exactly the words that occur, and orders them by first occurrence |
| `WordCounts.TallySpec` | src/components/WordCount.tsx:80-84 | the keys are the distinct words, each once, in first-occurrence order; each count is the number of occurrences (at least 1); looking up a word gives its occurrences; the counts sum to the number of words |
| `WordCounts.TallyTotal` | src/components/WordCount.tsx:96-98 | the sum of the counts of the folded record equals the number of words folded |
| `WordCounts.TallyExample` | src/components/WordCount.tsx:80-84 | `b a b c` gives `b: 2`, `a: 1`, `c: 1`, in that order |
| `WordCounts.EntriesIncrement` | src/components/WordCount.tsx:82 | incrementing a present key of the engine's record keeps its order duplicate-free and matching the map, and is the `Bump` of its entry list |
| `WordCounts.EntriesInsert` | src/components/WordCount.tsx:82 | inserting an absent key with count 1 into the engine's record keeps it well formed and is the `Bump` of its entry list |
| `WordCounts.TallySnoc` | src/components/WordCount.tsx:80-84 | folding one more word is one more update of the record |
| `WordCounts.CountWords` | src/components/WordCount.tsx:75-85 | the loop over the words, updating an insertion order and a map, returns the record of the left fold `Tally` of the normalized words |
| `WordCounts.CountWordsSpec` | src/components/WordCount.tsx:75-91 | every key is the normalized form of some retained word, keys are unique and in first-occurrence order, each count is the number of words normalizing to its key, and the total is the number of retained words |
| `WordCounts.NoWordsEmptyRecord` | src/components/WordCount.tsx:75-84 | a text without letter-bearing fragments yields the empty record and total 0 |
| `WordCounts.BumpAsWritten` | src/components/WordCount.tsx:82 | the update as the engine runs it: for `__proto__` the record is unchanged, otherwise it gains at most one entry, and a record without a `__proto__` key never gains one |
| `WordCounts.TallyAsWritten` | src/components/WordCount.tsx:80-84 | the fold as the engine runs it: never more entries than words, and never a `__proto__` key |
| `WordCounts.TotalAsWritten` | src/components/WordCount.tsx:96-98 | `getTotalWords` as the engine runs it: the total is a number exactly when every stored value is a number |
| `WordCounts.BumpAsWrittenAgrees` | src/components/WordCount.tsx:82 | for every word other than `__proto__` and `constructor`, the update as the engine runs it is `Bump` |
| `WordCounts.TotalAsWrittenOfNumbers` | src/components/WordCount.tsx:96-98 | the `sum + count` reduction over a record of numbers is the number that is their sum |
| `WordCounts.TallyAsWrittenAgrees` | src/components/WordCount.tsx:80-84 | when no word is `__proto__` or `constructor`, the record as the engine builds it is `Tally` and its total is the number of words |
| `WordCounts.ProtoWordLost` | src/components/WordCount.tsx:82 | as written, the word list `["__proto__"]` leaves the record empty with total 0, although `Tally` counts the word once |
| `WordCounts.ConstructorNotCounted` | src/components/WordCount.tsx:82 | as written, the word list `["constructor"]` stores a string, not 1, under `constructor`, and the total is a string, although `Tally` counts the word once |
| `WordCounts.NoEmptyKey` | src/components/WordCount.tsx:87-91 | if normalization never empties a letter-bearing word, no key is the empty string |
| `Analysis.ExtractText` | src/components/WordCount.tsx:55-73 | an unreadable file, non-archive bytes, a missing `word/document.xml` and an unreadable main part are errors, each with its own error, and only these; otherwise the text is the NFC form of the `w:t` texts joined by single spaces |
| `Analysis.Analyze` | src/components/WordCount.tsx:28-29 | a result carries the given name, is consistent (total = sum of counts, unique keys, counts at least 1), lists the distinct normalized words in first-occurrence order with their occurrence counts, and totals the letter-bearing words |
| `Analysis.AnalyzeFile` | src/components/WordCount.tsx:26-30 | a file's analysis fails exactly when its extraction does, with the same error, and otherwise is the analysis of the extracted text under the file's name |
| `Analysis.AnalyzeBatch` | src/components/WordCount.tsx:25-31 | a successful batch holds exactly as many results as there were files |
| `Analysis.BatchAllOrNothing` | src/components/WordCount.tsx:25-31 | a batch succeeds exactly when every file does, and then holds each file's result at that file's position |
| `Analysis.BatchFirstError` | src/components/WordCount.tsx:25-31 | a failing batch fails with the error of a failing file before which every file succeeds |
| `Analysis.BatchResults` | src/components/WordCount.tsx:25-33 | a successful batch has one consistent result per file, named after that file, in upload order |
| `Analysis.MissingPartFailsBatch` | src/components/WordCount.tsx:60-63 | one file without `word/document.xml` makes the whole batch fail |
| `Export.NatToString` | src/components/WordCount.tsx:105-107 | a count is rendered as decimal digits with no leading zero that denote the count |
| `Export.EntryLine` | src/components/WordCount.tsx:107 | `${word}: ${count}`: the line is the word, then `: `, then decimal digits that denote the count |
| `Export.EntryLines` | src/components/WordCount.tsx:106-108 | one `word: count` paragraph per entry, in stored order |
| `Export.Section` | src/components/WordCount.tsx:103-109 | a section is `File: <name>`, then `Total Words: <n>`, then one line per entry in stored order |
| `Export.Sections` | src/components/WordCount.tsx:102-110 | one section per result, in result order |
| `Export.DownloadResults` | src/components/WordCount.tsx:100-116 | the export is named `Word_Count_Results.docx` and holds exactly the sections of the results, in order |
| `Export.ExportAppend` | src/components/WordCount.tsx:102-110 | appending a result appends exactly its section to the export |
| `Export.ExportExample` | src/components/WordCount.tsx:101-110 | a result "Input Text" with `hello: 1`, `world: 1` exports the paragraphs `File: Input Text`, `Total Words: 2`, `hello: 1`, `world: 1` |
| `Session.WordCount.constructor` | src/components/WordCount.tsx:15-18 | the session starts with no files, no results, empty text and the text tab |
| `Session.WordCount.HandleTextChange` | src/components/WordCount.tsx:36-38 | the text input becomes the typed value; nothing else changes |
| `Session.WordCount.HandleAnalyzeText` | src/components/WordCount.tsx:40-46 | exactly one result, the analysis of the text input named "Input Text", is appended; earlier results and the other fields are unchanged; results stay consistent |
| `Session.WordCount.HandleTabChange` | src/components/WordCount.tsx:48-53 | whatever the prior state, text, files and results are empty and the tab is the chosen one |
| `Session.WordCount.HandleFileChange` | src/components/WordCount.tsx:20-34 | the picked files are stored and the text cleared; a successful batch replaces the results with one per file in upload order, a failing one leaves them unchanged and reports the error |

## Findings

| source | as written | input that shows it | evidently intended | confidence | as-written member | corrected member |
|---|---|---|---|---|---|---|
| src/components/WordCount.tsx:82 | `acc[w] = (acc[w] \|\| 0) + 1` on a plain object: for `w == "__proto__"` the read yields the inherited prototype and the assignment of the resulting string to `__proto__` is ignored | the text `__proto__` (or `__PROTO__`), whose word list is `["__proto__"]`: one letter-bearing word, empty record, total 0 | every letter-bearing word is counted under its normalized key, and the total equals the number of such words | high; not executed | `WordCounts.ProtoWordLost` (over `WordCounts.TallyAsWritten`) | `WordCounts.TallySpec` (over `WordCounts.Tally`, which the rest of the model uses) |
| src/components/WordCount.tsx:82 | the same update: for `w == "constructor"` the first read yields the inherited `Object` function, so the stored value is the string `function Object() { [native code] }1`, and `getTotalWords` (lines 96-98) then concatenates strings | the text `constructor` (or `Constructor`), whose word list is `["constructor"]`: the count and the total are strings, not 1 | the same: count 1 and total 1 | high; not executed | `WordCounts.ConstructorNotCounted` (over `WordCounts.TallyAsWritten` and `WordCounts.TotalAsWritten`) | `WordCounts.TallySpec` (over `WordCounts.Tally`, which the rest of the model uses) |

## Left out

- WordCounts.Bump: models the record as if every key were an own data property. In JavaScript the keys `__proto__` and `constructor`, the only all-lower-case names a plain object inherits, behave differently; `WordCounts.BumpAsWritten` models that, and the rest of the model counts them like any other word.
- Unicode: the `\s` and `\p{L}` classes, NFC and the `en-US` lower-case mapping are uninterpreted fields of `Tables`. So the model does not show that "Café", "café" and "CAFÉ" share a key; it shows only that words with equal normalized forms share one.
- Archive and XML handling: JSZip's parsing, the UTF-8 decoding of the part and `DOMParser` are replaced by the abstract `Archive` (each part given by its `w:t` texts, or as unreadable). An XML part that does not parse yields `DOMParser`'s error document; the model takes whatever `w:t` texts result as the part's runs. A `null` `textContent` cannot occur for elements and is not modelled.
- Document output: the `docx` `Document`/`Packer` serialization, the `Heading1` style, the paragraph spacing and `saveAs` are not modelled. Only the paragraph texts and the file name are.
- Concurrency: the asynchronous extraction and `Promise.all` interleaving are modelled as a sequential map over the files. `Analysis.AnalyzeBatch` reports the first failing file in upload order, whereas `Promise.all` rejects with the first rejection in time. A second handler call while a batch is pending is not modelled.
- Numbers: counts and totals are JavaScript doubles; the model uses unbounded naturals, which agree below 2^53.
- Determinism: re-running the pipeline on the same text gives the same record because every operation is a function; no separate lemma states it.
- Rendering: the JSX markup, CSS classes and table display, and the page files `src/pages/_document.tsx`, `src/pages/index.tsx`, `src/components/Header.tsx` and `src/components/Footer.tsx` (whose year comes from the clock) are not part of this model.
