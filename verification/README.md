# ConcordanceChallenge in Dafny

This project models the pure core of ConcordanceChallenge, a C++ program
that builds a word concordance: an alphabetical list of the words of a text
document, where each word has the sentence numbers it occurs in. The model
covers these parts:

- **Segmenter** (`segmenter.dfy`, from `src/TextDocumentTraveller.cpp`).
  - It reads a document as whitespace-free chunks and splits each chunk into
    words and single-character symbols.
  - A one-character lookahead keeps abbreviations such as "i.e." whole.
  - The buffered traveller (`hasNext`/`getNext`) is modelled over the same
    chunking.
- **Sanitizer** (`sanitizer.dfy`, from `src/WordSanitizer.cpp`).
  - It lowercases a word and filters it under one of two symbol-handling
    policies.
  - The dot-keeping policy also cuts trailing dot runs down to one dot.
  - `Sanitizer.RemoveUndesiredSymbols` keeps the source's shortcut of
    rebuilding the word only when some character is undesired;
    `Sanitizer.RemoveUndesiredIsFilter` shows the shortcut changes nothing.
- **Validator** (`validator.dfy`, from `src/WordValidator.cpp`). It is the
  three-clause validity test on a word.
- **Concordance** (`concordance.dfy`, with `lexorder.dfy`, from
  `src/Concordance.cpp`).
  - The `std::map` from word to occurrence list is a strictly ascending
    association list.
  - Its meaning is the Dafny `map` that `ToMap` gives.
  - `LexOrder.Less` is `std::string`'s ordering.
- **Output formatting** (`formatting.dfy`, from `src/OutputFormattings.cpp`).
  It covers the three `makePrintable` overloads:
  - the 20-wide word column;
  - the 8-wide index label;
  - the `{n:s1,...}` occurrence list.
- **Command line** (`cli.dfy`, from `exec/main.cpp`). It covers the pure
  parts:
  - grouping argv into (key, values) records;
  - the choice between the help and generation executors;
  - the file-path decision of the generator;
  - `main` itself, as `Cli.Run`: parse, pick the executor, execute.

`chars.dfy` holds the ASCII classification the C++ code gets from `<cctype>`.
`wrappers.dfy` holds `Option`.

The streams, singletons and in-place mutation of the C++ code become values:
- A file stream is the document text plus the position of the next unread
  character.
- A sanitizer holds a `Policy` enum instead of a pointer to a strategy
  singleton.
- Every mutating operation returns the new value.

The sanitizer's unit tests disagree with its code.
- `tests/WordSanitizerTest.cpp:16-18` and `:26-27` expect a default sanitizer
  to keep dots ("B.2.B." gives "b.2.b.").
- The default strategy at `src/WordSanitizer.cpp:112-116` and `:162-165`
  removes every non-alphanumeric character.
- The model follows the code: `Sanitizer.DefaultDropsDotsExample` proves that
  "B.2.B." becomes "b2b".
- `Sanitizer.AbbreviationKeepsDotsExample` proves that the tests'
  expectation holds only after `setAbbreviationSanitization`.

## Model

| member | source | states |
|---|---|---|
| Chars.ToLower | src/WordSanitizer.cpp:68-75 | the result is never a capital; a capital maps to its lower-case letter and every other character is kept |
| Segmenter.ReadChunkSpec | src/TextDocumentTraveller.cpp:94-102 | a chunk in progress is extended by the rest of the current non-whitespace run and the loop stops after the next whitespace; an empty chunk first skips leading whitespace |
| Segmenter.GetNextChunk | src/TextDocumentTraveller.cpp:88-105 | the chunk is the maximal whitespace-free run after the skipped ' ', '\n', '\t'; one following whitespace character is consumed; the chunk is empty exactly when only whitespace is left, and a non-empty chunk always advances the position |
| Segmenter.ChunksLossless | src/TextDocumentTraveller.cpp:88-105 | concatenating the successive chunks gives the text with every whitespace character removed and nothing else lost |
| Segmenter.CarriageReturnStaysInChunk | src/TextDocumentTraveller.cpp:47-50 | '\r' is not whitespace: it stays inside the chunk |
| Segmenter.FindTerminator | src/TextDocumentTraveller.cpp:69-86 | the scan stops at the first of the 15 word-terminating characters, or at the chunk end |
| Segmenter.FindEndOfAbbreviation | src/TextDocumentTraveller.cpp:118-126 | the scan passes over dots and stops at the first non-dot terminator, or at the chunk end |
| Segmenter.FindEndOfElement | src/TextDocumentTraveller.cpp:107-143 | it always advances; a symbol is one character; a word ends at its first terminator unless that is a dot followed by a lower-case letter, in which case it extends past that dot to the first non-dot terminator |
| Segmenter.Evaluate | src/TextDocumentTraveller.cpp:145-153 | the element's text is the scanned range, and it is a symbol exactly when the range is one non-alphanumeric character |
| Segmenter.Split | src/TextDocumentTraveller.cpp:155-173 | the split of a chunk suffix is empty only when the suffix is empty |
| Segmenter.SplitChunkIntoDocumentElements | src/TextDocumentTraveller.cpp:155-173 | the loop computes the recursive split; concatenating the elements' text reproduces the chunk; every element is well formed |
| Segmenter.SplitLossless | src/TextDocumentTraveller.cpp:155-173 | concatenating the elements' text reproduces the chunk suffix exactly |
| Segmenter.SplitWellFormed | src/TextDocumentTraveller.cpp:128-153 | every symbol is one non-alphanumeric character; every word is non-empty and starts with an alphanumeric character |
| Segmenter.WordThenTerminator | src/TextDocumentTraveller.cpp:128-143 | outside abbreviation mode, a word up to its terminator is followed by that terminator as a symbol |
| Segmenter.AbbreviationWord | src/TextDocumentTraveller.cpp:107-126 | a dot followed by a lower-case letter puts the whole dotted run into one word |
| Segmenter.EnglishCommaExample | tests/TextDocumentTravellerTest.cpp:70-76 | "English," splits into the word "English" and the symbol ',' |
| Segmenter.SentenceDotExample | tests/TextDocumentTravellerTest.cpp:257-263 | "sentence." splits into the word "sentence" and the symbol '.' |
| Segmenter.AbbreviationExample | tests/TextDocumentTravellerTest.cpp:114-116 | "i.e." is one word |
| Segmenter.SentenceEndersTerminateWords | src/TextDocumentTraveller.cpp:274-280 | the characters that change the sentence are exactly '.', '!', '?' and ';', and each of them ends a word and is a symbol |
| Segmenter.Open | src/TextDocumentTraveller.cpp:186-189 | a freshly opened traveller will hand out every element of the document, in order |
| Segmenter.FillFrom | src/TextDocumentTraveller.cpp:216-231 | refilling loses or adds no element; the buffer only grows; it is left empty only when the document is exhausted |
| Segmenter.FillBuffer | src/TextDocumentTraveller.cpp:216-231 | refilling keeps the remaining elements, and an empty buffer afterwards means nothing is left |
| Segmenter.HasNext | src/TextDocumentTraveller.cpp:191-198 | the answer is true exactly when an element remains; the remaining elements are unchanged |
| Segmenter.GetNext | src/TextDocumentTraveller.cpp:200-214 | it hands out the first remaining element and removes it; an exhausted traveller gives nothing and stays exhausted |
| Segmenter.DocumentLossless | src/TextDocumentTraveller.cpp:155-173 | the elements of the whole document, concatenated, are the document without its whitespace |
| Sanitizer.NewWordSanitizer | src/WordSanitizer.cpp:162-165 | a new sanitizer removes every non-alphanumeric character |
| Sanitizer.SetAbbreviationSanitization | src/WordSanitizer.cpp:167-170 | afterwards the policy keeps dots, whatever it was before |
| Sanitizer.ToLowercase | src/WordSanitizer.cpp:68-75 | same length, no capital left, each character lowered in place |
| Sanitizer.KeepDesired | src/WordSanitizer.cpp:138-153 | keeps exactly the characters the policy allows; the result is never longer and is unchanged when nothing is undesired |
| Sanitizer.RemoveUndesiredIsFilter | src/WordSanitizer.cpp:138-153 | rebuilding the word only when some character is undesired gives the same result as always filtering, under both policies |
| Sanitizer.KeepDesiredAppend | src/WordSanitizer.cpp:138-153 | filtering preserves order: it distributes over concatenation |
| Sanitizer.CountTrailingDots | src/WordSanitizer.cpp:87-98 | the count is the length of the maximal run of dots that ends the word |
| Sanitizer.RemoveExcessiveDots | src/WordSanitizer.cpp:100-107 | a trailing run of two or more dots is cut to exactly one; a word with at most one trailing dot is unchanged |
| Sanitizer.Sanitize | src/WordSanitizer.cpp:172-178 | never longer; no capital; only characters the policy allows; under the default policy, the lowercased word with every non-alphanumeric removed; under the abbreviation policy, at most one trailing dot |
| Sanitizer.SanitizeAbbreviation | src/WordSanitizer.cpp:118-129 | under the abbreviation policy, the lowercased word keeps alphanumerics and dots, and its trailing dots are cut to one |
| Sanitizer.SanitizeIdempotent | src/WordSanitizer.cpp:68-153 | sanitizing a sanitized word changes nothing, under either policy |
| Sanitizer.CapitalizationExample | tests/WordSanitizerTest.cpp:24 | "C4I" becomes "c4i" |
| Sanitizer.RandomCapitalsExample | tests/WordSanitizerTest.cpp:10 | "UppercaseRandoM" becomes "uppercaserandom" |
| Sanitizer.DefaultDropsDotsExample | src/WordSanitizer.cpp:112-116 | a default sanitizer turns "B.2.B." into "b2b" |
| Sanitizer.AbbreviationKeepsDotsExample | src/WordSanitizer.cpp:118-123 | with abbreviation handling, "B.2.B." becomes "b.2.b." |
| Sanitizer.TrailingDotsExample | src/WordSanitizer.cpp:100-107 | with abbreviation handling, "a.g.." becomes "a.g." |
| Validator.ContainsIllegalSymbols | src/WordValidator.cpp:6-18 | true exactly when some character is neither alphanumeric nor a dot |
| Validator.AreAlphabeticalCharactersMissing | src/WordValidator.cpp:20-23 | true exactly when no character is a letter |
| Validator.IsValid | src/WordValidator.cpp:29-44 | valid exactly when non-empty, every character is alphanumeric or a dot, and some character is a letter |
| Validator.PlainWordExample | tests/WordValidatorTest.cpp:8 | "hello" is valid |
| Validator.ValidWordExamples | tests/WordValidatorTest.cpp:11-12 | "a.k.a" and "B2B" are valid |
| Validator.EmptyWordExample | tests/WordValidatorTest.cpp:7 | the empty word is invalid |
| Validator.IllegalSymbolExamples | tests/WordValidatorTest.cpp:9-10 | a word holding a space and one holding '@' are invalid |
| Validator.NumberExample | tests/WordValidatorTest.cpp:13 | a plain number is invalid |
| Validator.DottedNumberExample | tests/WordValidatorTest.cpp:14 | a dotted number is invalid |
| Validator.SanitizedWordValidity | src/WordValidator.cpp:29-44 | a sanitized word is valid exactly when it still holds a letter |
| LexOrder.Irreflexive | src/Concordance.cpp:47-56 | no string sorts before itself |
| LexOrder.Asymmetric | src/Concordance.cpp:47-56 | two strings never sort before each other |
| LexOrder.Transitive | src/Concordance.cpp:47-56 | the key order is transitive |
| LexOrder.Total | src/Concordance.cpp:47-56 | any two different strings are ordered one way or the other |
| Concordances.AppendOccurrence | src/Concordance.cpp:65-69 | the sentence is appended at the end; the earlier entries are kept |
| Concordances.Size | src/Concordance.cpp:31-34 | the size is the number of distinct words |
| Concordances.DistinctWordCount | src/Concordance.cpp:31-34 | the keys are distinct, so the entry count is the word count |
| Concordances.MakeEmpty | src/Concordance.cpp:144-147 | an empty concordance of size 0 |
| Concordances.MakeFromFile | src/Concordance.cpp:165-171 | the stub returns an empty concordance of size 0 for any path |
| Concordances.Add | src/Concordance.cpp:65-69 | the word's list gets the sentence appended, or becomes that one sentence if the word is new; every other word is untouched; the size grows by one exactly when the word was absent |
| Concordances.AppendAt | src/Concordance.cpp:65-69 | for a word already present, its list gets the sentence appended and no other word changes |
| Concordances.InsertAt | src/Concordance.cpp:65-69 | for an absent word, the map gains the word with the one-sentence list and no other word changes |
| Concordances.ToMapEquals | src/Concordance.cpp:36-39 | a map with exactly the entries' words as keys and their lists as values is the concordance's map |
| Concordances.Canonical | src/Concordance.cpp:36-39 | two concordances with the same word-to-list map are the same value, since the keys are kept sorted |
| Concordances.Equals | src/Concordance.cpp:84-87 | the entry-by-entry comparison in key order holds exactly when the two word-to-list maps are equal |
| Concordances.NotEquals | src/Concordance.cpp:89-92 | the negation of equality |
| Concordances.CopyIsIndependent | src/Concordance.cpp:103-121 | a copy equals its source, and adding to the copy leaves the source unequal to it |
| Concordances.ForEachWord | src/Concordance.cpp:47-56 | each word is visited once, with its list, in ascending key order, with indices 1 to size |
| Concordances.AllWords | src/Concordance.cpp:149-164 | a word is in the set exactly when some sentence holds it |
| Concordances.MapAddSentenceOccurrences | src/Concordance.cpp:155-158 | adding one sentence appends its number to a word's list as many times as the word occurs in it |
| Concordances.MapAddSentencesOccurrences | src/Concordance.cpp:149-164 | the word lists after the outer loop are the earlier lists followed by the reference numbering |
| Concordances.NumbersMeaning | src/Concordance.cpp:149-164 | the reference numbering holds only numbers of sentences containing the word; it is ascending; sentence k occurs exactly as often as the word does in it |
| Concordances.MakeFromSentences | src/Concordance.cpp:149-164 | the words are exactly those of the sentences, and each word's list is the reference numbering from 1 |
| Concordances.MakeFromSentencesNumbering | src/Concordance.cpp:149-164 | each word's list is ascending; it names only sentences that hold the word, numbered from 1, with one entry per occurrence, and an empty sentence still uses up its number |
| Concordances.DuplicatesAndEmptySentenceExample | src/Concordance.cpp:149-164 | a word twice in sentence 1 and once in sentence 3, with sentence 2 empty, gets the list 1, 1, 3 |
| Concordances.TwoSentencesExample | src/Concordance.cpp:47-56 | two sentences give four words visited in ascending order (capitals first) with their sentence lists |
| Formatting.NatToString | src/OutputFormattings.cpp:84-102 | a non-empty run of decimal digits with no leading zero |
| Formatting.DecimalRoundTrip | src/OutputFormattings.cpp:84-102 | reading the digits back gives the number |
| Formatting.Truncate | src/OutputFormattings.cpp:14-20 | same length; the last three characters become "..." and the rest is kept |
| Formatting.FillWithTrailingWhitespace | src/OutputFormattings.cpp:22-31 | the word followed by exactly the requested number of spaces |
| Formatting.WordColumn | src/OutputFormattings.cpp:69-82 | always 20 wide; a word that fits is kept and padded with spaces; a longer word keeps its first 17 characters and ends in "..." |
| Formatting.WordColumnRoundTrip | src/OutputFormattings.cpp:69-82 | removing the padding from the column of a fitting word gives the word back |
| Formatting.WordColumnInjective | src/OutputFormattings.cpp:69-82 | different fitting words give different columns |
| Formatting.ShortWordExample | tests/OutputFormattingsTest.cpp:20 | "all" is padded to 20 |
| Formatting.FullWidthWordExample | tests/OutputFormattingsTest.cpp:21 | a 20-character word is unchanged |
| Formatting.LongWordExample | tests/OutputFormattingsTest.cpp:22 | a long word keeps 17 characters and ends in "..." |
| Formatting.ConvertWordIndexToEnglishLetters | src/OutputFormattings.cpp:38-48 | a letter from 'a' to 'z' and a repeat count of at least 1, which together encode the index |
| Formatting.ConvertInjective | src/OutputFormattings.cpp:38-48 | different indices give different letter and count pairs |
| Formatting.JoinLettersOfConvertedIndex | src/OutputFormattings.cpp:50-62 | the letter repeated exactly the given number of times |
| Formatting.IndexLabel | src/OutputFormattings.cpp:104-124 | always 8 wide |
| Formatting.IndexLabelRoundTrip | src/OutputFormattings.cpp:104-124 | up to index 182 the label is the letter run and a dot, which decodes back to the index, followed by spaces only; from 183 on it is "#######." |
| Formatting.IndexLabelInjective | src/OutputFormattings.cpp:104-124 | different indices up to 182 give different labels |
| Formatting.FirstCycleExamples | tests/OutputFormattingsTest.cpp:7-8 | 1 and 2 give "a." and "b.", padded |
| Formatting.FirstCycleEndExample | tests/OutputFormattingsTest.cpp:9 | 26 gives "z.", padded |
| Formatting.SecondCycleExamples | tests/OutputFormattingsTest.cpp:10-11 | 27 and 28 give "aa." and "bb.", padded |
| Formatting.SecondCycleEndExamples | tests/OutputFormattingsTest.cpp:12-13 | 29 and 52 give "cc." and "zz.", padded |
| Formatting.ThirdCycleExample | tests/OutputFormattingsTest.cpp:14 | 53 gives "aaa.", padded |
| Formatting.SentinelExample | tests/OutputFormattingsTest.cpp:15 | a huge index gives "#######." |
| Formatting.CommaTerminatedIsJoin | src/OutputFormattings.cpp:95-97 | the comma-terminated numbers of the loop are the comma-joined list followed by one comma |
| Formatting.OccurrencesColumn | src/OutputFormattings.cpp:84-102 | "{0}" for no occurrences (the brace overwrites the colon); otherwise "{", the count, ":", the numbers in stored order joined by commas, "}" |
| Formatting.JoinRoundTrip | src/OutputFormattings.cpp:84-102 | the comma-joined numbers parse back to the same list |
| Formatting.SingleOccurrenceExample | tests/OutputFormattingsTest.cpp:27-29 | one occurrence in sentence 1 prints as "{1:1}" |
| Formatting.ThreeOccurrencesExample | tests/OutputFormattingsTest.cpp:30-31 | occurrences 1, 3, 4 print as "{3:1,3,4}" |
| Formatting.NoOccurrencesExample | src/OutputFormattings.cpp:86-100 | no occurrences print as "{0}" |
| Cli.PushFilledBuffer | exec/main.cpp:91-107 | the buffer is emitted only when it has a key or values, and is then reset |
| Cli.ParseCommandLineArguments | exec/main.cpp:109-130 | every record is well formed (a key or values, key-like strings only as keys, only the first record without a key), and reading the records back gives argv without argv[0] and without empty strings |
| Cli.ParseLossless | exec/main.cpp:109-130 | the grouping loop keeps every non-empty string, in order |
| Cli.ParseWellFormed | exec/main.cpp:101-127 | the grouping loop only emits well-formed records |
| Cli.ParseIgnoresEmpty | exec/main.cpp:122 | empty strings have no effect on the grouping |
| Cli.ParseCharacterization | exec/main.cpp:109-130 | the grouping is the one and only well-formed record list whose strings are argv's non-empty strings after argv[0] |
| Cli.ParseRoundTrip | exec/main.cpp:109-130 | spelling out well-formed records after a program name and grouping them gives the records back |
| Cli.JoinValuesAppend | exec/main.cpp:151-160 | the joined values of two record lists are the joined values of each, in order |
| Cli.JoinValuesAreNonKeys | exec/main.cpp:151-160 | the joined values of well-formed records are their non-key strings, in order |
| Cli.ExistHelpFlag | exec/main.cpp:162-169 | true exactly when some record's key is "-h" or "--help" |
| Cli.CreateExecutor | exec/main.cpp:232-241 | help is chosen exactly when there are no records or a help key exists; otherwise generation; the records are passed on |
| Cli.RemoveNonFileArgs | exec/main.cpp:207-213 | every kept record has no key or a file key, and every such record of the input is kept |
| Cli.RemoveNonFileArgsAppend | exec/main.cpp:207-213 | the filter is stable: it works record by record and keeps the order and repeats |
| Cli.RemoveNonFileArgsSingle | exec/main.cpp:207-213 | a single record is dropped exactly when it has a non-empty key that is not "-f" or "--file" |
| Cli.FilePathsAppend | exec/main.cpp:211-216 | the paths of two record lists are the paths of each, in order |
| Cli.FilePathsSingle | exec/main.cpp:207-216 | one record contributes all its values as paths unless it has a non-empty key other than "-f" and "--file" |
| Cli.Execute | exec/main.cpp:195-228 | help exits with 0 and opens nothing; generation exits with 0 and builds the concordance of the one remaining path exactly when one path remains, and otherwise exits with -1 |
| Cli.RunDecision | exec/main.cpp:247-253 | the program succeeds exactly when help is chosen or exactly one path remains, and it builds a concordance from a path only in the second case |
| Cli.NoArgumentsExample | exec/main.cpp:232-241 | no arguments give no records and the help outcome |
| Cli.GroupingExample | exec/main.cpp:109-130 | leading values go to a keyless record, values attach to the preceding key, empty strings vanish, and a bare key is kept |
| Cli.OneFileExample | exec/main.cpp:205-228 | "-f text.txt" builds the concordance of text.txt and exits with 0 |
| Cli.TwoFilesExample | exec/main.cpp:205-228 | two paths exit with -1 |
| Cli.HelpWinsExample | exec/main.cpp:232-241 | a help key wins over a file key |
| Cli.BarePathExample | exec/main.cpp:205-228 | a path with no key is taken as the file |
| Cli.UnknownKeyExample | exec/main.cpp:205-228 | a path behind an unknown key is dropped, so generation fails with -1 |

## Left out

- File I/O: `openFile`, the destructor and the `std::ifstream` are replaced by the document text. A file that cannot be opened is modelled as an empty document, because that is how the C++ stream behaves.
- The 20-chunk refill batch (`BufferedChunksSize`) is modelled in `Segmenter.FillFrom`, but nothing outside the traveller can observe it. The contracts state only that the element sequence is preserved.
- `Segmenter.GetNext` returns `None` when the document is exhausted. The C++ code returns a default-constructed element there, and callers are expected to ask `hasNext` first.
- `Segmenter.SplitChunkIntoDocumentElements` requires a non-empty chunk. The C++ code reads the first character of the chunk before testing for the end, and every chunk it is given is non-empty.
- All console output: `printWordOfConcordance`, `printConcordance`, `printApplicationHelp` and the help text. These only write to `std::cout`.
- `printConcordance` in `exec/main.cpp` calls `joinConcordanceLine`, which is not defined anywhere, so generation is modelled only up to its outcome: the exit code and the path it hands to `makeFromFile`.
- The `Singleton` template is replaced by the `Policy` enum. Its only observable effect is which strategy is in use.
- Move construction and move assignment of `Concordance`. A moved-from object holds a null implementation, which has no counterpart among immutable values.
- No sentence-counting pipeline joins the traveller, the sanitizer and the concordance, because the C++ code has none: `makeFromFile` is a stub that returns an empty concordance.
- Declarations in the headers that do not match the `.cpp` files, such as `getNext` returning an optional and `putBack`. The model follows the definitions.
- Characters are ASCII, and `<cctype>` is read in the "C" locale. Locale-dependent and signed-`char` behaviour is not modelled.
- `size_t`, `WordIndex` and `Sentence` are unbounded naturals. No realistic concordance reaches their 64-bit limits.
- Formatting.ConvertWordIndexToEnglishLetters requires an index of at least 1. Index 0 makes the C++ code wrap around below zero, and `forEachWord` numbers from 1.
- Formatting.IndexLabel: its own contract states only the width. The letter run, the dot, the space padding and the sentinel are stated by `Formatting.IndexLabelRoundTrip`.
- Formatting.Truncate requires a word of at least three characters. It is only called on words longer than the 20-character column.
- Cli.ParseCommandLineArguments requires argv to hold at least the program name. The source starts reading at `begin() + 1`, which is undefined for an empty argv.
- `boot.py` is a build script.
