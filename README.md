# Translation scripts: a verified model

This project models the core of a set of Python scripts. The scripts take the user-visible strings out of a React site's pages, store them in a JSON record set, and fill in the English, French and Chinese (or Arabic) versions with a translation service. They then write the result back out as a `translations.jsx` module. The model covers four parts:

- **Extractor** (`extract_texts.py`), module `Extract`:
  - cleans and filters candidate strings;
  - derives a collision-free translation key for each kept text;
  - assigns each text to one of eleven categories;
  - builds the initial record set;
  - counts it for the statistics.
- **Translator** (`translate_texts.py`), module `Translate`:
  - the Qur'anic-verse heuristic;
  - the per-record translation step;
  - the batch walk over the record set, with its per-run cap.
- **Generator** (`translate_texts.py`), module `Jsx`: serialises the record set as JavaScript, with escaping and sorted output.
- **Progress checker** (`check_progress.py`), module `Progress`: the counting loop and the remaining-runs estimate.

Two shared modules underlie them:

- `Text` holds the parts of Python's `str` the scripts rely on:
  - `split()`/`join` and `strip`;
  - `in` for substrings;
  - ASCII `lower()`;
  - decimal rendering of counters.
- `Records` holds the record set. It is an insertion-ordered mapping (a sequence of key/value pairs with distinct keys), with `get`, assignment and counting.

The JSON record set is a value of type `RecordSet`. Each record carries its four language fields, its source file and an optional `needs_translation` flag. `None` means the field is absent, which reads as true.

Imperative code is written as methods with loops and is proved against specification functions:

- `GenerateKey` is the collision loop.
- `CollectTexts`, `ExtractAll` and their helpers are the extraction loops.
- `TranslateRecord`, `TranslateCategory` and `TranslateBatch` are the translation loops.
- `GenerateJsx` and its helpers build the output by appending.
- `CheckProgress` is the counter loop.

Expression-level code (`is_arabic`, `clean_text`, `categorize_text`, `is_quranic_verse`) is written as functions with lemmas.

The translation service is an oracle parameter `tr: (text, source, target) -> string`. `""` stands for a failed call, which is how `translate_text` reports errors. Python's set iteration order, which decides the order in which one file's texts receive keys, is modelled as an arbitrary choice (`:|`). Every property is proved for every such order.

The remaining-runs estimate is `remaining // 50 + 1` (check_progress.py:51). This is not the ceiling of `remaining / 50`: it is one more whenever 50 divides the count, so 50 pending records give 2 runs. `Progress.RemainingRunsBounds` proves exactly this relation. The estimate also assumes 50 records per run, while the translator's entry point runs with a cap of 200 (translate_texts.py:230).

## Model

| member | source | states |
|---|---|---|
| Text.Words | extract_texts.py:75 | `split()` yields only non-empty words containing no whitespace |
| Text.WordsSplit | extract_texts.py:75 | a whitespace character splits: the words of `a + c + b`, with `c` whitespace, are the words of `a` followed by the words of `b` |
| Text.WordsSingle | extract_texts.py:75 | a non-empty string without whitespace is exactly one word; with `WordsSplit` and the empty string having no words, this fixes `split()` on every input |
| Text.WordsKeepEveryOtherChar | extract_texts.py:75 | concatenating the words of `split()` gives the input with every whitespace character removed, so no other character is lost or added |
| Text.StripShape | extract_texts.py:77 | `strip(chars)` returns the piece of its input that starts at offset k, the length of the stripped prefix. Every character before the piece and every character after it is a stripped character. The piece's first and last characters are not |
| Text.ContainsIff | extract_texts.py:130 | Python's `p in s` holds exactly when `p` occurs at some position of `s` |
| Text.DecimalRoundTrip | extract_texts.py:120 | the decimal rendering of a counter reads back as the same number |
| Text.NatToStringInjective | extract_texts.py:120 | distinct counters render as distinct strings |
| Records.GetSpec | extract_texts.py:199-201 | dictionary lookup returns the default for an absent key and the stored value otherwise |
| Records.SetSpec | extract_texts.py:203 | dictionary assignment appends a new key at the end and replaces the value of an existing key in place |
| Records.InsertFresh | extract_texts.py:199-210 | filing a record under a fresh key keeps category names and keys unique (keys across the whole set), adds exactly that key, grows the size by one, and adds exactly that record to exactly that category |
| Records.InsertEntries | extract_texts.py:199-210 | after filing a record under a fresh key, every (key, record) pair of the set is the new pair or one that was there before |
| Records.CountPartition | extract_texts.py:223-233 | counting two disjoint, jointly exhaustive record predicates adds up to the total size |
| Extract.CleanTextShape | extract_texts.py:72-78 | a cleaned text has no edge punctuation at either end and no whitespace other than plain blanks |
| Extract.ShortTextsIgnored | extract_texts.py:57-63 | any text shorter than three characters is ignored |
| Extract.AdmittedIsLongEnough | extract_texts.py:57-70 | a text that passes the ignore filter and the keep rule has at least three characters |
| Extract.AdmittedEnglishIsProse | extract_texts.py:31-41 | a kept non-Arabic text is longer than five characters, starts with a capital, and holds a character outside `[a-zA-Z0-9_\-\.\/]`, so a single capitalised word such as "Welcome" is never kept |
| Extract.ConsiderMatch | extract_texts.py:95-103 | one candidate adds its cleaned form to the set exactly when it is not ignored and is Arabic or a capitalised text longer than five characters |
| Extract.CollectMatches | extract_texts.py:94-103 | the matches of one pattern add the union of what each match contributes |
| Extract.CollectTexts | extract_texts.py:89-105 | the file's text set is what the candidates of all patterns, in order, contribute |
| Extract.TextsOfMember | extract_texts.py:89-105 | a text is in the file's set exactly when some candidate cleans to it and it is admitted |
| Extract.TextsOfAdmitted | extract_texts.py:95-103 | every kept text is admitted, has at least three characters, and is the cleaned form of one of the candidates |
| Extract.BaseKeyShape | extract_texts.py:109-114 | the key before collision handling is at most 50 characters long and made of word characters only, so it holds no whitespace and no punctuation |
| Extract.CandidateInjective | extract_texts.py:119-121 | the keys `base`, `base_1`, `base_2`, … tried by the collision loop are pairwise distinct |
| Extract.CandidateTaken | extract_texts.py:119-121 | each turn of the collision loop has found one more distinct taken key, so the loop runs at most as many times as there are existing keys |
| Extract.GenerateKey | extract_texts.py:107-123 | the key returned is not already taken; it is the base key when that is free; otherwise it is `base_n` with every earlier candidate taken, so it is the first free one |
| Extract.CategorizeByRules | extract_texts.py:125-156 | against the two keyword tables, in order: the first matching file-name rule decides; only when none matches is the text consulted; `common` is the default |
| Extract.FileNameDecides | extract_texts.py:128-145 | once the file name matches a page keyword, the category does not depend on the text |
| Extract.ExtractAll | extract_texts.py:162-212 | every kept text of every file has its record, under that text's category, and every record comes from a kept text of some file. The number of records is the number of kept texts summed over the files. Every record's key is one of the candidates `base`, `base_1`, … of its own text. Category names and keys are unique across the whole set. Every record is fresh: only the source-language field is filled, and the record is flagged |
| Extract.ExtractFile | extract_texts.py:177-210 | one file (skipped when it yields no texts) extends the extraction of the files before it to include it, and the key set stays the set of keys in use |
| Extract.AddFileTexts | extract_texts.py:191-210 | the text loop of one file adds a record for each of its texts, keeping keys unique |
| Extract.AddOneText | extract_texts.py:191-210 | one text gets a fresh key and its record is filed under its category; one fewer text remains |
| Extract.KeyedInsert | extract_texts.py:196-210 | filing a record under a fresh candidate key of its own text keeps every key of the set derived from its record's text |
| Extract.AddText | extract_texts.py:196-210 | filing one more text keeps the partial extraction's invariants and adds exactly its key to the key set |
| Extract.ProducedFresh | extract_texts.py:203-210 | a record built from a kept text puts the text in `ar` if it is Arabic and in `en` otherwise, leaves `fr` and `zh` empty and sets the flag |
| Extract.Statistics | extract_texts.py:221-233 | the Arabic and the English counts never exceed the total |
| Extract.StatisticsOfExtraction | extract_texts.py:223-233 | on a freshly extracted set, Arabic plus English equals the total, which is the number of kept texts |
| Translate.DiacriticCount | translate_texts.py:43 | the count of diacritics never exceeds the text's length |
| Translate.HasIndicatorIff | translate_texts.py:51-53 | the indicator loop returns true exactly when some indicator occurs in the text |
| Translate.QuranicIff | translate_texts.py:33-55 | a text counts as a verse exactly when more than 30% of its characters are diacritics or it contains one of the eleven indicators |
| Translate.EmptyIsNotQuranic | translate_texts.py:47-53 | the empty text is not a verse |
| Translate.TranslateRecord | translate_texts.py:110-160 | the record loop's body, field by field, computes the specification step `Process` |
| Translate.ProcessCounts | translate_texts.py:112-160 | a record counts toward the cap exactly when it still needs translation, has a source text, and is not an Arabic verse |
| Translate.ProcessOnlyFillsEmpty | translate_texts.py:131-157 | a filled field is never overwritten; an empty field changes only to the oracle's translation of the source text into that language; the source file never changes |
| Translate.ProcessFlag | translate_texts.py:112-160 | a record that is done, or has no source text, is left exactly as it is. Any other record ends the step done, even when every call failed. A record that still needs translation afterwards is unchanged |
| Translate.QuranicBypass | translate_texts.py:123-126 | an Arabic verse is marked done with no text changed and is not counted; an English source is never bypassed |
| Translate.VisitRecord | translate_texts.py:159-166 | one turn of the record loop: the step, then the count and the cap check when the record counted |
| Translate.TranslateCategory | translate_texts.py:110-166 | the record loop of one category computes the walk `RunItems`, stopping on the spot when the cap is reached |
| Translate.TranslateBatch | translate_texts.py:97-171 | the batch computes the walk `RunCats` over the categories in order, returning early when the cap is reached; the count is the number of records translated |
| Translate.RunItemsStopped | translate_texts.py:163-166 | once the cap has been reached, nothing more is touched |
| Translate.RunCatsAppend | translate_texts.py:107-166 | walking two parts of the record set one after the other is walking the whole |
| Translate.RunCatsEvolve | translate_texts.py:107-166 | the batch keeps categories and keys in order, and each record is either untouched or processed by the step |
| Translate.BatchNeverOverwrites | translate_texts.py:112-160 | over the whole batch: keys keep their places, and no filled text field is overwritten. A record that was done before the run is untouched, and so is one that still needs translation after it |
| Translate.RunCatsCap | translate_texts.py:160-166 | the walk's count never passes the cap's bound, and the walk stops exactly when the count reaches it; without a cap it never stops |
| Translate.ProcessSettles | translate_texts.py:112-160 | after the step, a record never needs the translate path again |
| Translate.RunItemsConserve | translate_texts.py:110-166 | over one category, the records left countable plus the records counted equal the records countable before; a walk that ends unstopped leaves none countable |
| Translate.RunCatsConserve | translate_texts.py:107-166 | the same conservation over the whole batch, category by category |
| Translate.BatchRespectsCap | translate_texts.py:160-166 | with a truthy cap N and C countable records, the run translates exactly min(max(N, 1), C) records. It returns early exactly when it has translated max(N, 1). The records left countable are the C minus that count |
| Translate.BatchUncapped | translate_texts.py:97-171 | with a cap of None or 0, every countable record is translated and counted, and afterwards every record is done or has no source text |
| Jsx.ReplaceCharAppend | translate_texts.py:201 | `replace` of one character distributes over concatenation |
| Jsx.EscapeIsPerChar | translate_texts.py:201 | the two `replace` passes escape each character on its own. Because backslashes are doubled first, the backslash added before a quote is not doubled again |
| Jsx.ReadEscaped | translate_texts.py:201-202 | reading the per-character escape of a value followed by a quote gives back the value and exactly what follows the quote |
| Jsx.LiteralRoundTrip | translate_texts.py:201-202 | the emitted literal `"{value}"` reads back as the stored value, and the reader stops at its closing quote |
| Jsx.BelowTotal | translate_texts.py:196 | Python's string order is total |
| Jsx.BelowTransitive | translate_texts.py:196 | Python's string order is transitive |
| Jsx.BelowIrreflexive | translate_texts.py:196 | Python's string order is irreflexive |
| Jsx.SortByKeyCorrect | translate_texts.py:196-200 | `sorted(d.items())` on distinct keys keeps exactly the entries it is given and orders them strictly by key |
| Jsx.AppendLines | translate_texts.py:200-202 | the entry loop appends one line per entry, in order |
| Jsx.AppendCategory | translate_texts.py:197-204 | one category appends its header, its entries sorted by key and its closing brace |
| Jsx.AppendCategories | translate_texts.py:196-204 | the category loop appends every category, in order |
| Jsx.AppendLanguage | translate_texts.py:191-206 | one language appends its header, its categories sorted by name and its closing brace |
| Jsx.GenerateJsx | translate_texts.py:177-210 | the output is `Render(data)`: the opening line; one block per language, in the order ar, en, fr, zh; then the closing line |
| Progress.MissingFlagIsPending | check_progress.py:30 | a record without the flag counts as needing translation; a record is completed exactly when its flag is false |
| Progress.CountCategory | check_progress.py:26-33 | the inner loop adds the category's size to the total, and its completed and pending records to their counters |
| Progress.CheckProgress | check_progress.py:22-33 | the total is the sum of the category sizes; completed counts the records whose flag is false and pending counts the rest; completed plus pending is the total |
| Progress.PendingComplement | check_progress.py:26-33 | completed and pending split the record set |
| Progress.NonePendingIff | check_progress.py:46 | nothing is pending exactly when every record is completed |
| Progress.RemainingRunsBounds | check_progress.py:51 | `n // 50 + 1` runs always cover the n pending records at 50 a run. The estimate equals the ceiling of n / 50 when 50 does not divide n, and is one more when it does (50 pending gives 2) |
| Progress.ConcludeIff | check_progress.py:46-51 | the report says all is done exactly when every record is completed; otherwise it names at least one run |

## Left out

- File and console I/O are not modelled: JSON load and dump, `Path.rglob`, reading the page files, the directory checks, every `print` and the final `translations.jsx` write. The record set and the files' candidate strings are inputs.
- The API-key check and `exit(1)` at start-up are process control and are not modelled.
- `translate_text` is an oracle parameter. The client call, the prompt text, the model name and `time.sleep` are external effects. The oracle is a mathematical function, so two calls with the same arguments return the same string; a real service need not.
- The `PATTERNS` regular expressions and `re.findall` are not modelled. Each file arrives as the sequence, pattern by pattern, of the strings its patterns matched.
- `IGNORE_PATTERNS` are modelled as character-class predicates, not through a regular-expression engine.
- The Unicode tables are written out only for the characters the scripts meet:
  - `str.isspace` is exact.
  - `\w` covers ASCII and the Arabic block.
  - `\d` covers ASCII and the two Arabic-script digit series.
  - `str.isupper` covers ASCII and Latin-1.
  - `str.lower` covers ASCII only.
- `is_chinese` is never called by the core and is not modelled.
- Records always carry all four language fields. The `KeyError` that a record without `ar` would raise in `translate_batch` is not modelled. Nor is the `item.get(lang, '')` default in the generator, which would emit `""` for a missing field.
- Translate.HeavilyVowelled: the floating-point test `count / length > 0.3` is stated in integers as `10 * count > 3 * length`. The two agree except within about 10^-16 of the 30% ratio, which no text shorter than about 10^15 characters can reach.
- The floating-point percentage in `check_progress` is not modelled; the counts it is computed from are.
- Jsx.LiteralRoundTrip: the reader takes every character other than a backslash or a quote as itself. JavaScript also rejects a raw line break inside a string literal, and the escaping leaves line breaks as they are. Extracted texts contain none (Extract.CleanTextShape), but a translation returned by the service might.
- `split_translations.py` is not part of this model. It is a regular-expression search over the generated file followed by file writes.
- Python's set iteration order is not fixed. The model proves the extractor's properties for every order. Every record's key is one of its own text's candidates `base`, `base_1`, …. When texts collide on a base key, which candidate each one gets depends on that order, and the model does not fix it.
- Extract.ExtractAll: the record count is stated for all files together, and records are not paired with the (file, text) pair that produced them. Two files with the same stem that keep the same text yield two identical records under different keys. The model tells these apart only through the total count.
