# Profanity filter engine

A Dafny model of the `ProfanityFilter` service class of a Laravel package, with proofs about it. The class detects, lists and masks profane words in a text. It works over per-language word lists, and it tolerates three kinds of disguise:
- leet-speak substitutes (`@` for `a`);
- separators between letters (`d-a-m-n`);
- accented letters.

The model is organised like the class:

- `Profanity.ProfanityFilter` (profanity_filter.dfy) is a class with the fields the setters update in place: the configuration, the pinned language, the two flags and the word lists. Each query is a method whose loops mirror the source. Each query's `ensures` ties its result to a function of a `State` snapshot of the fields.
- `FilterState` (lists.dfy) models the word lists, an ordered PHP array keyed by language: lookup, key assignment, `loadWordsForLanguage`, `loadWordLists`, and PHP truthiness of the pinned language.
- `Normalize` and `Accents` (normalize.dfy) are the two normalisers.
- `Patterns` and `PatternFacts` (patterns.dfy) hold the two regex shapes the class builds, as data:
  - the quoted word `\b<word>\b`;
  - the flexible pattern of `buildFlexiblePattern`.

  They state a declarative match relation `MatchesSpan`, and model `preg_match_all` as a scan over it. The proofs characterise what each pattern accepts.
- `Masking` and `Tokens` (mask.dfy) hold `maskWord`, and the `\b` split walk of `findOriginalWord` and of the accent pass.
- `Detection` (detect.dfy) gives `hasProfanity`, `getProfanityWords` and `getProfanityWordsForLanguage` as functions, with their properties.
- `Filtering` (filtering.dfy) gives the three masking passes of `filterWithLanguage` and the winner choice of `filter`. Its lemmas show:
  - every pass only turns characters into the replacement character;
  - untouched text comes back unchanged;
  - `filter` returns the original text or the first candidate with the most replacement characters.
- `Text`, `Unicode`, `Settings` and `Wrappers` hold the PHP string primitives, the character classes, the configuration record and `Option`/`Result`.

The Unicode classes `\p{L}` and `\p{N}`, the word characters behind `\b`, and the case folding of the `i` flag are not tables here. They are a `CharClasses` value of function fields given to the constructor, so every property holds for any such tables. Laravel's `config()` is not modelled either. The configuration record and the built-in word lists are constructor parameters.

Three points of the code's behaviour are worth stating outright, and the model follows them.
- **Leet folding.** `normalizeLeetSpeak` makes one `str_replace` pass per substitute, entry after entry, so a later pass can rewrite what an earlier one produced (`Normalize.ReplaceEach`, `Normalize.Substituted`).
- **`filter`'s count.** `filter` counts every replacement character in a candidate, including ones that were already in the text (`Filtering.Choose`).
- **The fallback pass.** The quoted-word fallback of `filterWithLanguage` (src/ProfanityFilter.php:150-160) runs only when the tolerant pattern found nothing, and it then never changes the text: each word it would replace spells the listed word, so the tolerant pattern would have matched there (`Filtering.FallbackIsDead`). The model keeps the pass as written.

## Model

| member | source | states |
|---|---|---|
| Profanity.ProfanityFilter.constructor | src/ProfanityFilter.php:17-23 | Case sensitivity comes from the configuration, default false. Leet detection comes from the configuration, default true. No language is pinned, and the lists are those the configuration loads. |
| Profanity.ProfanityFilter.LoadWordLists | src/ProfanityFilter.php:25-31 | The loop leaves exactly the lists that loading the supported languages in order produces. |
| FilterState.WordListsForKeys | src/ProfanityFilter.php:25-31 | The loaded lists hold each supported language once, and no other key. Each key holds `loadWordsForLanguage` of that language. |
| FilterState.PutFacts | src/ProfanityFilter.php:29 | Key assignment stores the new list under the key and leaves every other key's list alone. The key set gains the key, and keys stay unique. |
| FilterState.PutLookup | src/ProfanityFilter.php:29 | After key assignment the key holds the new list. Every other key's lookup is unchanged. |
| FilterState.PutLangs | src/ProfanityFilter.php:29 | An existing key keeps its place in the key order. A new key is appended at the end. |
| FilterState.WordListsForLangs | src/ProfanityFilter.php:25-31 | The keys of the loaded lists are the supported languages in order, with later repeats dropped. |
| FilterState.WordListsForLookup | src/ProfanityFilter.php:25-31 | Every supported language's key holds `loadWordsForLanguage` of that language. |
| FilterState.Lookup | src/ProfanityFilter.php:85 | A lookup fails exactly when the key is absent. |
| FilterState.LoadWordsForLanguage | src/ProfanityFilter.php:33-44 | The list is duplicate-free. It holds exactly the built-in words and the custom words of the language. |
| FilterState.Pinned | src/ProfanityFilter.php:109 | A language is pinned exactly when it is set and is neither `""` nor `"0"` (PHP truthiness). |
| Profanity.ProfanityFilter.SetConfig | src/ProfanityFilter.php:46-52 | The configuration is replaced and the lists are reloaded from it. The flags and the pinned language are kept. |
| Profanity.ProfanityFilter.SetLanguage | src/ProfanityFilter.php:54-62 | A supported code is pinned. An unsupported one gives the "not supported" error and leaves the pinned language (`getLanguage`) as it was. Nothing else changes. |
| Profanity.ProfanityFilter.SetCaseSensitive | src/ProfanityFilter.php:69-74 | Sets the flag and changes nothing else. |
| Profanity.ProfanityFilter.SetDetectLeetSpeak | src/ProfanityFilter.php:76-81 | Sets the flag and changes nothing else. |
| Profanity.ProfanityFilter.HasProfanity | src/ProfanityFilter.php:83-103 | True exactly when some word of an active list matches its quoted pattern in the leet-normalised text or in the raw text. The active lists are the pinned language's, or all of them. |
| Detection.PinnedWithoutList | src/ProfanityFilter.php:85 | With a pinned language that has no list, nothing is detected and the word extraction fails. |
| Detection.ExemptSubstringDetected | src/ProfanityFilter.php:91-92 | In a boundary-exempt language, any occurrence of the word as a plain substring is detected. |
| Detection.CaseSensitiveRawHit | src/ProfanityFilter.php:93-94 | Case-sensitively, with boundaries, a word matches the raw text exactly when it occurs literally between two `\b` positions. |
| Detection.CaseSensitiveMissesUpperCase | src/ProfanityFilter.php:93-96 | Case-sensitively, the quoted pattern for `damn` does not match the raw text `DAMN`, in any language. |
| Detection.CaseSensitiveIgnoresUpperCase | src/ProfanityFilter.php:84-96 | With only `damn` listed and case sensitivity on, `hasProfanity('This is DAMN')` is false, through the raw and the leet-normalised text, when no canonical letter holds a `d`. |
| Detection.LeetOffIgnoresDisguise | src/ProfanityFilter.php:84-96 | With only `damn` listed and leet detection off, `hasProfanity('This is a d@mn test')` is false, when the case folding keeps `a` apart from the text's other characters and `m` apart from the space. |
| Profanity.ProfanityFilter.GetProfanityWordsForLanguage | src/ProfanityFilter.php:277-294 | Returns the list's words, in list order, whose pattern matches the text after leet normalisation (when requested). |
| Detection.HitsInMembers | src/ProfanityFilter.php:282-291 | A word is returned exactly when it is in the list and its pattern matches. There are no more results than words. |
| Profanity.ProfanityFilter.GetProfanityWords | src/ProfanityFilter.php:266-275 | The per-language results are concatenated and duplicates dropped. A pinned language without a list is a TypeError. On a filter whose lists match its configuration (`Valid()`) and whose pinned language, if any, is supported, the call succeeds. |
| Detection.AllHitsMembers | src/ProfanityFilter.php:268-272 | A word is collected exactly when some walked list holds it and its pattern matches the leet-normalised text. |
| Detection.AllHitsMember | src/ProfanityFilter.php:268-272 | The same statement for one word, proved by induction over the walked lists. |
| Detection.ProfanityWordsExact | src/ProfanityFilter.php:266-294 | The extracted words are distinct. They are exactly the active words that match the leet-normalised text; the raw text is never consulted. |
| Detection.ExtractedImpliesProfane | src/ProfanityFilter.php:288 | Whatever the extraction returns, detection also reports. |
| Detection.PlainFindsWord | src/ProfanityFilter.php:91-96 | A word written out literally in the text, between two `\b` positions when boundaries are asked for, is found by its quoted pattern. |
| Detection.LeetOnSeesDisguise | tests/ProfanityFilterTest.php:69-71 | With leet detection on, only `damn` listed and `@` standing for `a`, `hasProfanity('This is a d@mn test')` is true, when `d` and `n` are word characters and the space is not. |
| Detection.SentenceHasWord | tests/ProfanityFilterTest.php:69-71 | The quoted pattern for `damn` matches `This is a damn test`, in either case mode and with or without boundaries. |
| Detection.DetectedButNotExtracted | src/ProfanityFilter.php:96 | A concrete case of the asymmetry. `a-b`, with `-` as a separator, is detected through the raw text but not extracted. |
| Detection.DashedWordRawHit | src/ProfanityFilter.php:96 | The pattern for `a-b` matches the raw text `a-b`. |
| Detection.DashedWordNormalisedMiss | src/ProfanityFilter.php:248-250 | With `-` as a separator, leet normalisation turns `a-b` into `ab`. The pattern for `a-b` does not match `ab`. |
| Profanity.SupportedPinnedSucceeds | src/ProfanityFilter.php:124 | While the lists match the configuration and the pinned language is supported, `filter` and `getProfanityWords` succeed. |
| Profanity.ProfanityFilter.Filter | src/ProfanityFilter.php:105-125 | Pinned: that language's `filterWithLanguage`. Otherwise: the candidate choice over all lists, each computed from the original text. On a filter whose lists match its configuration (`Valid()`) and whose pinned language, if any, is supported, the call succeeds. |
| Filtering.Candidates | src/ProfanityFilter.php:112-113 | Candidate `k` is `filterWithLanguage` of list `k` on the original text. |
| Filtering.ChooseFirstMax | src/ProfanityFilter.php:110-119 | The loop keeps the current choice when no candidate beats the count. Otherwise it returns a candidate that beats every earlier one strictly (`>`) and no later one beats. |
| Filtering.FilterChoice | src/ProfanityFilter.php:105-125 | Unpinned: the original text when no candidate holds a replacement character. Otherwise the first candidate with the largest count. Pinned: exactly `filterWithLanguage` on that list, or a failure when the list is missing. |
| Filtering.FilterMasks | src/ProfanityFilter.php:105-125 | `filter`'s result has the text's length and differs from it only where it holds the replacement character. |
| Profanity.ProfanityFilter.FilterWithLanguage | src/ProfanityFilter.php:127-189 | Runs the passes for each word in order, each on the text the previous word left. The result only masks the text. When some word, on the given text, has a tolerant hit or an accent hit that still shows an unmasked character, the result holds more replacement characters than the text. |
| Profanity.ProfanityFilter.FilterOneWord | src/ProfanityFilter.php:135-186 | One word's step only masks the text. When the word's tolerant pattern finds a substring with an unmasked letter or digit, or the accent pass hits a piece with a letter and a character other than the replacement character, the step writes at least one more replacement character. |
| Profanity.ProfanityFilter.FilterOneWordSteps | src/ProfanityFilter.php:135-186 | One word's passes: <br>• boundary-exempt language: the tolerant pass only; <br>• otherwise: the tolerant pass, or the fallback when the tolerant pass finds nothing, then the accent pass when case-insensitive. |
| Filtering.FilterWithLanguageMasks | src/ProfanityFilter.php:127-189 | The result has the text's length, changes characters only into the replacement character, and never lowers the replacement count. |
| Filtering.FilterWordMasks | src/ProfanityFilter.php:135-186 | Each word's passes only ever overwrite characters with the replacement character. |
| Filtering.FilterWordsMasks | src/ProfanityFilter.php:135-186 | The same holds across the whole word list. |
| Filtering.FilterWordUntouched | src/ProfanityFilter.php:135-186 | When neither the tolerant, fallback nor accent pattern matches, the word leaves the text unchanged. |
| Filtering.FilterWordsUntouched | src/ProfanityFilter.php:135-186 | A text that no word of the list touches comes back as it is. |
| Filtering.LeetOffMissingLetter | src/ProfanityFilter.php:133 | With leet detection off there are no substitutes. A word one of whose characters occurs nowhere in an unaccented text leaves that text unchanged. |
| Filtering.LeetOffKeepsDisguise | src/ProfanityFilter.php:133 | With leet detection off, `d@mn` is left unchanged by the word `damn`. |
| Profanity.ProfanityFilter.MaskMatches | src/ProfanityFilter.php:139-141 | Each found substring is replaced everywhere by its masked form, in order. The result only masks the text. At the leftmost occurrence of the first found substring, each of its letters and digits is the replacement character. If that substring occurs and shows an unmasked letter or digit, the text changes. |
| Filtering.MaskFoundMasksFirst | src/ProfanityFilter.php:139-141 | After the tolerant pass, the leftmost occurrence of the first found substring holds the replacement character at each of its letters and digits. |
| Filtering.MaskFoundChanges | src/ProfanityFilter.php:139-141 | The tolerant pass changes the text when its first found substring occurs in it and shows a letter or digit that is not the replacement character. |
| Filtering.FirstFoundOccurs | src/ProfanityFilter.php:137-139 | The first substring `preg_match_all` reports occurs in the text at its span's start. |
| Filtering.MaskFoundMasks | src/ProfanityFilter.php:146-148 | The tolerant pass only masks. |
| Profanity.ProfanityFilter.ReplacePlainMatches | src/ProfanityFilter.php:156-159 | Each hit's quoted pattern is replaced by as many replacement characters as the hit has characters. |
| Filtering.PlainHitsHaveWordLength | src/ProfanityFilter.php:157-158 | Every match of a quoted word is exactly as long as the word. |
| Filtering.SpliceMasks | src/ProfanityFilter.php:158 | Replacing in-order spans by a run of replacement characters of the span's length only masks. |
| Filtering.ReplacePlainMasks | src/ProfanityFilter.php:155-160 | The fallback pass only masks. |
| Filtering.PregReplace | src/ProfanityFilter.php:158 | `preg_replace` leaves a text without a match unchanged. Otherwise the text before the leftmost match is kept and the replacement stands at its start. |
| Filtering.FallbackIsDead | src/ProfanityFilter.php:150-160 | When the tolerant pattern with boundaries finds nothing, the fallback pass returns the text unchanged. |
| Profanity.ProfanityFilter.MaskAccentMatches | src/ProfanityFilter.php:166-182 | For each hit offset, the split piece holding it is replaced everywhere by replacement characters, when it holds a letter. The result only masks the text. When the piece holding the first offset has a letter, that whole piece is replacement characters in the result. |
| Filtering.TokenNoOverlap | src/ProfanityFilter.php:169 | A piece of the `\b` split never occurs at an earlier place that overlaps its own start, so `str_replace` reaches it intact. |
| Filtering.MaskTokenAtCovers | src/ProfanityFilter.php:170-178 | One hit of the accent pass turns every character of the piece holding it into the replacement character, when the piece has a letter. |
| Filtering.MaskTokenAtChanges | src/ProfanityFilter.php:170-178 | One hit changes the text when the piece holding it has a letter and a character other than the replacement character. |
| Filtering.MaskTokensMasksPiece | src/ProfanityFilter.php:166-182 | After the whole walk over the hits, the piece holding the first hit is still all replacement characters. |
| Filtering.MaskTokensChanges | src/ProfanityFilter.php:166-182 | The walk over the hits changes the text when the piece holding the first hit has a letter and a character other than the replacement character. |
| Filtering.AccentPassMasksPiece | src/ProfanityFilter.php:162-182 | The accent pass blanks the whole piece of the text that holds its first hit in the accent-folded text, when that piece has a letter. |
| Filtering.AccentPassChanges | src/ProfanityFilter.php:162-182 | The accent pass changes the text when the piece holding its first hit has a letter and a character other than the replacement character. |
| Filtering.FilterWordMasksHit | src/ProfanityFilter.php:135-186 | A word with a tolerant hit showing an unmasked letter or digit, or with an accent hit as above, changes the text, and the replacement count rises strictly. |
| Filtering.FilterWordsChanged | src/ProfanityFilter.php:134-186 | If any one word's step would change the given text, the loop over all the words changes it. |
| Filtering.FilterWithLanguageMasksHit | src/ProfanityFilter.php:127-189 | `filterWithLanguage` changes the text and raises the replacement count whenever one word of the list has such a hit on the given text. |
| Filtering.MaskTokensMasks | src/ProfanityFilter.php:166-182 | The accent pass only masks. |
| Patterns.BuildFlexiblePattern | src/ProfanityFilter.php:194-212 | The loop builds one alternative class per word character, with filler in between and the boundary and case flags as requested. |
| Patterns.Alternatives | src/ProfanityFilter.php:199-203 | A character's class holds the character itself, and exactly the characters of its configured substitutes. |
| PatternFacts.MatchesSpanIffSpelling | src/ProfanityFilter.php:194-212 | A pattern matches a span exactly when the boundaries hold (if requested) and the span spells the classes in order, with filler only between steps. |
| PatternFacts.FlexibleAcceptsObfuscated | src/ProfanityFilter.php:194-212 | The flexible pattern accepts `t[i..j]` exactly when `\b` holds at both ends (only if boundaries are requested), and that span is an obfuscated spelling of the word. An obfuscated spelling has: <br>• the word's characters in order, each itself or part of a substitute; <br>• non-letter/non-digit runs between them; <br>• nothing after the last. |
| PatternFacts.NoSubstitutesNoTolerance | src/ProfanityFilter.php:199-203 | Without substitutes, every matched position holds the word's own character. |
| PatternFacts.FlexibleShowsLetters | src/ProfanityFilter.php:196-207 | A flexible match without substitutes contains every character of the word: filler cannot replace one. |
| PatternFacts.FlexibleMissingLetter | src/ProfanityFilter.php:196-207 | A word with a character absent from the text is not matched by its substitute-free flexible pattern. |
| PatternFacts.PlainSpan | src/ProfanityFilter.php:151-153 | The quoted pattern matches a span exactly when: <br>• the span has the word's length; <br>• it agrees with the word position by position under the case mode; <br>• `\b` holds at both ends, if requested. |
| PatternFacts.PlainCaseSensitiveSpan | src/ProfanityFilter.php:153 | Case-sensitively, the quoted pattern matches a span exactly when the span is the word with the boundaries in place. |
| PatternFacts.PlainMissingLetter | src/ProfanityFilter.php:91-95 | A word with a character absent from the text does not match its quoted pattern. |
| PatternFacts.PlainImpliesFlexible | src/ProfanityFilter.php:144 | Whatever the quoted pattern matches, the flexible pattern matches too. |
| Patterns.LongestAt | src/ProfanityFilter.php:145 | Finds the longest match starting at a position, or shows there is none. |
| Patterns.MatchAllFrom | src/ProfanityFilter.php:145 | The scan's spans are matches, in order, without overlap. |
| Patterns.MatchAllFirst | src/ProfanityFilter.php:145 | No match starts before the first span. When the scan is empty, no match starts anywhere. |
| Patterns.MatchAllLongest | src/ProfanityFilter.php:145 | No span can be extended to a longer match from the same start. |
| Patterns.MatchAllGaps | src/ProfanityFilter.php:145 | No match starts between the resume point of one span and the next span, nor after the last span. |
| Patterns.MatchAll | src/ProfanityFilter.php:145 | `preg_match_all`'s spans are matches, in order and without overlap. The first is the leftmost match, and there is none only when nothing matches anywhere. |
| Patterns.MatchAllFindsIff | src/ProfanityFilter.php:96 | `preg_match` succeeds exactly when the pattern matches somewhere in the text. |
| Patterns.Found | src/ProfanityFilter.php:139 | `$matches[0]` holds the text of each span, in order. |
| Patterns.Starts | src/ProfanityFilter.php:167 | The hit offsets are the spans' starts, in order. |
| Masking.MaskWord | src/ProfanityFilter.php:214-224 | The character loop computes the masked word. |
| Masking.MaskAt | src/ProfanityFilter.php:218-221 | Position by position, letters and digits become the replacement character and every other character is kept. The length is unchanged. |
| Masking.MaskIsMasking | src/ProfanityFilter.php:214-224 | A masked word differs from the word only where it holds the replacement character. |
| Masking.MaskIdempotent | src/ProfanityFilter.php:214-224 | For a replacement character that is neither a letter nor a digit, masking twice is masking once. |
| Masking.MaskUnchangedIff | src/ProfanityFilter.php:214-224 | Masking leaves a word as it is exactly when every letter or digit in it is already the replacement character. |
| Masking.MaskHidesAlnum | src/ProfanityFilter.php:220 | Every letter and digit is hidden, and every other character is kept. |
| Masking.MaskExamples | src/ProfanityFilter.php:214-224 | `d-a-m-n` masks to `*-*-*-*` and `Cus$tom` to `***$***`. |
| Tokens.FindOriginalWord | src/ProfanityFilter.php:226-239 | The offset walk returns the split piece that holds the position, or `null`. |
| Tokens.TokenAtSpan | src/ProfanityFilter.php:228-236 | A piece is found exactly when the position lies inside the text. The piece then runs between the `\b` cuts on either side of the position and contains it. |
| Tokens.PiecesJoin | src/ProfanityFilter.php:228 | The pieces of the split, joined, give the text again. |
| Tokens.CutFrom | src/ProfanityFilter.php:228 | The next cut is either the end of the text or a `\b` position, and there is no `\b` before it. |
| Normalize.NormalizeLeetSpeak | src/ProfanityFilter.php:241-256 | The loop over the substitution entries, followed by the separator step, computes the leet normalisation. Its effect on substitutes is stated by `Normalize.SubstituteBecomesLetter` and `Normalize.LeetFoldsDisguise`. |
| Normalize.ReplaceEachConcat | src/ProfanityFilter.php:245 | With one-character needles, the passes of one entry distribute over joined texts. |
| Normalize.ReplaceEachUntouched | src/ProfanityFilter.php:245 | A text holding none of an entry's one-character substitutes is left alone by that entry. |
| Normalize.ReplaceEachChar | src/ProfanityFilter.php:245 | One character becomes the entry's letter when it is one of the entry's substitutes and the letter holds no substitute of the entry. Any other character is kept. |
| Normalize.SubstitutedConcat | src/ProfanityFilter.php:243-247 | With one-character substitutes, leet folding works character by character: folding joined texts is folding each and joining. |
| Normalize.SubstitutedUntouched | src/ProfanityFilter.php:243-247 | A text with no substitute character comes through leet folding unchanged. |
| Normalize.SubstituteBecomesLetter | src/ProfanityFilter.php:243-247 | A one-character substitute of entry `k` that no earlier entry lists becomes entry `k`'s letter, when no character of that letter is itself a substitute. The text on either side is folded on its own. |
| Normalize.AtBecomesA | src/ProfanityFilter.php:243-247 | With `@` standing for `a`, an `@` between two texts that hold no `@` becomes `a`, and nothing else changes. |
| Normalize.LeetFoldsDisguise | src/ProfanityFilter.php:241-256 | With `@` standing for `a` and no separators, `d@mn` normalises to `damn`. |
| Normalize.LeetFoldsSentence | tests/ProfanityFilterTest.php:69-71 | With `@` standing for `a` and no separators, `This is a d@mn test` normalises to `This is a damn test`. |
| Normalize.CollapseSingleSpaces | src/ProfanityFilter.php:252 | A text whose class characters are lone spaces comes through collapsing unchanged. |
| Normalize.CollapseUntouched | src/ProfanityFilter.php:252 | A text without class characters comes through collapsing unchanged. |
| Normalize.DeleteSeparators | src/ProfanityFilter.php:248-250 | The result holds exactly the text's characters that are not separators, and is no longer than the text. A text without separators comes back unchanged. |
| Normalize.DeleteSeparatorsConcat | src/ProfanityFilter.php:248-250 | Deleting separators from two joined texts is deleting them from each and joining, so the kept characters keep their order and their repeats. |
| Normalize.LeetRemovesSeparators | src/ProfanityFilter.php:248-250 | With separators configured, no separator remains. Every other character that no substitute uses survives. |
| Normalize.LeetCollapsesRuns | src/ProfanityFilter.php:251-253 | Without separators, no two characters of the class `[\s.\-_,;:!?]` remain adjacent, and each that remains is a space. |
| Normalize.CollapseRunIsSpace | src/ProfanityFilter.php:252 | A nonempty run of class characters, and nothing else, becomes exactly one space. |
| Normalize.CollapseRunsConcat | src/ProfanityFilter.php:252 | Collapsing a text cut anywhere except between two class characters is collapsing each piece and joining. With `CollapseRunIsSpace`, each maximal run becomes one space and every other character stays in place. |
| Normalize.LeetKeepsAbsent | src/ProfanityFilter.php:241-256 | Leet normalisation writes no character other than the space that is in neither the text nor a canonical letter. |
| Normalize.CollapseIdempotent | src/ProfanityFilter.php:252 | Collapsing the runs twice is collapsing them once. |
| Normalize.CollapseKeepsText | src/ProfanityFilter.php:252 | Collapsing keeps every character outside the class, in order. |
| Normalize.SubstitutedClears | src/ProfanityFilter.php:243-247 | When every substitute is one character and no canonical letter contains it, that substitute no longer occurs after leet folding. |
| Normalize.SubstitutedKeeps | src/ProfanityFilter.php:243-247 | A character that no substitute uses survives leet folding. |
| Normalize.SubstitutedKeepsAbsent | src/ProfanityFilter.php:243-247 | Leet folding introduces no character that is neither in the text nor in a canonical letter. |
| Accents.NormalizeAccents | src/ProfanityFilter.php:258-264 | The sequential table replacement equals folding every character on its own by its first table entry; no pass undoes or feeds another. |
| Accents.NormalizeClearsTable | src/ProfanityFilter.php:258-264 | No character of the table survives the replacement. |
| Accents.NormalizeKeepsUntouched | src/ProfanityFilter.php:258-264 | A text without table characters is returned unchanged. |
| Text.Dedup | src/ProfanityFilter.php:43 | `array_unique` gives a duplicate-free list with the same elements, no longer than the input. |
| Text.DedupOfDistinct | src/ProfanityFilter.php:274 | `array_unique` of a duplicate-free list is the list itself. |
| Text.ReplaceAll | src/ProfanityFilter.php:140 | `str_replace` writes no character that is in neither the subject nor the replacement. A replacement as long as the needle keeps the length. |
| Text.ReplaceAllMasks | src/ProfanityFilter.php:176 | `str_replace` with a same-length replacement that agrees with the needle except on the replacement character only masks. |
| Text.MaskedFromCount | src/ProfanityFilter.php:114 | Masking never lowers the count of the replacement character. |
| Text.MaskedFromCountStrict | src/ProfanityFilter.php:114 | Masking that changes the text raises the count of the replacement character. |
| Text.MaskedFromKeepsChange | src/ProfanityFilter.php:134-186 | A change made by one masking step survives any later masking step. |
| Text.FirstOccurrenceExists | src/ProfanityFilter.php:140 | Every occurrence of a needle has a leftmost occurrence at or before it. |
| Text.ReplaceAllLeftmost | src/ProfanityFilter.php:140 | `str_replace` keeps the text before the leftmost occurrence, writes the replacement there, and goes on scanning right after it. |
| Text.ReplaceAllAbsent | src/ProfanityFilter.php:140 | `str_replace` leaves a subject without an occurrence unchanged. With `Text.ReplaceAllLeftmost` this determines the result. |
| Text.ReplaceAllChanges | src/ProfanityFilter.php:176 | A same-length replacement that differs from the needle changes a subject in which the needle occurs. |
| Text.ReplaceAllCovers | src/ProfanityFilter.php:176 | A same-length replacement stands at every occurrence that no earlier occurrence overlaps. |
| Text.ReplaceCharSingle | src/ProfanityFilter.php:245 | A one-character subject is replaced exactly when it is the needle. |
| Settings.SubstitutesOf | src/ProfanityFilter.php:199 | A nonempty substitute list belongs to a configured entry for exactly that character. |

## Left out

- Laravel plumbing: `config()`, the Facade and the service provider are not modelled. The configuration record, the built-in lists and the character classes are constructor parameters, so a built-in list that is not an array (src/ProfanityFilter.php:36-38) cannot arise.
- Importing words from a file, and `custom_words_file_path`, are not part of this model. They are file I/O and are not in this class.
- PCRE's backtracking is not modelled. From the leftmost start, `preg_match_all` is taken to return the longest match. For the quoted word every match has the word's length. For the tolerant pattern (letter classes joined by greedy `[^\p{L}\p{N}]*`, with or without `\b` at both ends), the first parse that greedy backtracking finds also ends furthest: a parse that ended later could be spliced into it at the first place it overtakes, giving a parse that backtracking would have tried first. So the scan is exact for both pattern shapes.
- Unicode tables: `\p{L}`, `\p{N}`, the `\b` word class and case folding are the `CharClasses` parameter. `findOriginalWord`'s non-`u` split corresponds to `Tokens.FindOriginalWord` called with `Unicode.AsciiWord`.
- Byte offsets: strings are sequences of code points. `PREG_OFFSET_CAPTURE` byte offsets and `strlen` in `findOriginalWord` are treated as code-point positions. `findOriginalWord` is never called by the class. Its unused `length` parameter is dropped. This matters in the accent pass (src/ProfanityFilter.php:165-176). There the byte offset of a hit in the accent-folded text is looked up among the `\b` pieces of the original text, which are measured in code points. Every character before the hit that takes more than one byte in the folded text moves the lookup to the right. These are every multibyte character outside the accent table, and `œ`/`Œ`, which fold to two letters. For `ñññññ mérde`, with `merde` in the list, the source gets offset 11. That is past the end of the last piece (code points 6 to 10), so it masks nothing. The model looks at position 6 and masks `mérde`.
- Separators are single code points. The source builds the separator class without the `u` flag (src/ProfanityFilter.php:249), so PCRE reads it byte by byte: a separator of several bytes, a single non-ASCII character included, deletes each of its bytes wherever they occur, even inside other characters. With `—` (E2 80 94) as a separator, `Ā` (C4 80) loses its byte 80 and the text is no longer valid UTF-8. The later `/u` matches on the normalised text then fail, so `getProfanityWords` finds nothing in that text, and `hasProfanity` finds only what its search of the raw text finds. The model deletes whole code points and finds the words in the normalised text.
- The replacement character is a single character. A longer `replacement_character` string is not modelled.
- PHP array keys are not modelled. The lists are sequences, so the key gaps `array_unique` leaves in its results do not appear.
- ReplaceAll: its own contract states only the length and the characters written. The replacement of occurrences is stated by `Text.ReplaceAllLeftmost`, `Text.ReplaceAllAbsent` and `Text.ReplaceAllCovers`.
- MaskMatches: only the first found substring's leftmost occurrence is proved masked. That later occurrences and later substrings are masked too is not stated, though the body does it.
- MaskAccentMatches: only the piece holding the first hit is proved blanked. The later hits are only proved to mask.
- FilterWithLanguageMasksHit: the hit is stated for one word on the text given to the loop. A hit that only appears on a text left by an earlier word is not covered.
- Text.Dedup: the contract does not state that the first occurrence of each element is kept and the order preserved, though the body does so.
- PHP warnings are not modelled: reading a missing language key warns and yields `null`. The TypeError that `filter` and `getProfanityWords` then raise is a `Failure`.
- `is_array` checks on `substitutions` and `separators` (src/ProfanityFilter.php:243, :248) are not modelled: the configuration's types exclude non-arrays.
- GetLanguage: no contract of its own. The `SetLanguage` contract states what it returns.
- IsLanguageMatchWithoutBoundaries: a predicate without a contract. Its effect is stated by `Detection.ExemptSubstringDetected` and `Detection.CaseSensitiveRawHit`.
- Empty pieces of `preg_split('/\b/')` are not listed. They have no characters, so the walk never stops at one.
