/**
 * Detection: `hasProfanity`, `getProfanityWords` and `getProfanityWordsForLanguage` as
 * functions of the filter's state. Both use the quoted-word pattern `\b<word>\b` (no
 * boundaries for the languages configured to match without them, the `i` flag unless the
 * filter is case-sensitive). `hasProfanity` tries the leet-normalised text and then the raw
 * text; the word extraction looks at the leet-normalised text only.
 */
module Detection {
  import opened Wrappers
  import opened Text
  import opened Unicode
  import opened Settings
  import opened Normalize
  import opened Patterns
  import opened PatternFacts
  import opened FilterState

  /** The pattern a word of language `lang` is searched with. */
  function WordPattern(s: State, lang: string, word: string): Pattern
  {
    Plain(word, !IsLanguageMatchWithoutBoundaries(s.config, lang), !s.caseSensitive)
  }

  /** The lists `hasProfanity` walks: the pinned language's alone, or all of them. A pinned
      language with no list gives no words (PHP reads `null` and the loop does nothing). */
  function DetectLists(s: State): seq<WordList>
  {
    match Pinned(s.language)
    case None => s.wordLists
    case Some(l) => [WordList(l, Lookup(s.wordLists, l).GetOr([]))]
  }

  /** One word hits when its pattern matches the normalised text or the raw text. */
  predicate WordHits(u: CharClasses, s: State, lang: string, word: string, text: string)
  {
    Matches(u, WordPattern(s, lang, word), LeetText(s.config, s.detectLeetSpeak, text))
    || Matches(u, WordPattern(s, lang, word), text)
  }

  /** What `hasProfanity` answers: some word of some walked list hits. */
  predicate Profane(u: CharClasses, s: State, text: string)
  {
    var lists := DetectLists(s);
    exists k, n | 0 <= k < |lists| && 0 <= n < |lists[k].words| :: WordHits(u, s, lists[k].lang, lists[k].words[n], text)
  }

  /** `getProfanityWordsForLanguage`'s loop: the words, in list order, whose pattern matches
      the (already normalised) text. */
  function HitsIn(u: CharClasses, s: State, lang: string, words: seq<string>, norm: string): seq<string>
    decreases |words|
  {
    if words == [] then []
    else (if PregMatch(u, WordPattern(s, lang, words[0]), norm) then [words[0]] else []) + HitsIn(u, s, lang, words[1..], norm)
  }

  /** One step of the loop: the hits from `i` on are the hit at `i`, if any, followed by the
      hits from `i + 1` on. */
  lemma HitsInStep(u: CharClasses, s: State, lang: string, words: seq<string>, norm: string, i: nat)
    requires i < |words|
    ensures HitsIn(u, s, lang, words[i..], norm)
            == (if PregMatch(u, WordPattern(s, lang, words[i]), norm) then [words[i]] else []) + HitsIn(u, s, lang, words[i + 1..], norm)
  {
    assert words[i..][1..] == words[i + 1..];
  }

  /** The loop's invariant survives a step: the words found so far followed by the hits
      still to come are all the hits. */
  lemma HitsInLoopStep(u: CharClasses, s: State, lang: string, words: seq<string>, norm: string, i: nat,
                       found: seq<string>, hit: bool)
    requires i < |words| && hit == PregMatch(u, WordPattern(s, lang, words[i]), norm)
    requires found + HitsIn(u, s, lang, words[i..], norm) == HitsIn(u, s, lang, words, norm)
    ensures (if hit then found + [words[i]] else found) + HitsIn(u, s, lang, words[i + 1..], norm)
            == HitsIn(u, s, lang, words, norm)
  {
    HitsInStep(u, s, lang, words, norm, i);
    var x := if hit then [words[i]] else [];
    ConcatAssoc(found, x, HitsIn(u, s, lang, words[i + 1..], norm));
    assert (if hit then found + [words[i]] else found) == found + x;
  }

  /** The hits are the listed words whose pattern matches, and no more than the list. */
  lemma {:induction false} HitsInMembers(u: CharClasses, s: State, lang: string, words: seq<string>, norm: string)
    ensures forall w :: w in HitsIn(u, s, lang, words, norm) <==> w in words && Matches(u, WordPattern(s, lang, w), norm)
    ensures |HitsIn(u, s, lang, words, norm)| <= |words|
    decreases |words|
  {
    if words != [] {
      HitsInMembers(u, s, lang, words[1..], norm);
      MatchAllFindsIff(u, WordPattern(s, lang, words[0]), norm);
      assert forall w :: w in words <==> w == words[0] || w in words[1..];
    }
  }

  /** `getProfanityWordsForLanguage($text, $lang, $checkLeetSpeak, $words)`. */
  function WordsForLanguage(u: CharClasses, s: State, text: string, lang: string, checkLeetSpeak: bool,
                            words: seq<string>): seq<string>
  {
    HitsIn(u, s, lang, words, LeetText(s.config, checkLeetSpeak, text))
  }

  /** The lists `getProfanityWords` and `filter` walk. With a pinned language whose list is
      missing, PHP passes `null` where an array is required and raises a TypeError. */
  function QueryLists(s: State): Result<seq<WordList>, string>
  {
    match Pinned(s.language)
    case None => Success(s.wordLists)
    case Some(l) =>
      match Lookup(s.wordLists, l)
      case None => Failure("TypeError: no word list for language '" + l + "'")
      case Some(ws) => Success([WordList(l, ws)])
  }

  /** The words found language after language, before duplicates are dropped. */
  function AllHits(u: CharClasses, s: State, text: string, lists: seq<WordList>): seq<string>
    decreases |lists|
  {
    if lists == [] then []
    else
      var last := lists[|lists| - 1];
      AllHits(u, s, text, lists[..|lists| - 1]) + WordsForLanguage(u, s, text, last.lang, s.detectLeetSpeak, last.words)
  }

  /** `AllHitsMembers` for one word. */
  lemma {:induction false} AllHitsMember(u: CharClasses, s: State, text: string, lists: seq<WordList>, w: string)
    ensures w in AllHits(u, s, text, lists) <==> exists k | 0 <= k < |lists| ::
              w in lists[k].words && Matches(u, WordPattern(s, lists[k].lang, w), LeetText(s.config, s.detectLeetSpeak, text))
    decreases |lists|
  {
    if lists != [] {
      var init := lists[..|lists| - 1];
      var last := lists[|lists| - 1];
      var norm := LeetText(s.config, s.detectLeetSpeak, text);
      AllHitsMember(u, s, text, init, w);
      HitsInMembers(u, s, last.lang, last.words, norm);
      var a := AllHits(u, s, text, init);
      var b := HitsIn(u, s, last.lang, last.words, norm);
      assert AllHits(u, s, text, lists) == a + b;
      assert w in a + b <==> w in a || w in b;
      if exists k | 0 <= k < |lists| :: w in lists[k].words && Matches(u, WordPattern(s, lists[k].lang, w), norm) {
        var k :| 0 <= k < |lists| && w in lists[k].words && Matches(u, WordPattern(s, lists[k].lang, w), norm);
        if k < |init| {
          assert init[k] == lists[k];
        }
      }
      if w in a {
        var k :| 0 <= k < |init| && w in init[k].words && Matches(u, WordPattern(s, init[k].lang, w), norm);
        assert init[k] == lists[k];
      }
    }
  }

  /** A word is found exactly when one of the lists holds it and its pattern matches the
      normalised text. */
  lemma AllHitsMembers(u: CharClasses, s: State, text: string, lists: seq<WordList>)
    ensures forall w :: w in AllHits(u, s, text, lists) <==> exists k | 0 <= k < |lists| ::
              w in lists[k].words && Matches(u, WordPattern(s, lists[k].lang, w), LeetText(s.config, s.detectLeetSpeak, text))
  {
    forall w ensures w in AllHits(u, s, text, lists) <==> exists k | 0 <= k < |lists| ::
                       w in lists[k].words && Matches(u, WordPattern(s, lists[k].lang, w), LeetText(s.config, s.detectLeetSpeak, text)) {
      AllHitsMember(u, s, text, lists, w);
    }
  }

  /** What `getProfanityWords` returns. */
  function ProfanityWords(u: CharClasses, s: State, text: string): Result<seq<string>, string>
  {
    match QueryLists(s)
    case Failure(e) => Failure(e)
    case Success(lists) => Success(Dedup(AllHits(u, s, text, lists)))
  }

  /** The extracted words are distinct, and they are exactly the walked words whose pattern
      matches the leet-normalised text. */
  lemma ProfanityWordsExact(u: CharClasses, s: State, text: string)
    requires ProfanityWords(u, s, text).Success?
    ensures Distinct(ProfanityWords(u, s, text).value)
    ensures forall w :: w in ProfanityWords(u, s, text).value <==> exists k | 0 <= k < |DetectLists(s)| ::
              w in DetectLists(s)[k].words
              && Matches(u, WordPattern(s, DetectLists(s)[k].lang, w), LeetText(s.config, s.detectLeetSpeak, text))
  {
    assert QueryLists(s).value == DetectLists(s);
    AllHitsMembers(u, s, text, DetectLists(s));
  }

  /** Whatever the extraction finds, detection reports. */
  lemma ExtractedImpliesProfane(u: CharClasses, s: State, text: string)
    requires ProfanityWords(u, s, text).Success? && ProfanityWords(u, s, text).value != []
    ensures Profane(u, s, text)
  {
    var r := ProfanityWords(u, s, text).value;
    ProfanityWordsExact(u, s, text);
    var lists := DetectLists(s);
    var w := r[0];
    assert w in r;
    var k :| 0 <= k < |lists| && w in lists[k].words
              && Matches(u, WordPattern(s, lists[k].lang, w), LeetText(s.config, s.detectLeetSpeak, text));
    var n :| 0 <= n < |lists[k].words| && lists[k].words[n] == w;
    assert WordHits(u, s, lists[k].lang, lists[k].words[n], text);
  }

  /** With a pinned language whose list is missing, detection finds nothing and the word
      extraction fails. */
  lemma PinnedWithoutList(u: CharClasses, s: State, text: string)
    requires Pinned(s.language).Some? && Lookup(s.wordLists, Pinned(s.language).value).None?
    ensures !Profane(u, s, text)
    ensures ProfanityWords(u, s, text).Failure?
  {
  }

  /** In a language matched without boundaries every occurrence of the word as a plain
      substring of the text is detected. */
  lemma ExemptSubstringDetected(u: CharClasses, s: State, lang: string, word: string, text: string, i: nat)
    requires IsLanguageMatchWithoutBoundaries(s.config, lang)
    requires i + |word| <= |text| && text[i..i + |word|] == word
    ensures WordHits(u, s, lang, word, text)
  {
    var p := WordPattern(s, lang, word);
    var j := i + |word|;
    PlainSpan(u, word, false, !s.caseSensitive, text, i, j);
    forall q | 0 <= q < |word| ensures Same(u, !s.caseSensitive, word[q], text[i + q]) {
      assert text[i..j][q] == text[i + q];
    }
    assert MatchesSpan(u, p, text, i, j);
  }

  /** A case-sensitive filter detects a word of a language with boundaries in the raw text
      exactly when the word occurs there literally with `\b` on both sides. */
  lemma CaseSensitiveRawHit(u: CharClasses, s: State, lang: string, word: string, text: string)
    requires s.caseSensitive && !IsLanguageMatchWithoutBoundaries(s.config, lang)
    ensures Matches(u, WordPattern(s, lang, word), text) <==>
      exists i, j | 0 <= i <= j <= |text| ::
        text[i..j] == word && Boundary(u.isWord, text, i) && Boundary(u.isWord, text, j)
  {
    forall i, j | 0 <= i <= j <= |text|
      ensures MatchesSpan(u, WordPattern(s, lang, word), text, i, j) <==>
        text[i..j] == word && Boundary(u.isWord, text, i) && Boundary(u.isWord, text, j)
    {
      PlainCaseSensitiveSpan(u, word, true, text, i, j);
    }
  }

  /** `a-b` matches itself in the raw text `a-b`, with `\b` at both ends. */
  lemma DashedWordRawHit(u: CharClasses, s: State)
    requires u.isWord('a') && u.isWord('b') && !u.isWord('-')
    requires !s.caseSensitive && s.config.matchWithoutBoundaries == []
    ensures Matches(u, WordPattern(s, "en", "a-b"), "a-b")
  {
    var p := WordPattern(s, "en", "a-b");
    assert p == Plain("a-b", true, true);
    PlainSpan(u, "a-b", true, true, "a-b", 0, 3);
    assert Boundary(u.isWord, "a-b", 0) && Boundary(u.isWord, "a-b", 3);
    assert MatchesSpan(u, p, "a-b", 0, 3);
  }

  /** With `-` as the only separator and no substitutions, `a-b` normalises to `ab`, where
      the word `a-b` cannot match. */
  lemma DashedWordNormalisedMiss(u: CharClasses, s: State)
    requires !s.caseSensitive && s.config.matchWithoutBoundaries == []
    requires s.config.substitutions == [] && s.config.separators == ['-']
    ensures LeetText(s.config, true, "a-b") == "ab"
    ensures !Matches(u, WordPattern(s, "en", "a-b"), LeetText(s.config, true, "a-b"))
  {
    var p := WordPattern(s, "en", "a-b");
    assert p == Plain("a-b", true, true);
    assert DeleteSeparators(['-'], "a-b") == "ab";
    forall i, j | 0 <= i <= j <= 2 ensures !MatchesSpan(u, p, "ab", i, j) {
      PlainSpan(u, "a-b", true, true, "ab", i, j);
    }
  }

  /** The asymmetry between the two queries: with `-` configured as a separator, `a-b` in
      the raw text is detected (the raw text is tried too) but not extracted, since its
      normalised form `ab` no longer holds the word. */
  lemma DetectedButNotExtracted(u: CharClasses, s: State)
    requires u.isWord('a') && u.isWord('b') && !u.isWord('-')
    requires s.language == Some("en") && s.wordLists == [WordList("en", ["a-b"])]
    requires s.detectLeetSpeak && !s.caseSensitive
    requires s.config.substitutions == [] && s.config.separators == ['-']
    requires s.config.matchWithoutBoundaries == []
    ensures Profane(u, s, "a-b")
    ensures ProfanityWords(u, s, "a-b") == Success([])
  {
    var text := "a-b";
    var p := WordPattern(s, "en", "a-b");
    DashedWordRawHit(u, s);
    assert DetectLists(s)[0].words[0] == "a-b";
    assert WordHits(u, s, "en", "a-b", text);
    var norm := LeetText(s.config, true, text);
    DashedWordNormalisedMiss(u, s);
    MatchAllFindsIff(u, p, norm);
    assert HitsIn(u, s, "en", ["a-b"][1..], norm) == [];
    assert HitsIn(u, s, "en", ["a-b"], norm) == [];
    assert AllHits(u, s, text, [WordList("en", ["a-b"])]) == [];
  }

  /** A case-sensitive filter does not see `damn` in `DAMN`, in any language. */
  lemma CaseSensitiveMissesUpperCase(u: CharClasses, s: State, lang: string)
    requires s.caseSensitive
    ensures !Matches(u, WordPattern(s, lang, "damn"), "DAMN")
  {
    PlainMissingLetter(u, "damn", !IsLanguageMatchWithoutBoundaries(s.config, lang), false, "DAMN", 0);
  }

  /** The upper-case test vector with case sensitivity on: with only `damn` listed, `This is
      DAMN` is not flagged, in the raw text nor after leet normalisation, as long as no
      canonical letter holds a `d`. */
  lemma CaseSensitiveIgnoresUpperCase(u: CharClasses, s: State)
    requires s.caseSensitive
    requires DetectLists(s) == [WordList("en", ["damn"])]
    requires forall k | 0 <= k < |s.config.substitutions| :: 'd' !in s.config.substitutions[k].letter
    ensures !Profane(u, s, "This is DAMN")
  {
    var text := "This is DAMN";
    var norm := LeetText(s.config, s.detectLeetSpeak, text);
    assert 'd' !in text;
    if s.detectLeetSpeak {
      LeetKeepsAbsent(s.config, text, 'd');
    }
    var b := !IsLanguageMatchWithoutBoundaries(s.config, "en");
    PlainMissingLetter(u, "damn", b, false, text, 0);
    PlainMissingLetter(u, "damn", b, false, norm, 0);
    assert !WordHits(u, s, "en", "damn", text);
  }

  /** The leet test vector with leet detection off: with only `damn` listed, `This is a d@mn
      test` is not flagged. The case folding only has to keep `a` apart from the text's other
      characters and `m` apart from the space. */
  lemma LeetOffIgnoresDisguise(u: CharClasses, s: State)
    requires !s.detectLeetSpeak
    requires DetectLists(s) == [WordList("en", ["damn"])]
    requires forall c | c in "This is a d@mn test" :: Same(u, !s.caseSensitive, 'a', c) ==> c == 'a'
    requires !Same(u, !s.caseSensitive, 'm', ' ')
    ensures !Profane(u, s, "This is a d@mn test")
  {
    var text := "This is a d@mn test";
    var b := !IsLanguageMatchWithoutBoundaries(s.config, "en");
    var ci := !s.caseSensitive;
    forall i, j | 0 <= i <= j <= |text| ensures !MatchesSpan(u, Plain("damn", b, ci), text, i, j) {
      PlainSpan(u, "damn", b, ci, text, i, j);
      var w := "damn";
      if j == i + 4 && j <= |text| {
        assert w[1] == 'a' && w[2] == 'm';
        if Same(u, ci, 'a', text[i + 1]) {
          assert text[i + 1] in text;
          assert i == 7;
          assert !Same(u, ci, w[2], text[i + 2]);
        } else {
          assert !Same(u, ci, w[1], text[i + 1]);
        }
      }
    }
    assert !WordHits(u, s, "en", "damn", text);
  }

  /** A word written out literally, between two `\b` positions when boundaries are asked
      for, is found by its quoted pattern. */
  lemma PlainFindsWord(u: CharClasses, w: string, b: bool, ci: bool, t: string, i: nat)
    requires i + |w| <= |t| && t[i..i + |w|] == w
    requires b ==> Boundary(u.isWord, t, i) && Boundary(u.isWord, t, i + |w|)
    ensures Matches(u, Plain(w, b, ci), t)
  {
    forall q | 0 <= q < |w| ensures Same(u, ci, w[q], t[i + q]) {
      assert t[i..i + |w|][q] == t[i + q];
    }
    PlainSpan(u, w, b, ci, t, i, i + |w|);
  }

  /** The leet test vector with leet detection on: with only `damn` listed and `@` standing
      for `a`, `This is a d@mn test` is flagged through its leet-normalised text, when `d` and
      `n` are word characters and the space is not. */
  lemma LeetOnSeesDisguise(u: CharClasses, s: State)
    requires s.detectLeetSpeak
    requires DetectLists(s) == [WordList("en", ["damn"])]
    requires s.config.substitutions == [Substitution("a", ["@"])] && s.config.separators == []
    requires u.isWord('d') && u.isWord('n') && !u.isWord(' ')
    ensures Profane(u, s, "This is a d@mn test")
  {
    var p := WordPattern(s, "en", "damn");
    SentenceHasWord(u, p.boundaries, p.caseInsensitive);
    LeetFoldsSentence(s.config);
    assert WordHits(u, s, "en", "damn", "This is a d@mn test");
    assert DetectLists(s)[0].words[0] == "damn";
  }

  lemma SentenceHasWord(u: CharClasses, b: bool, ci: bool)
    requires u.isWord('d') && u.isWord('n') && !u.isWord(' ')
    ensures Matches(u, Plain("damn", b, ci), "This is a damn test")
  {
    var norm := "This is a damn test";
    assert norm[9] == ' ' && norm[10] == 'd' && norm[13] == 'n' && norm[14] == ' ';
    assert norm[10..14] == "damn";
    PlainFindsWord(u, "damn", b, ci, norm, 10);
  }
}
