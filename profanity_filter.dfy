/**
 * The `ProfanityFilter` service object: its configuration, the pinned language, the two
 * flags and the loaded word lists are fields the setters update in place; the queries read
 * them and are proved equal to the functions of `Detection` and `Filtering` on a snapshot
 * of the fields.
 *
 * Laravel's `config()` is not modelled: the configuration and the built-in word lists are
 * given to the constructor, and so are the character classes the patterns rely on.
 */
module Profanity {
  import opened Wrappers
  import opened Text
  import opened Unicode
  import opened Settings
  import opened Normalize
  import opened Accents
  import opened Patterns
  import opened Masking
  import opened Tokens
  import opened FilterState
  import opened Detection
  import Filtering

  class ProfanityFilter {
    const u: CharClasses
    const builtIn: map<string, seq<string>>

    var config: Config
    var language: Option<string>
    var caseSensitive: bool
    var detectLeetSpeak: bool
    var wordLists: seq<WordList>

    function Snapshot(): State
      reads this
    {
      State(config, language, caseSensitive, detectLeetSpeak, wordLists)
    }

    /** The lists are the ones the current configuration loads. */
    ghost predicate Valid()
      reads this
    {
      wordLists == WordListsFor(builtIn, config, config.supportedLanguages)
    }

    /** `__construct()`: the flags default to case-insensitive and leet detection on, no
        language is pinned, and the lists are loaded. */
    constructor (u: CharClasses, builtIn: map<string, seq<string>>, cfg: Config)
      ensures this.u == u && this.builtIn == builtIn && config == cfg && language == None
      ensures caseSensitive == cfg.caseSensitive.GetOr(false)
      ensures detectLeetSpeak == cfg.detectLeetSpeak.GetOr(true)
      ensures Valid()
    {
      this.u := u;
      this.builtIn := builtIn;
      config := cfg;
      language := None;
      caseSensitive := cfg.caseSensitive.GetOr(false);
      detectLeetSpeak := cfg.detectLeetSpeak.GetOr(true);
      wordLists := [];
      new;
      LoadWordLists();
    }

    /** `loadWordLists()`: one list per supported language, in order. */
    method LoadWordLists()
      modifies this`wordLists
      ensures Valid()
    {
      wordLists := [];
      var langs := config.supportedLanguages;
      for i := 0 to |langs|
        invariant wordLists == WordListsFor(builtIn, config, langs[..i])
      {
        assert langs[..i + 1][..i] == langs[..i];
        wordLists := Put(wordLists, langs[i], LoadWordsForLanguage(builtIn, config, langs[i]));
      }
      assert langs[..|langs|] == langs;
    }

    /** `setConfig($config)`: replaces the configuration and reloads the lists; the flags and
        the pinned language are kept. */
    method SetConfig(cfg: Config)
      modifies this`config, this`wordLists
      ensures config == cfg && Valid()
    {
      config := cfg;
      LoadWordLists();
    }

    /** `setLanguage($lang)`: pins a supported language; an unsupported one raises
        `InvalidArgumentException` and leaves the pinned language as it was. */
    method SetLanguage(lang: string) returns (r: Result<(), string>)
      modifies this`language
      ensures lang in config.supportedLanguages ==> r == Success(()) && GetLanguage() == Some(lang)
      ensures lang !in config.supportedLanguages ==>
        r == Failure("Language '" + lang + "' is not supported.") && GetLanguage() == old(GetLanguage())
    {
      if lang !in config.supportedLanguages {
        return Failure("Language '" + lang + "' is not supported.");
      }
      language := Some(lang);
      return Success(());
    }

    /** `getLanguage()` */
    function GetLanguage(): Option<string>
      reads this
    {
      language
    }

    /** `setCaseSensitive($caseSensitive)` */
    method SetCaseSensitive(b: bool)
      modifies this`caseSensitive
      ensures caseSensitive == b
    {
      caseSensitive := b;
    }

    /** `setDetectLeetSpeak($detectLeetSpeak)` */
    method SetDetectLeetSpeak(b: bool)
      modifies this`detectLeetSpeak
      ensures detectLeetSpeak == b
    {
      detectLeetSpeak := b;
    }

    /** `hasProfanity($text)`: some word of the pinned language's list (of every list when none
        is pinned) matches the leet-normalised or the raw text. */
    method HasProfanity(text: string) returns (r: bool)
      ensures r == Profane(u, Snapshot(), text)
    {
      var langs: seq<WordList>;
      if Pinned(language).Some? {
        langs := [WordList(language.value, Lookup(wordLists, language.value).GetOr([]))];
      } else {
        langs := wordLists;
      }
      assert langs == DetectLists(Snapshot());
      var normalizedText := text;
      if detectLeetSpeak {
        normalizedText := NormalizeLeetSpeak(config, text);
      }
      for k := 0 to |langs|
        invariant forall k', n | 0 <= k' < k && 0 <= n < |langs[k'].words| ::
                    !WordHits(u, Snapshot(), langs[k'].lang, langs[k'].words[n], text)
      {
        var noBoundaries := IsLanguageMatchWithoutBoundaries(config, langs[k].lang);
        var words := langs[k].words;
        for n := 0 to |words|
          invariant forall n' | 0 <= n' < n :: !WordHits(u, Snapshot(), langs[k].lang, words[n'], text)
        {
          var pattern := Plain(words[n], !noBoundaries, !caseSensitive);
          if Matches(u, pattern, normalizedText) || Matches(u, pattern, text) {
            assert WordHits(u, Snapshot(), langs[k].lang, langs[k].words[n], text);
            return true;
          }
        }
      }
      return false;
    }

    /** `getProfanityWordsForLanguage($text, $lang, $checkLeetSpeak, $words)`: the words, in
        order, whose pattern matches the leet-normalised text. */
    method GetProfanityWordsForLanguage(text: string, lang: string, checkLeetSpeak: bool, words: seq<string>)
      returns (found: seq<string>)
      ensures found == WordsForLanguage(u, Snapshot(), text, lang, checkLeetSpeak, words)
    {
      found := [];
      var normalizedText := text;
      if checkLeetSpeak {
        normalizedText := NormalizeLeetSpeak(config, text);
      }
      ghost var st := Snapshot();
      var noBoundaries := IsLanguageMatchWithoutBoundaries(config, lang);
      for i := 0 to |words|
        invariant found + HitsIn(u, st, lang, words[i..], normalizedText) == HitsIn(u, st, lang, words, normalizedText)
      {
        var pattern := Plain(words[i], !noBoundaries, !caseSensitive);
        var hit := PregMatch(u, pattern, normalizedText);
        HitsInLoopStep(u, st, lang, words, normalizedText, i, found, hit);
        if hit {
          found := found + [words[i]];
        }
      }
      assert words[|words|..] == [];
      assert found + [] == found;
    }

    /** `getProfanityWords($text)`: the words found language by language, duplicates
        dropped; a pinned language without a list is a TypeError in the source. */
    method GetProfanityWords(text: string) returns (r: Result<seq<string>, string>)
      ensures r == ProfanityWords(u, Snapshot(), text)
      ensures Valid() && (language.Some? ==> language.value in config.supportedLanguages) ==> r.Success?
    {
      if Valid() && (language.Some? ==> language.value in config.supportedLanguages) {
        SupportedPinnedSucceeds(u, builtIn, Snapshot(), text);
      }
      var langs: seq<WordList>;
      if Pinned(language).Some? {
        var l := language.value;
        match Lookup(wordLists, l)
        case None =>
          return Failure("TypeError: no word list for language '" + l + "'");
        case Some(ws) =>
          langs := [WordList(l, ws)];
      } else {
        langs := wordLists;
      }
      assert QueryLists(Snapshot()) == Success(langs);
      var found := [];
      for i := 0 to |langs|
        invariant found == AllHits(u, Snapshot(), text, langs[..i])
      {
        assert langs[..i + 1][..i] == langs[..i];
        var hits := GetProfanityWordsForLanguage(text, langs[i].lang, detectLeetSpeak, langs[i].words);
        found := found + hits;
      }
      assert langs[..|langs|] == langs;
      return Success(Dedup(found));
    }

    /** The inner loop of the tolerant pass. */
    method MaskMatches(rc: char, text: string, founds: seq<string>) returns (t: string)
      ensures t == Filtering.MaskFound(u, rc, text, founds)
      ensures MaskedFrom(rc, text, t)
      ensures forall i: nat | founds != [] && FirstOccurrence(text, founds[0], i) ::
                forall q | 0 <= q < |founds[0]| && IsAlnum(u, founds[0][q]) :: t[i + q] == rc
      ensures founds != [] && Filtering.Unmasked(u, rc, founds[0]) && Occurs(text, founds[0]) ==> t != text
    {
      t := text;
      for i := 0 to |founds|
        invariant Filtering.MaskFound(u, rc, t, founds[i..]) == Filtering.MaskFound(u, rc, text, founds)
      {
        assert founds[i..][1..] == founds[i + 1..];
        var masked := MaskWord(u, founds[i], rc);
        t := ReplaceAll(t, founds[i], masked);
      }
      Filtering.MaskFoundMasks(u, rc, text, founds);
      forall i: nat | founds != [] && FirstOccurrence(text, founds[0], i)
        ensures forall q | 0 <= q < |founds[0]| && IsAlnum(u, founds[0][q]) :: t[i + q] == rc
      {
        Filtering.MaskFoundMasksFirst(u, rc, text, founds, i);
      }
      if founds != [] && Filtering.Unmasked(u, rc, founds[0]) && Occurs(text, founds[0]) {
        var i: nat :| OccursAt(text, founds[0], i);
        Filtering.MaskFoundChanges(u, rc, text, founds, i);
      }
    }

    /** The inner loop of the fallback pass. */
    method ReplacePlainMatches(rc: char, ci: bool, text: string, founds: seq<string>) returns (t: string)
      ensures t == Filtering.ReplacePlain(u, rc, ci, text, founds)
    {
      t := text;
      for i := 0 to |founds|
        invariant Filtering.ReplacePlain(u, rc, ci, t, founds[i..]) == Filtering.ReplacePlain(u, rc, ci, text, founds)
      {
        assert founds[i..][1..] == founds[i + 1..];
        var replacePattern := Plain(founds[i], true, ci);
        t := Filtering.PregReplace(u, replacePattern, t, Repeat(rc, |founds[i]|));
      }
    }

    /** The loop of the accent pass over the hit offsets: the piece of the split holding
        each offset is masked wherever it occurs, when it holds a letter. */
    method MaskAccentMatches(rc: char, text: string, starts: seq<nat>) returns (t: string)
      ensures t == Filtering.MaskTokens(u, rc, text, starts)
      ensures MaskedFrom(rc, text, t)
      ensures starts != [] && TokenAt(u.isWord, text, starts[0]).Some?
              && Filtering.HasLetter(u, TokenAt(u.isWord, text, starts[0]).value)
              ==> Filtering.PieceBlanked(u.isWord, rc, text, starts[0], t)
    {
      t := text;
      for i := 0 to |starts|
        invariant Filtering.MaskTokens(u, rc, t, starts[i..]) == Filtering.MaskTokens(u, rc, text, starts)
      {
        assert starts[i..][1..] == starts[i + 1..];
        var origWord := FindOriginalWord(u.isWord, t, starts[i]);
        if origWord.Some? && Filtering.HasLetter(u, origWord.value) {
          t := ReplaceAll(t, origWord.value, Repeat(rc, |origWord.value|));
        }
      }
      Filtering.MaskTokensMasks(u, rc, text, starts);
      if starts != [] && TokenAt(u.isWord, text, starts[0]).Some?
         && Filtering.HasLetter(u, TokenAt(u.isWord, text, starts[0]).value) {
        Filtering.MaskTokensMasksPiece(u, rc, text, starts);
      }
    }

    /** One iteration of `filterWithLanguage`'s loop over the words. */
    method FilterOneWord(text: string, lang: string, word: string, subs: seq<Substitution>, checkLeetSpeak: bool)
      returns (r: string)
      requires subs == Filtering.PatternSubstitutions(config, checkLeetSpeak)
      ensures r == Filtering.FilterWord(u, config, !caseSensitive, checkLeetSpeak, lang, word, text)
      ensures MaskedFrom(ReplacementChar(config), text, r)
      ensures Filtering.TolerantHit(u, config, !caseSensitive, checkLeetSpeak, lang, word, text)
              || Filtering.AccentHit(u, config, !caseSensitive, lang, word, text)
              ==> Count(r, ReplacementChar(config)) > Count(text, ReplacementChar(config))
    {
      r := FilterOneWordSteps(text, lang, word, subs, checkLeetSpeak);
      Filtering.FilterWordMasks(u, config, !caseSensitive, checkLeetSpeak, lang, word, text);
      if Filtering.TolerantHit(u, config, !caseSensitive, checkLeetSpeak, lang, word, text)
         || Filtering.AccentHit(u, config, !caseSensitive, lang, word, text) {
        Filtering.FilterWordMasksHit(u, config, !caseSensitive, checkLeetSpeak, lang, word, text);
      }
    }

    /** The passes of one word, step by step. */
    method FilterOneWordSteps(text: string, lang: string, word: string, subs: seq<Substitution>, checkLeetSpeak: bool)
      returns (r: string)
      requires subs == Filtering.PatternSubstitutions(config, checkLeetSpeak)
      ensures r == Filtering.FilterWord(u, config, !caseSensitive, checkLeetSpeak, lang, word, text)
    {
      var rc := ReplacementChar(config);
      var ci := !caseSensitive;
      r := text;
      if IsLanguageMatchWithoutBoundaries(config, lang) {
        var pattern := BuildFlexiblePattern(word, subs, false, ci);
        var spans := MatchAll(u, pattern, r);
        if spans != [] {
          r := MaskMatches(rc, r, Found(r, spans));
        }
        return;
      }
      var pattern := BuildFlexiblePattern(word, subs, true, ci);
      var spans := MatchAll(u, pattern, r);
      if spans != [] {
        r := MaskMatches(rc, r, Found(r, spans));
      } else {
        var plainPattern := Plain(word, true, ci);
        var normalizedText := r;
        if checkLeetSpeak {
          normalizedText := NormalizeLeetSpeak(config, r);
        }
        var hits := MatchAll(u, plainPattern, normalizedText);
        if hits != [] {
          r := ReplacePlainMatches(rc, ci, r, Found(normalizedText, hits));
        }
      }
      if ci {
        var normWord := NormalizeAccents(word);
        var normPattern := Plain(normWord, true, true);
        var matches := MatchAll(u, normPattern, NormalizeAccents(r));
        if matches != [] {
          r := MaskAccentMatches(rc, r, Starts(matches));
        }
      }
    }

    /** `filterWithLanguage($text, $lang, $checkLeetSpeak, $words)`. */
    method FilterWithLanguage(text: string, lang: string, checkLeetSpeak: bool, words: seq<string>) returns (r: string)
      ensures r == Filtering.FilterWithLanguage(u, Snapshot(), text, lang, checkLeetSpeak, words)
      ensures MaskedFrom(ReplacementChar(config), text, r)
      ensures (exists n | 0 <= n < |words| ::
                 Filtering.TolerantHit(u, config, !caseSensitive, checkLeetSpeak, lang, words[n], text)
                 || Filtering.AccentHit(u, config, !caseSensitive, lang, words[n], text))
              ==> Count(r, ReplacementChar(config)) > Count(text, ReplacementChar(config))
    {
      var subs := if checkLeetSpeak && config.substitutions != [] then config.substitutions else [];
      r := text;
      for i := 0 to |words|
        invariant Filtering.FilterWords(u, config, !caseSensitive, checkLeetSpeak, lang, words[i..], r)
                  == Filtering.FilterWords(u, config, !caseSensitive, checkLeetSpeak, lang, words, text)
      {
        assert words[i..][1..] == words[i + 1..];
        r := FilterOneWord(r, lang, words[i], subs, checkLeetSpeak);
      }
      assert words[|words|..] == [];
      Filtering.FilterWithLanguageMasks(u, Snapshot(), text, lang, checkLeetSpeak, words);
      if n :| 0 <= n < |words| &&
             (Filtering.TolerantHit(u, config, !caseSensitive, checkLeetSpeak, lang, words[n], text)
              || Filtering.AccentHit(u, config, !caseSensitive, lang, words[n], text)) {
        Filtering.FilterWithLanguageMasksHit(u, Snapshot(), text, lang, checkLeetSpeak, words, n);
      }
    }

    /** `filter($text)`: with a pinned language, that language's `filterWithLanguage`; without
        one, the candidate of the first language holding the most replacement characters,
        or the text itself when none holds any. */
    method Filter(text: string) returns (r: Result<string, string>)
      ensures r == Filtering.Filter(u, Snapshot(), text)
      ensures Valid() && (language.Some? ==> language.value in config.supportedLanguages) ==> r.Success?
    {
      if Valid() && (language.Some? ==> language.value in config.supportedLanguages) {
        SupportedPinnedSucceeds(u, builtIn, Snapshot(), text);
      }
      var rc := ReplacementChar(config);
      if Pinned(language).None? {
        ghost var cands := Filtering.Candidates(u, Snapshot(), text, wordLists);
        var maxCount: nat := 0;
        var filteredText := text;
        for k := 0 to |wordLists|
          invariant Filtering.Choose(rc, cands[k..], maxCount, filteredText) == Filtering.Choose(rc, cands, 0, text)
        {
          assert cands[k..][1..] == cands[k + 1..];
          var candidate := FilterWithLanguage(text, wordLists[k].lang, detectLeetSpeak, wordLists[k].words);
          var count := Count(candidate, rc);
          if count > maxCount {
            filteredText := candidate;
            maxCount := count;
          }
        }
        return Success(filteredText);
      }
      var l := language.value;
      match Lookup(wordLists, l)
      case None =>
        return Failure("TypeError: no word list for language '" + l + "'");
      case Some(ws) =>
        var filtered := FilterWithLanguage(text, l, detectLeetSpeak, ws);
        return Success(filtered);
    }
  }

  /** While the lists are the ones the configuration loads, a pinned language that is
      supported always has a list, so `filter` and `getProfanityWords` succeed. They fail
      only when `setConfig` has dropped the pinned language from the supported ones. */
  lemma SupportedPinnedSucceeds(u: CharClasses, builtIn: map<string, seq<string>>, s: State, text: string)
    requires s.wordLists == WordListsFor(builtIn, s.config, s.config.supportedLanguages)
    requires s.language.Some? ==> s.language.value in s.config.supportedLanguages
    ensures Filtering.Filter(u, s, text).Success?
    ensures ProfanityWords(u, s, text).Success?
  {
    WordListsForKeys(builtIn, s.config, s.config.supportedLanguages);
  }
}
