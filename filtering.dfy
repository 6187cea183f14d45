/**
 * Masking: `filterWithLanguage` and `filter` as functions of the filter's state.
 *
 * For each word of the list, in order, `filterWithLanguage` runs up to three passes over the
 * text as it stands:
 *  - the tolerant pass: the flexible pattern (substitutes and filler allowed) is matched and
 *    every occurrence of each matched substring is masked with `maskWord`;
 *  - the fallback pass, only when the tolerant pattern found nothing in a language with
 *    boundaries: the quoted word is searched in the leet-normalised text and each hit's
 *    quoted form is replaced in the real text by as many replacement characters as it
 *    has characters;
 *  - the accent pass, in a language with boundaries and case-insensitively only: the
 *    accent-folded word is searched in the accent-folded text, and for each hit the piece
 *    of the `\b` split that holds the hit's offset is replaced everywhere by replacement
 *    characters, when it holds a letter.
 */
module Filtering {
  import opened Wrappers
  import opened Text
  import opened Unicode
  import opened Settings
  import opened Normalize
  import opened Accents
  import opened Patterns
  import opened PatternFacts
  import opened Masking
  import opened Tokens
  import opened FilterState

  /** `$matches[0]` of `preg_match_all`. */
  function Matched(u: CharClasses, p: Pattern, t: string): (r: seq<string>)
    ensures |r| == |MatchAll(u, p, t)|
  {
    Found(t, MatchAll(u, p, t))
  }

  /** The inner loop of the tolerant pass: `str_replace($found, maskWord($found), $text)`
      for each found substring in turn. */
  function MaskFound(u: CharClasses, rc: char, text: string, founds: seq<string>): string
    decreases |founds|
  {
    if founds == [] then text
    else MaskFound(u, rc, ReplaceAll(text, founds[0], Mask(u, rc, founds[0])), founds[1..])
  }

  /** Replaces the spans, which the scan delivers in order and without overlap, by `rep`;
      the text before the first span, between spans and after the last is kept. */
  function Splice(t: string, spans: seq<Span>, rep: string, a: nat): string
    requires a <= |t|
    decreases |spans|
  {
    if spans == [] then t[a..]
    else
      var sp := spans[0];
      if a <= sp.start <= sp.end <= |t| then t[a..sp.start] + rep + Splice(t, spans[1..], rep, sp.end)
      else t[a..]
  }

  /** `preg_replace($p, $rep, $t)`. */
  function PregReplace(u: CharClasses, p: Pattern, t: string, rep: string): (r: string)
    ensures !Matches(u, p, t) ==> r == t
    ensures MatchAll(u, p, t) != [] ==>
      var first := MatchAll(u, p, t)[0].start;
      first + |rep| <= |r| && r[..first] == t[..first] && r[first..first + |rep|] == rep
  {
    var spans := MatchAll(u, p, t);
    MatchAllFindsIff(u, p, t);
    if spans == [] then
      assert t[0..] == t;
      Splice(t, spans, rep, 0)
    else
      var r := Splice(t, spans, rep, 0);
      assert r == t[0..spans[0].start] + rep + Splice(t, spans[1..], rep, spans[0].end);
      r
  }

  /** The inner loop of the fallback pass: each hit's quoted pattern `\b<found>\b` is
      replaced in the text by `str_repeat($replacementChar, mb_strlen($found))`. */
  function ReplacePlain(u: CharClasses, rc: char, ci: bool, text: string, founds: seq<string>): string
    decreases |founds|
  {
    if founds == [] then text
    else ReplacePlain(u, rc, ci, PregReplace(u, Plain(founds[0], true, ci), text, Repeat(rc, |founds[0]|)), founds[1..])
  }

  /** The fallback pass for `word`. */
  function Fallback(u: CharClasses, cfg: Config, rc: char, ci: bool, checkLeetSpeak: bool, word: string, text: string): string
  {
    var norm := LeetText(cfg, checkLeetSpeak, text);
    ReplacePlain(u, rc, ci, text, Matched(u, Plain(word, true, ci), norm))
  }

  /** `preg_match('/\p{L}/u', $origWord)` */
  predicate HasLetter(u: CharClasses, w: string)
  {
    exists c | c in w :: u.isLetter(c)
  }

  /** The loop over the split for one hit of the accent pass. */
  function MaskTokenAt(u: CharClasses, rc: char, text: string, pos: nat): string
  {
    match TokenAt(u.isWord, text, pos)
    case None => text
    case Some(tok) => if HasLetter(u, tok) then ReplaceAll(text, tok, Repeat(rc, |tok|)) else text
  }

  function MaskTokens(u: CharClasses, rc: char, text: string, starts: seq<nat>): string
    decreases |starts|
  {
    if starts == [] then text else MaskTokens(u, rc, MaskTokenAt(u, rc, text, starts[0]), starts[1..])
  }

  /** The pattern of the accent pass: the accent-folded word, quoted, with boundaries and
      the `i` flag. */
  function AccentPattern(word: string): Pattern
  {
    Plain(NormalizeAccents(word), true, true)
  }

  /** The accent pass for `word`. The hit offsets are taken in the accent-folded text and
      looked up in the real one. */
  function AccentPass(u: CharClasses, rc: char, word: string, text: string): string
  {
    MaskTokens(u, rc, text, Starts(MatchAll(u, AccentPattern(word), NormalizeAccents(text))))
  }

  /** The substitutions the patterns use: none when leet detection is off. */
  function PatternSubstitutions(cfg: Config, checkLeetSpeak: bool): seq<Substitution>
  {
    if checkLeetSpeak && cfg.substitutions != [] then cfg.substitutions else []
  }

  /** One iteration of `filterWithLanguage`'s loop over the words. */
  function FilterWord(u: CharClasses, cfg: Config, ci: bool, checkLeetSpeak: bool, lang: string, word: string, text: string): string
  {
    var rc := ReplacementChar(cfg);
    var subs := PatternSubstitutions(cfg, checkLeetSpeak);
    if IsLanguageMatchWithoutBoundaries(cfg, lang) then
      MaskFound(u, rc, text, Matched(u, Flexible(word, subs, false, ci), text))
    else
      var found := Matched(u, Flexible(word, subs, true, ci), text);
      var t1 := if found != [] then MaskFound(u, rc, text, found) else Fallback(u, cfg, rc, ci, checkLeetSpeak, word, text);
      if ci then AccentPass(u, rc, word, t1) else t1
  }

  function FilterWords(u: CharClasses, cfg: Config, ci: bool, checkLeetSpeak: bool, lang: string,
                       words: seq<string>, text: string): string
    decreases |words|
  {
    if words == [] then text
    else FilterWords(u, cfg, ci, checkLeetSpeak, lang, words[1..], FilterWord(u, cfg, ci, checkLeetSpeak, lang, words[0], text))
  }

  /** `filterWithLanguage($text, $lang, $checkLeetSpeak, $words)`. */
  function FilterWithLanguage(u: CharClasses, s: State, text: string, lang: string, checkLeetSpeak: bool,
                              words: seq<string>): string
  {
    FilterWords(u, s.config, !s.caseSensitive, checkLeetSpeak, lang, words, text)
  }

  /** The candidate of every language, each computed from the original text. */
  function Candidates(u: CharClasses, s: State, text: string, lists: seq<WordList>): (r: seq<string>)
    ensures |r| == |lists|
    ensures forall k | 0 <= k < |lists| ::
              r[k] == FilterWithLanguage(u, s, text, lists[k].lang, s.detectLeetSpeak, lists[k].words)
  {
    seq(|lists|, k requires 0 <= k < |lists| => FilterWithLanguage(u, s, text, lists[k].lang, s.detectLeetSpeak, lists[k].words))
  }

  /** `filter`'s loop over the languages: a candidate replaces the current choice when it
      holds strictly more replacement characters. */
  function Choose(rc: char, cands: seq<string>, maxCount: nat, filtered: string): string
    decreases |cands|
  {
    if cands == [] then filtered
    else
      var count := Count(cands[0], rc);
      if count > maxCount then Choose(rc, cands[1..], count, cands[0]) else Choose(rc, cands[1..], maxCount, filtered)
  }

  /** What `filter` returns. */
  function Filter(u: CharClasses, s: State, text: string): Result<string, string>
  {
    var rc := ReplacementChar(s.config);
    match Pinned(s.language)
    case None => Success(Choose(rc, Candidates(u, s, text, s.wordLists), 0, text))
    case Some(l) =>
      match Lookup(s.wordLists, l)
      case None => Failure("TypeError: no word list for language '" + l + "'")
      case Some(ws) => Success(FilterWithLanguage(u, s, text, l, s.detectLeetSpeak, ws))
  }

  // ---------------------------------------------------------------------------------------
  // Every pass only ever overwrites characters with the replacement character.

  lemma {:induction false} MaskFoundMasks(u: CharClasses, rc: char, text: string, founds: seq<string>)
    ensures MaskedFrom(rc, text, MaskFound(u, rc, text, founds))
    decreases |founds|
  {
    if founds != [] {
      var f := founds[0];
      var t1 := ReplaceAll(text, f, Mask(u, rc, f));
      MaskAt(u, rc, f);
      ReplaceAllMasks(rc, text, f, Mask(u, rc, f));
      MaskFoundMasks(u, rc, t1, founds[1..]);
      MaskedFromTrans(rc, text, t1, MaskFound(u, rc, t1, founds[1..]));
    }
  }

  lemma {:induction false} SpliceMasks(rc: char, t: string, spans: seq<Span>, rep: string, a: nat)
    requires a <= |t|
    requires forall k | 0 <= k < |spans| :: spans[k].start <= spans[k].end && spans[k].end - spans[k].start == |rep|
    requires forall k | 0 <= k < |rep| :: rep[k] == rc
    ensures MaskedFrom(rc, t[a..], Splice(t, spans, rep, a))
    decreases |spans|
  {
    if spans != [] {
      var sp := spans[0];
      if a <= sp.start <= sp.end <= |t| {
        SpliceMasks(rc, t, spans[1..], rep, sp.end);
        assert t[a..] == t[a..sp.start] + t[sp.start..sp.end] + t[sp.end..];
        MaskedFromConcat(rc, t[a..sp.start], t[sp.start..sp.end], t[a..sp.start], rep);
        MaskedFromConcat(rc, t[a..sp.start] + t[sp.start..sp.end], t[sp.end..], t[a..sp.start] + rep, Splice(t, spans[1..], rep, sp.end));
      }
    }
  }

  /** Every hit of a quoted-word pattern is as long as the word. */
  lemma PlainHitsHaveWordLength(u: CharClasses, w: string, ci: bool, t: string)
    ensures forall k | 0 <= k < |MatchAll(u, Plain(w, true, ci), t)| ::
              MatchAll(u, Plain(w, true, ci), t)[k].start <= MatchAll(u, Plain(w, true, ci), t)[k].end
              && MatchAll(u, Plain(w, true, ci), t)[k].end - MatchAll(u, Plain(w, true, ci), t)[k].start == |w|
  {
    var spans := MatchAll(u, Plain(w, true, ci), t);
    forall k | 0 <= k < |spans| ensures spans[k].start <= spans[k].end && spans[k].end - spans[k].start == |w| {
      PlainSpan(u, w, true, ci, t, spans[k].start, spans[k].end);
    }
  }

  lemma {:induction false} ReplacePlainMasks(u: CharClasses, rc: char, ci: bool, text: string, founds: seq<string>)
    ensures MaskedFrom(rc, text, ReplacePlain(u, rc, ci, text, founds))
    decreases |founds|
  {
    if founds != [] {
      var f := founds[0];
      var t1 := PregReplace(u, Plain(f, true, ci), text, Repeat(rc, |f|));
      PlainHitsHaveWordLength(u, f, ci, text);
      SpliceMasks(rc, text, MatchAll(u, Plain(f, true, ci), text), Repeat(rc, |f|), 0);
      assert text[0..] == text;
      ReplacePlainMasks(u, rc, ci, t1, founds[1..]);
      MaskedFromTrans(rc, text, t1, ReplacePlain(u, rc, ci, t1, founds[1..]));
    }
  }

  lemma {:induction false} MaskTokensMasks(u: CharClasses, rc: char, text: string, starts: seq<nat>)
    ensures MaskedFrom(rc, text, MaskTokens(u, rc, text, starts))
    decreases |starts|
  {
    if starts != [] {
      var t1 := MaskTokenAt(u, rc, text, starts[0]);
      var tok := TokenAt(u.isWord, text, starts[0]);
      if tok.Some? && HasLetter(u, tok.value) {
        ReplaceAllMasks(rc, text, tok.value, Repeat(rc, |tok.value|));
      }
      MaskTokensMasks(u, rc, t1, starts[1..]);
      MaskedFromTrans(rc, text, t1, MaskTokens(u, rc, t1, starts[1..]));
    }
  }

  lemma FilterWordMasks(u: CharClasses, cfg: Config, ci: bool, checkLeetSpeak: bool, lang: string, word: string, text: string)
    ensures MaskedFrom(ReplacementChar(cfg), text, FilterWord(u, cfg, ci, checkLeetSpeak, lang, word, text))
  {
    var rc := ReplacementChar(cfg);
    var subs := PatternSubstitutions(cfg, checkLeetSpeak);
    if IsLanguageMatchWithoutBoundaries(cfg, lang) {
      MaskFoundMasks(u, rc, text, Matched(u, Flexible(word, subs, false, ci), text));
    } else {
      var found := Matched(u, Flexible(word, subs, true, ci), text);
      var t1 := if found != [] then MaskFound(u, rc, text, found) else Fallback(u, cfg, rc, ci, checkLeetSpeak, word, text);
      if found != [] {
        MaskFoundMasks(u, rc, text, found);
      } else {
        var norm := LeetText(cfg, checkLeetSpeak, text);
        ReplacePlainMasks(u, rc, ci, text, Matched(u, Plain(word, true, ci), norm));
      }
      if ci {
        MaskTokensMasks(u, rc, t1, Starts(MatchAll(u, AccentPattern(word), NormalizeAccents(t1))));
        MaskedFromTrans(rc, text, t1, AccentPass(u, rc, word, t1));
      }
    }
  }

  lemma {:induction false} FilterWordsMasks(u: CharClasses, cfg: Config, ci: bool, checkLeetSpeak: bool, lang: string,
                                            words: seq<string>, text: string)
    ensures MaskedFrom(ReplacementChar(cfg), text, FilterWords(u, cfg, ci, checkLeetSpeak, lang, words, text))
    decreases |words|
  {
    if words != [] {
      var t1 := FilterWord(u, cfg, ci, checkLeetSpeak, lang, words[0], text);
      FilterWordMasks(u, cfg, ci, checkLeetSpeak, lang, words[0], text);
      FilterWordsMasks(u, cfg, ci, checkLeetSpeak, lang, words[1..], t1);
      MaskedFromTrans(ReplacementChar(cfg), text, t1, FilterWords(u, cfg, ci, checkLeetSpeak, lang, words[1..], t1));
    }
  }

  /** `filterWithLanguage` keeps the text's length and changes characters only into the
      replacement character, so it never lowers the replacement count. */
  lemma FilterWithLanguageMasks(u: CharClasses, s: State, text: string, lang: string, checkLeetSpeak: bool, words: seq<string>)
    ensures MaskedFrom(ReplacementChar(s.config), text, FilterWithLanguage(u, s, text, lang, checkLeetSpeak, words))
    ensures Count(FilterWithLanguage(u, s, text, lang, checkLeetSpeak, words), ReplacementChar(s.config))
            >= Count(text, ReplacementChar(s.config))
  {
    FilterWordsMasks(u, s.config, !s.caseSensitive, checkLeetSpeak, lang, words, text);
    MaskedFromCount(ReplacementChar(s.config), text, FilterWithLanguage(u, s, text, lang, checkLeetSpeak, words));
  }

  // ---------------------------------------------------------------------------------------
  // The choice among the languages' candidates.

  /** `r` is `cands[k]`, holds more than `floor` replacement characters, more than every
      earlier candidate and no fewer than any later one. */
  predicate FirstMaxAt(rc: char, cands: seq<string>, floor: nat, k: int, r: string)
  {
    && 0 <= k < |cands| && r == cands[k] && Count(r, rc) > floor
    && (forall q | 0 <= q < k :: Count(cands[q], rc) < Count(r, rc))
    && (forall q | k < q < |cands| :: Count(cands[q], rc) <= Count(r, rc))
  }

  predicate AllAtMost(rc: char, cands: seq<string>, bound: nat)
  {
    forall q | 0 <= q < |cands| :: Count(cands[q], rc) <= bound
  }

  lemma FirstMaxShift(rc: char, cands: seq<string>, floor: nat, newFloor: nat, k: int, r: string)
    requires cands != [] && FirstMaxAt(rc, cands[1..], floor, k, r)
    requires Count(cands[0], rc) < Count(r, rc) && newFloor <= floor
    ensures FirstMaxAt(rc, cands, newFloor, k + 1, r)
  {
    forall q | 0 < q < |cands| ensures cands[q] == cands[1..][q - 1] {
    }
  }

  lemma AllAtMostCons(rc: char, cands: seq<string>, bound: nat)
    requires cands != [] && Count(cands[0], rc) <= bound && AllAtMost(rc, cands[1..], bound)
    ensures AllAtMost(rc, cands, bound)
  {
    forall q | 0 < q < |cands| ensures cands[q] == cands[1..][q - 1] {
    }
  }

  /** `r` is the current choice and no candidate beats `maxCount`, or `r` is the first
      candidate with the largest count, above `maxCount`. */
  predicate ChoiceOk(rc: char, cands: seq<string>, maxCount: nat, filtered: string, r: string)
  {
    (r == filtered && AllAtMost(rc, cands, maxCount)) || exists k | 0 <= k < |cands| :: FirstMaxAt(rc, cands, maxCount, k, r)
  }

  /** `Choose` returns the current choice when no candidate beats `maxCount`, and otherwise
      the first candidate with the largest count. */
  lemma {:induction false} ChooseFirstMax(rc: char, cands: seq<string>, maxCount: nat, filtered: string)
    ensures ChoiceOk(rc, cands, maxCount, filtered, Choose(rc, cands, maxCount, filtered))
    decreases |cands|
  {
    if cands != [] {
      var count := Count(cands[0], rc);
      var rest := cands[1..];
      var r := Choose(rc, cands, maxCount, filtered);
      if count > maxCount {
        ChooseFirstMax(rc, rest, count, cands[0]);
        assert r == Choose(rc, rest, count, cands[0]);
        if r == cands[0] && AllAtMost(rc, rest, count) {
          AllAtMostCons(rc, cands, count);
          assert FirstMaxAt(rc, cands, maxCount, 0, r);
        } else {
          var k :| FirstMaxAt(rc, rest, count, k, r);
          FirstMaxShift(rc, cands, count, maxCount, k, r);
          assert FirstMaxAt(rc, cands, maxCount, k + 1, r);
        }
      } else {
        ChooseFirstMax(rc, rest, maxCount, filtered);
        assert r == Choose(rc, rest, maxCount, filtered);
        if r == filtered && AllAtMost(rc, rest, maxCount) {
          AllAtMostCons(rc, cands, maxCount);
        } else {
          var k :| FirstMaxAt(rc, rest, maxCount, k, r);
          FirstMaxShift(rc, cands, maxCount, maxCount, k, r);
          assert FirstMaxAt(rc, cands, maxCount, k + 1, r);
        }
      }
      assert ChoiceOk(rc, cands, maxCount, filtered, r);
    }
  }

  /** Without a pinned language `filter` returns the original text when no language's
      candidate holds a replacement character, and otherwise the first candidate with the
      most of them. With a pinned language it is that language's `filterWithLanguage`. */
  lemma FilterChoice(u: CharClasses, s: State, text: string)
    ensures Pinned(s.language).None? ==>
      var cands := Candidates(u, s, text, s.wordLists);
      var rc := ReplacementChar(s.config);
      Filter(u, s, text).Success? &&
      ( || (Filter(u, s, text).value == text && AllAtMost(rc, cands, 0))
        || exists k :: FirstMaxAt(rc, cands, 0, k, Filter(u, s, text).value))
    ensures Pinned(s.language).Some? && Lookup(s.wordLists, s.language.value).Some? ==>
      Filter(u, s, text) == Success(FilterWithLanguage(u, s, text, s.language.value, s.detectLeetSpeak,
                                                       Lookup(s.wordLists, s.language.value).value))
    ensures Pinned(s.language).Some? && Lookup(s.wordLists, s.language.value).None? ==> Filter(u, s, text).Failure?
  {
    if Pinned(s.language).None? {
      ChooseFirstMax(ReplacementChar(s.config), Candidates(u, s, text, s.wordLists), 0, text);
    }
  }

  /** `filter` only masks: its result has the text's length and differs from the text only
      where it holds the replacement character. */
  lemma FilterMasks(u: CharClasses, s: State, text: string)
    requires Filter(u, s, text).Success?
    ensures MaskedFrom(ReplacementChar(s.config), text, Filter(u, s, text).value)
  {
    var rc := ReplacementChar(s.config);
    FilterChoice(u, s, text);
    if Pinned(s.language).None? {
      var cands := Candidates(u, s, text, s.wordLists);
      var r := Filter(u, s, text).value;
      if !(r == text && AllAtMost(rc, cands, 0)) {
        var k :| FirstMaxAt(rc, cands, 0, k, r);
        FilterWithLanguageMasks(u, s, text, s.wordLists[k].lang, s.detectLeetSpeak, s.wordLists[k].words);
      }
    } else {
      var l := s.language.value;
      FilterWithLanguageMasks(u, s, text, l, s.detectLeetSpeak, Lookup(s.wordLists, l).value);
    }
  }

  // ---------------------------------------------------------------------------------------
  // A text none of whose passes finds anything comes back unchanged.

  /** Nothing in `text` triggers any pass for `word`. */
  predicate Untouched(u: CharClasses, cfg: Config, ci: bool, checkLeetSpeak: bool, lang: string, word: string, text: string)
  {
    var subs := PatternSubstitutions(cfg, checkLeetSpeak);
    if IsLanguageMatchWithoutBoundaries(cfg, lang) then !Matches(u, Flexible(word, subs, false, ci), text)
    else
      && !Matches(u, Flexible(word, subs, true, ci), text)
      && !Matches(u, Plain(word, true, ci), LeetText(cfg, checkLeetSpeak, text))
      && (ci ==> !Matches(u, AccentPattern(word), NormalizeAccents(text)))
  }

  lemma FilterWordUntouched(u: CharClasses, cfg: Config, ci: bool, checkLeetSpeak: bool, lang: string, word: string, text: string)
    requires Untouched(u, cfg, ci, checkLeetSpeak, lang, word, text)
    ensures FilterWord(u, cfg, ci, checkLeetSpeak, lang, word, text) == text
  {
    var subs := PatternSubstitutions(cfg, checkLeetSpeak);
    MatchAllFindsIff(u, Flexible(word, subs, false, ci), text);
    MatchAllFindsIff(u, Flexible(word, subs, true, ci), text);
    MatchAllFindsIff(u, Plain(word, true, ci), LeetText(cfg, checkLeetSpeak, text));
    MatchAllFindsIff(u, AccentPattern(word), NormalizeAccents(text));
  }

  /** A text that no word of the list touches is returned as it is. */
  lemma {:induction false} FilterWordsUntouched(u: CharClasses, cfg: Config, ci: bool, checkLeetSpeak: bool, lang: string,
                                                words: seq<string>, text: string)
    requires forall n | 0 <= n < |words| :: Untouched(u, cfg, ci, checkLeetSpeak, lang, words[n], text)
    ensures FilterWords(u, cfg, ci, checkLeetSpeak, lang, words, text) == text
    decreases |words|
  {
    if words != [] {
      FilterWordUntouched(u, cfg, ci, checkLeetSpeak, lang, words[0], text);
      assert forall n | 0 <= n < |words| - 1 :: words[1..][n] == words[n + 1];
      FilterWordsUntouched(u, cfg, ci, checkLeetSpeak, lang, words[1..], text);
    }
  }

  /** With leet detection off no substitute is tolerated: a word one of whose characters
      (up to case when case-insensitive) occurs nowhere in a text without accented letters
      leaves that text as it is. */
  lemma LeetOffMissingLetter(u: CharClasses, cfg: Config, ci: bool, lang: string, word: string, text: string, n: nat)
    requires n < |word|
    requires forall c | c in text :: !Same(u, ci, word[n], c)
    requires forall c | c in word :: c !in From
    requires forall c | c in text :: c !in From
    ensures FilterWord(u, cfg, ci, false, lang, word, text) == text
  {
    assert PatternSubstitutions(cfg, false) == [];
    FlexibleMissingLetter(u, word, false, ci, text, n);
    FlexibleMissingLetter(u, word, true, ci, text, n);
    PlainMissingLetter(u, word, true, ci, text, n);
    NormalizeKeepsUntouched(word);
    NormalizeKeepsUntouched(text);
    FilterWordUntouched(u, cfg, ci, false, lang, word, text);
  }

  /** `d@mn` survives the word `damn` when leet detection is off, whatever the language,
      provided the case folding keeps `a` apart from `d`, `@`, `m` and `n`. */
  lemma LeetOffKeepsDisguise(u: CharClasses, cfg: Config, ci: bool, lang: string)
    requires forall c | c in "d@mn" :: !Same(u, ci, 'a', c)
    ensures FilterWord(u, cfg, ci, false, lang, "damn", "d@mn") == "d@mn"
  {
    LeetOffMissingLetter(u, cfg, ci, lang, "damn", "d@mn", 1);
  }

  // ---------------------------------------------------------------------------------------
  // The fallback pass never fires
  // ---------------------------------------------------------------------------------------

  /** A quoted `f` that spells `w` character by character, under the case mode, matches only
      where the quoted `w` does. */
  lemma PlainSpelledMatches(u: CharClasses, w: string, f: string, ci: bool, t: string, i: nat, j: nat)
    requires |f| == |w| && forall q | 0 <= q < |w| :: Same(u, ci, w[q], f[q])
    requires MatchesSpan(u, Plain(f, true, ci), t, i, j)
    ensures MatchesSpan(u, Plain(w, true, ci), t, i, j)
  {
    PlainSpan(u, f, true, ci, t, i, j);
    PlainSpan(u, w, true, ci, t, i, j);
  }

  /** Every hit of the quoted word spells the word. */
  lemma PlainHitsSpellWord(u: CharClasses, w: string, ci: bool, norm: string, k: nat)
    requires k < |Matched(u, Plain(w, true, ci), norm)|
    ensures var f := Matched(u, Plain(w, true, ci), norm)[k];
      |f| == |w| && forall q | 0 <= q < |w| :: Same(u, ci, w[q], f[q])
  {
    var sp := MatchAll(u, Plain(w, true, ci), norm)[k];
    PlainSpan(u, w, true, ci, norm, sp.start, sp.end);
  }

  /** Where the quoted `f` that spells `w` matches, the tolerant pattern for `w` matches. */
  lemma SpelledHitIsTolerantHit(u: CharClasses, w: string, f: string, subs: seq<Substitution>, ci: bool, t: string)
    requires |f| == |w| && forall q | 0 <= q < |w| :: Same(u, ci, w[q], f[q])
    ensures Matches(u, Plain(f, true, ci), t) ==> Matches(u, Flexible(w, subs, true, ci), t)
  {
    if Matches(u, Plain(f, true, ci), t) {
      var i, j :| 0 <= i <= j <= |t| && MatchesSpan(u, Plain(f, true, ci), t, i, j);
      PlainSpelledMatches(u, w, f, ci, t, i, j);
      PlainImpliesFlexible(u, w, subs, true, ci, t, i, j);
    }
  }

  /** The fallback's replacements leave a text alone when none of their patterns matches it. */
  lemma {:induction false} ReplacePlainUnchanged(u: CharClasses, rc: char, ci: bool, text: string, founds: seq<string>)
    requires forall k | 0 <= k < |founds| :: !Matches(u, Plain(founds[k], true, ci), text)
    ensures ReplacePlain(u, rc, ci, text, founds) == text
    decreases |founds|
  {
    if founds != [] {
      assert PregReplace(u, Plain(founds[0], true, ci), text, Repeat(rc, |founds[0]|)) == text;
      ReplacePlainUnchanged(u, rc, ci, text, founds[1..]);
    }
  }

  /** The fallback runs only when the tolerant pattern with boundaries found nothing in the
      text, and then it never changes the text: each word it would replace spells the word, so
      the tolerant pattern would have matched there. */
  lemma FallbackIsDead(u: CharClasses, cfg: Config, rc: char, ci: bool, checkLeetSpeak: bool,
                       subs: seq<Substitution>, word: string, text: string)
    requires Matched(u, Flexible(word, subs, true, ci), text) == []
    ensures Fallback(u, cfg, rc, ci, checkLeetSpeak, word, text) == text
  {
    var norm := LeetText(cfg, checkLeetSpeak, text);
    var founds := Matched(u, Plain(word, true, ci), norm);
    MatchAllFindsIff(u, Flexible(word, subs, true, ci), text);
    forall k | 0 <= k < |founds| ensures !Matches(u, Plain(founds[k], true, ci), text) {
      PlainHitsSpellWord(u, word, ci, norm, k);
      SpelledHitIsTolerantHit(u, word, founds[k], subs, ci, text);
    }
    ReplacePlainUnchanged(u, rc, ci, text, founds);
  }

  // ---------------------------------------------------------------------------------------
  // A hit is masked
  // ---------------------------------------------------------------------------------------

  /** `w` still shows a letter or digit that is not the replacement character. */
  predicate Unmasked(u: CharClasses, rc: char, w: string)
  {
    exists q | 0 <= q < |w| :: IsAlnum(u, w[q]) && w[q] != rc
  }

  /** The first substring the tolerant pattern finds occurs in the text where it was found. */
  lemma FirstFoundOccurs(u: CharClasses, p: Pattern, text: string)
    requires Matched(u, p, text) != []
    ensures OccursAt(text, Matched(u, p, text)[0], MatchAll(u, p, text)[0].start)
  {
  }

  /** The tolerant pass masks every letter and digit of the first found substring at the
      leftmost place where that substring occurs; the later substrings only mask more. */
  lemma MaskFoundMasksFirst(u: CharClasses, rc: char, text: string, founds: seq<string>, i: nat)
    requires founds != [] && FirstOccurrence(text, founds[0], i)
    ensures var r := MaskFound(u, rc, text, founds);
      |r| == |text| && forall q | 0 <= q < |founds[0]| && IsAlnum(u, founds[0][q]) :: r[i + q] == rc
  {
    var f := founds[0];
    var m := Mask(u, rc, f);
    var t1 := ReplaceAll(text, f, m);
    ReplaceAllLeftmost(text, f, m, i);
    MaskAt(u, rc, f);
    forall q | 0 <= q < |f| ensures t1[i + q] == m[q] {
      assert t1 == text[..i] + m + ReplaceAll(text[i + |f|..], f, m);
    }
    MaskFoundMasks(u, rc, t1, founds[1..]);
  }

  /** The tolerant pass changes the text when its first found substring shows an unmasked
      letter or digit. */
  lemma MaskFoundChanges(u: CharClasses, rc: char, text: string, founds: seq<string>, i: nat)
    requires founds != [] && OccursAt(text, founds[0], i) && Unmasked(u, rc, founds[0])
    ensures MaskFound(u, rc, text, founds) != text
  {
    var f := founds[0];
    var m := Mask(u, rc, f);
    var t1 := ReplaceAll(text, f, m);
    MaskAt(u, rc, f);
    var q :| 0 <= q < |f| && IsAlnum(u, f[q]) && f[q] != rc;
    assert m[q] != f[q];
    ReplaceAllChanges(text, f, m, i);
    ReplaceAllMasks(rc, text, f, m);
    MaskFoundMasks(u, rc, t1, founds[1..]);
    MaskedFromKeepsChange(rc, text, t1, MaskFound(u, rc, t1, founds[1..]));
  }

  /** Inside a piece of the `\b` split every character is on the same side of `\w`. */
  lemma {:induction false} TokenUniform(isWord: char -> bool, text: string, x: int, y: int, p: int)
    requires IsToken(isWord, text, x, y) && x <= p < y
    ensures isWord(text[p]) == isWord(text[x])
    decreases p - x
  {
    if p > x {
      TokenUniform(isWord, text, x, y, p - 1);
      assert !Boundary(isWord, text, p);
    }
  }

  /** A piece of the `\b` split does not occur overlapping its own start from the left. */
  lemma TokenNoOverlap(isWord: char -> bool, text: string, x: int, y: int, j: nat)
    requires IsToken(isWord, text, x, y) && j < x < j + (y - x)
    ensures !OccursAt(text, text[x..y], j)
  {
    var tok := text[x..y];
    if j + |tok| <= |text| {
      var q := x - 1 - j;
      assert Boundary(isWord, text, x);
      TokenUniform(isWord, text, x, y, x + q);
      assert text[j..j + |tok|][q] == text[x - 1];
      assert tok[q] == text[x + q];
      assert isWord(text[x - 1]) != isWord(text[x + q]);
    }
  }

  /** One hit of the accent pass: the piece of the split that holds it, when it has a letter,
      is all replacement characters afterwards. */
  lemma MaskTokenAtCovers(u: CharClasses, rc: char, text: string, pos: nat, x: int, y: int)
    requires IsToken(u.isWord, text, x, y) && TokenAt(u.isWord, text, pos) == Some(text[x..y])
    requires HasLetter(u, text[x..y])
    ensures var r := MaskTokenAt(u, rc, text, pos);
      |r| == |text| && forall p | x <= p < y :: r[p] == rc
  {
    var tok := text[x..y];
    forall j: nat | j < x && x < j + |tok| ensures !OccursAt(text, tok, j) {
      TokenNoOverlap(u.isWord, text, x, y, j);
    }
    var n, rep := |tok|, Repeat(rc, |tok|);
    SliceOccurs(text, x, y);
    ReplaceAllCovers(text, tok, rep, x);
    var r := ReplaceAll(text, tok, rep);
    assert MaskTokenAt(u, rc, text, pos) == r;
    RunOfReplacement(r, rc, x, n);
  }

  /** A slice equal to a run of the replacement character holds it at each of its places. */
  lemma RunOfReplacement(r: string, rc: char, x: nat, n: nat)
    requires x + n <= |r| && r[x..x + n] == Repeat(rc, n)
    ensures forall p | x <= p < x + n :: r[p] == rc
  {
    forall p | x <= p < x + n ensures r[p] == rc {
      assert r[p] == r[x..x + n][p - x];
    }
  }

  /** `text[x..y]` is the piece of the split holding `pos`, and `r` holds only replacement
      characters there. */
  predicate PieceAt(isWord: char -> bool, rc: char, text: string, pos: nat, r: string, x: int, y: int)
  {
    && x <= pos < y && IsToken(isWord, text, x, y) && TokenAt(isWord, text, pos) == Some(text[x..y])
    && |r| == |text| && forall p | x <= p < y :: r[p] == rc
  }

  /** `r` blanks the whole piece of the split of `text` that holds `pos`. */
  predicate PieceBlanked(isWord: char -> bool, rc: char, text: string, pos: nat, r: string)
  {
    exists x, y | 0 <= x <= pos < y <= |text| :: PieceAt(isWord, rc, text, pos, r, x, y)
  }

  /** The token walk blanks the whole piece of the split that holds its first offset, when
      the piece has a letter. */
  lemma MaskTokensMasksPiece(u: CharClasses, rc: char, text: string, starts: seq<nat>)
    requires starts != [] && TokenAt(u.isWord, text, starts[0]).Some?
    requires HasLetter(u, TokenAt(u.isWord, text, starts[0]).value)
    ensures PieceBlanked(u.isWord, rc, text, starts[0], MaskTokens(u, rc, text, starts))
  {
    TokenAtSpan(u.isWord, text, starts[0]);
    var x, y :| x <= starts[0] < y && IsToken(u.isWord, text, x, y) && TokenAt(u.isWord, text, starts[0]) == Some(text[x..y]);
    var t1 := MaskTokenAt(u, rc, text, starts[0]);
    MaskTokenAtCovers(u, rc, text, starts[0], x, y);
    MaskTokensMasks(u, rc, t1, starts[1..]);
    assert PieceAt(u.isWord, rc, text, starts[0], MaskTokens(u, rc, text, starts), x, y);
  }

  /** One hit of the accent pass changes the text when the piece holding it has a letter
      and a character other than the replacement character. */
  lemma MaskTokenAtChanges(u: CharClasses, rc: char, text: string, pos: nat)
    requires TokenAt(u.isWord, text, pos).Some? && HasLetter(u, TokenAt(u.isWord, text, pos).value)
    requires exists c | c in TokenAt(u.isWord, text, pos).value :: c != rc
    ensures MaskTokenAt(u, rc, text, pos) != text
    ensures MaskedFrom(rc, text, MaskTokenAt(u, rc, text, pos))
  {
    var tok := TokenAt(u.isWord, text, pos).value;
    var rep := Repeat(rc, |tok|);
    var r := ReplaceAll(text, tok, rep);
    assert MaskTokenAt(u, rc, text, pos) == r;
    TokenAtSpan(u.isWord, text, pos);
    var x, y :| x <= pos < y && IsToken(u.isWord, text, x, y) && TokenAt(u.isWord, text, pos) == Some(text[x..y]);
    SliceOccurs(text, x, y);
    var c :| c in tok && c != rc;
    assert rep != tok by {
      var q :| 0 <= q < |tok| && tok[q] == c;
      assert rep[q] == rc;
    }
    ReplaceAllChanges(text, tok, rep, x);
    ReplaceAllMasks(rc, text, tok, rep);
  }

  lemma SliceOccurs(text: string, x: int, y: int)
    requires 0 <= x <= y <= |text| && text[x..y] != []
    ensures OccursAt(text, text[x..y], x)
  {
  }

  /** The token walk changes the text when the piece holding its first offset has a letter
      and a character other than the replacement character. */
  lemma MaskTokensChanges(u: CharClasses, rc: char, text: string, starts: seq<nat>)
    requires starts != [] && TokenAt(u.isWord, text, starts[0]).Some?
    requires HasLetter(u, TokenAt(u.isWord, text, starts[0]).value)
    requires exists c | c in TokenAt(u.isWord, text, starts[0]).value :: c != rc
    ensures MaskTokens(u, rc, text, starts) != text
  {
    var t1, rest := MaskTokenAt(u, rc, text, starts[0]), starts[1..];
    MaskTokenAtChanges(u, rc, text, starts[0]);
    MaskTokensMasks(u, rc, t1, rest);
    MaskedFromKeepsChange(rc, text, t1, MaskTokens(u, rc, t1, rest));
  }

  /** The offsets of the accent pass's hits. */
  function AccentStarts(u: CharClasses, word: string, text: string): seq<nat>
  {
    Starts(MatchAll(u, AccentPattern(word), NormalizeAccents(text)))
  }

  /** The accent pass blanks the whole piece of the split that holds its first hit, when the
      piece has a letter. */
  lemma AccentPassMasksPiece(u: CharClasses, rc: char, word: string, text: string)
    requires AccentStarts(u, word, text) != []
    requires TokenAt(u.isWord, text, AccentStarts(u, word, text)[0]).Some?
    requires HasLetter(u, TokenAt(u.isWord, text, AccentStarts(u, word, text)[0]).value)
    ensures PieceBlanked(u.isWord, rc, text, AccentStarts(u, word, text)[0], AccentPass(u, rc, word, text))
  {
    MaskTokensMasksPiece(u, rc, text, AccentStarts(u, word, text));
  }

  /** The accent pass changes the text when the piece holding its first hit has a letter and
      a character other than the replacement character. */
  lemma AccentPassChanges(u: CharClasses, rc: char, word: string, text: string)
    requires AccentStarts(u, word, text) != []
    requires TokenAt(u.isWord, text, AccentStarts(u, word, text)[0]).Some?
    requires HasLetter(u, TokenAt(u.isWord, text, AccentStarts(u, word, text)[0]).value)
    requires exists c | c in TokenAt(u.isWord, text, AccentStarts(u, word, text)[0]).value :: c != rc
    ensures AccentPass(u, rc, word, text) != text
  {
    MaskTokensChanges(u, rc, text, AccentStarts(u, word, text));
  }

  /** The tolerant pattern finds something whose first hit still shows a letter or digit. */
  predicate TolerantHit(u: CharClasses, cfg: Config, ci: bool, checkLeetSpeak: bool, lang: string, word: string, text: string)
  {
    var p := Flexible(word, PatternSubstitutions(cfg, checkLeetSpeak), !IsLanguageMatchWithoutBoundaries(cfg, lang), ci);
    Matched(u, p, text) != [] && Unmasked(u, ReplacementChar(cfg), Matched(u, p, text)[0])
  }

  /** The accent pass runs, and the piece holding its first hit has a letter and a character
      other than the replacement character. */
  predicate AccentHit(u: CharClasses, cfg: Config, ci: bool, lang: string, word: string, text: string)
  {
    var starts := AccentStarts(u, word, text);
    && !IsLanguageMatchWithoutBoundaries(cfg, lang) && ci && starts != []
    && TokenAt(u.isWord, text, starts[0]).Some?
    && HasLetter(u, TokenAt(u.isWord, text, starts[0]).value)
    && exists c | c in TokenAt(u.isWord, text, starts[0]).value :: c != ReplacementChar(cfg)
  }

  /** A word whose tolerant pattern or accent pass hits something unmasked makes its step of
      `filterWithLanguage` write at least one more replacement character. */
  lemma FilterWordMasksHit(u: CharClasses, cfg: Config, ci: bool, checkLeetSpeak: bool, lang: string, word: string, text: string)
    requires TolerantHit(u, cfg, ci, checkLeetSpeak, lang, word, text) || AccentHit(u, cfg, ci, lang, word, text)
    ensures FilterWord(u, cfg, ci, checkLeetSpeak, lang, word, text) != text
    ensures Count(FilterWord(u, cfg, ci, checkLeetSpeak, lang, word, text), ReplacementChar(cfg)) > Count(text, ReplacementChar(cfg))
  {
    var rc := ReplacementChar(cfg);
    var subs := PatternSubstitutions(cfg, checkLeetSpeak);
    var r := FilterWord(u, cfg, ci, checkLeetSpeak, lang, word, text);
    FilterWordMasks(u, cfg, ci, checkLeetSpeak, lang, word, text);
    if IsLanguageMatchWithoutBoundaries(cfg, lang) {
      var p := Flexible(word, subs, false, ci);
      FirstFoundOccurs(u, p, text);
      MaskFoundChanges(u, rc, text, Matched(u, p, text), MatchAll(u, p, text)[0].start);
    } else {
      var p := Flexible(word, subs, true, ci);
      var found := Matched(u, p, text);
      var t1 := if found != [] then MaskFound(u, rc, text, found) else Fallback(u, cfg, rc, ci, checkLeetSpeak, word, text);
      if TolerantHit(u, cfg, ci, checkLeetSpeak, lang, word, text) {
        FirstFoundOccurs(u, p, text);
        MaskFoundChanges(u, rc, text, found, MatchAll(u, p, text)[0].start);
        if ci {
          MaskFoundMasks(u, rc, text, found);
          MaskTokensMasks(u, rc, t1, Starts(MatchAll(u, AccentPattern(word), NormalizeAccents(t1))));
          MaskedFromKeepsChange(rc, text, t1, r);
        }
      } else {
        if found != [] {
          MaskFoundMasks(u, rc, text, found);
        } else {
          FallbackIsDead(u, cfg, rc, ci, checkLeetSpeak, subs, word, text);
        }
        if t1 != text {
          MaskTokensMasks(u, rc, t1, Starts(MatchAll(u, AccentPattern(word), NormalizeAccents(t1))));
          MaskedFromKeepsChange(rc, text, t1, r);
        } else {
          AccentPassChanges(u, rc, word, text);
        }
      }
    }
    MaskedFromCountStrict(rc, text, r);
  }

  /** When one word's step changes the text, the whole of `filterWithLanguage` does. */
  lemma {:induction false} FilterWordsChanged(u: CharClasses, cfg: Config, ci: bool, checkLeetSpeak: bool, lang: string,
                                              words: seq<string>, text: string, n: nat)
    requires n < |words|
    requires FilterWord(u, cfg, ci, checkLeetSpeak, lang, words[n], text) != text
    ensures FilterWords(u, cfg, ci, checkLeetSpeak, lang, words, text) != text
    decreases |words|
  {
    var rc := ReplacementChar(cfg);
    var t1, rest := FilterWord(u, cfg, ci, checkLeetSpeak, lang, words[0], text), words[1..];
    if t1 != text {
      FilterWordMasks(u, cfg, ci, checkLeetSpeak, lang, words[0], text);
      FilterWordsMasks(u, cfg, ci, checkLeetSpeak, lang, rest, t1);
      MaskedFromKeepsChange(rc, text, t1, FilterWords(u, cfg, ci, checkLeetSpeak, lang, rest, t1));
    } else {
      var m := n - 1;
      TailIndex(words, n);
      FilterWordsChanged(u, cfg, ci, checkLeetSpeak, lang, rest, text, m);
    }
  }

  lemma TailIndex(words: seq<string>, n: nat)
    requires 0 < n < |words|
    ensures words[1..][n - 1] == words[n]
  {
  }

  /** `filterWithLanguage` masks something whenever one word of the list, on the text it is
      given, has a tolerant hit or an accent hit that still shows an unmasked character: the
      result differs from the text and holds more replacement characters. */
  lemma FilterWithLanguageMasksHit(u: CharClasses, s: State, text: string, lang: string, checkLeetSpeak: bool,
                                   words: seq<string>, n: nat)
    requires n < |words|
    requires TolerantHit(u, s.config, !s.caseSensitive, checkLeetSpeak, lang, words[n], text)
          || AccentHit(u, s.config, !s.caseSensitive, lang, words[n], text)
    ensures FilterWithLanguage(u, s, text, lang, checkLeetSpeak, words) != text
    ensures Count(FilterWithLanguage(u, s, text, lang, checkLeetSpeak, words), ReplacementChar(s.config))
            > Count(text, ReplacementChar(s.config))
  {
    var r := FilterWithLanguage(u, s, text, lang, checkLeetSpeak, words);
    FilterWordMasksHit(u, s.config, !s.caseSensitive, checkLeetSpeak, lang, words[n], text);
    FilterWordsChanged(u, s.config, !s.caseSensitive, checkLeetSpeak, lang, words, text, n);
    FilterWordsMasks(u, s.config, !s.caseSensitive, checkLeetSpeak, lang, words, text);
    MaskedFromCountStrict(ReplacementChar(s.config), text, r);
  }
}
