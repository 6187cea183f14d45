/**
 * The per-language word lists the filter keeps (`$wordLists`, an ordered PHP array keyed by
 * language code) and the state every query reads.
 */
module FilterState {
  import opened Wrappers
  import opened Text
  import opened Settings

  datatype WordList = WordList(lang: string, words: seq<string>)

  /** What the queries of the filter read: its configuration, the pinned language, the two
      flags and the loaded lists. */
  datatype State = State(
    config: Config,
    language: Option<string>,
    caseSensitive: bool,
    detectLeetSpeak: bool,
    wordLists: seq<WordList>)

  function Langs(lists: seq<WordList>): (r: seq<string>)
    ensures |r| == |lists| && forall k | 0 <= k < |lists| :: r[k] == lists[k].lang
  {
    if lists == [] then [] else [lists[0].lang] + Langs(lists[1..])
  }

  /** `$wordLists[$lang]`, `None` when the key is missing. */
  function Lookup(lists: seq<WordList>, lang: string): (r: Option<seq<string>>)
    ensures r.None? <==> lang !in Langs(lists)
  {
    if lists == [] then None
    else if lists[0].lang == lang then Some(lists[0].words)
    else Lookup(lists[1..], lang)
  }

  /** `$wordLists[$lang] = $words`: an existing key keeps its place and gets the new list, a
      new key goes at the end. */
  function Put(lists: seq<WordList>, lang: string, words: seq<string>): seq<WordList>
  {
    if lists == [] then [WordList(lang, words)]
    else if lists[0].lang == lang then [WordList(lang, words)] + lists[1..]
    else [lists[0]] + Put(lists[1..], lang, words)
  }

  lemma LangsCons(x: WordList, rest: seq<WordList>)
    ensures Langs([x] + rest) == [x.lang] + Langs(rest)
  {
    assert ([x] + rest)[1..] == rest;
  }

  lemma LookupCons(x: WordList, rest: seq<WordList>, l: string)
    ensures Lookup([x] + rest, l) == if x.lang == l then Some(x.words) else Lookup(rest, l)
  {
    assert ([x] + rest)[1..] == rest;
  }

  /** After the assignment the key holds the new list and every other key is as before. */
  lemma {:induction false} PutLookup(lists: seq<WordList>, lang: string, words: seq<string>)
    ensures Lookup(Put(lists, lang, words), lang) == Some(words)
    ensures forall l | l != lang :: Lookup(Put(lists, lang, words), l) == Lookup(lists, l)
    decreases |lists|
  {
    if lists != [] {
      var x := lists[0];
      if x.lang == lang {
        forall l ensures Lookup(Put(lists, lang, words), l) == if l == lang then Some(words) else Lookup(lists, l) {
          LookupCons(WordList(lang, words), lists[1..], l);
        }
      } else {
        PutLookup(lists[1..], lang, words);
        forall l ensures Lookup(Put(lists, lang, words), l) == if x.lang == l then Some(x.words) else Lookup(Put(lists[1..], lang, words), l) {
          LookupCons(x, Put(lists[1..], lang, words), l);
        }
      }
    }
  }

  /** The keys after the assignment: as before when `lang` was a key, else `lang` appended. */
  lemma {:induction false} PutLangs(lists: seq<WordList>, lang: string, words: seq<string>)
    ensures Langs(Put(lists, lang, words)) == if lang in Langs(lists) then Langs(lists) else Langs(lists) + [lang]
    decreases |lists|
  {
    if lists != [] {
      var x := lists[0];
      LangsCons(x, lists[1..]);
      assert [x] + lists[1..] == lists;
      if x.lang == lang {
        LangsCons(WordList(lang, words), lists[1..]);
      } else {
        PutLangs(lists[1..], lang, words);
        LangsCons(x, Put(lists[1..], lang, words));
        ConcatAssoc([x.lang], Langs(lists[1..]), [lang]);
      }
    }
  }

  /** After the assignment the key holds the new list, every other key is as before, the
      key set gains `lang`, and keys stay unique. */
  lemma PutFacts(lists: seq<WordList>, lang: string, words: seq<string>)
    ensures Lookup(Put(lists, lang, words), lang) == Some(words)
    ensures forall l | l != lang :: Lookup(Put(lists, lang, words), l) == Lookup(lists, l)
    ensures forall l :: l in Langs(Put(lists, lang, words)) <==> l in Langs(lists) || l == lang
    ensures Distinct(Langs(lists)) ==> Distinct(Langs(Put(lists, lang, words)))
  {
    PutLookup(lists, lang, words);
    PutLangs(lists, lang, words);
  }

  /** `config('profanity-words.'.$lang, [])`: the built-in list of a language, empty when
      there is none. */
  function BuiltIn(builtIn: map<string, seq<string>>, lang: string): seq<string>
  {
    if lang in builtIn then builtIn[lang] else []
  }

  /** The configured custom words of a language; `empty()` makes a missing and an empty
      list alike. */
  function CustomWords(cfg: Config, lang: string): seq<string>
  {
    if lang in cfg.customWords then cfg.customWords[lang] else []
  }

  /** `loadWordsForLanguage`: the built-in words followed by the custom ones, duplicates
      dropped. */
  function LoadWordsForLanguage(builtIn: map<string, seq<string>>, cfg: Config, lang: string): (r: seq<string>)
    ensures Distinct(r)
    ensures forall w :: w in r <==> w in BuiltIn(builtIn, lang) || w in CustomWords(cfg, lang)
  {
    var words := BuiltIn(builtIn, lang);
    var custom := CustomWords(cfg, lang);
    Dedup(if custom != [] then words + custom else words)
  }

  /** The lists `loadWordLists` builds after reading `langs` in order. */
  function WordListsFor(builtIn: map<string, seq<string>>, cfg: Config, langs: seq<string>): seq<WordList>
    decreases |langs|
  {
    if langs == [] then []
    else
      var last := langs[|langs| - 1];
      Put(WordListsFor(builtIn, cfg, langs[..|langs| - 1]), last, LoadWordsForLanguage(builtIn, cfg, last))
  }

  lemma InInit(s: seq<string>, x: string)
    requires x in s && x != s[|s| - 1]
    ensures x in s[..|s| - 1]
  {
    var k :| 0 <= k < |s| && s[k] == x;
    assert s[..|s| - 1][k] == x;
  }

  /** The keys of the loaded lists are the supported languages with repeats dropped. */
  lemma {:induction false} WordListsForLangs(builtIn: map<string, seq<string>>, cfg: Config, langs: seq<string>)
    ensures Langs(WordListsFor(builtIn, cfg, langs)) == Dedup(langs)
    decreases |langs|
  {
    if langs != [] {
      var init := langs[..|langs| - 1];
      var last := langs[|langs| - 1];
      WordListsForLangs(builtIn, cfg, init);
      PutLangs(WordListsFor(builtIn, cfg, init), last, LoadWordsForLanguage(builtIn, cfg, last));
    }
  }

  lemma {:induction false} WordListsForLookup(builtIn: map<string, seq<string>>, cfg: Config, langs: seq<string>)
    ensures forall l | l in langs :: Lookup(WordListsFor(builtIn, cfg, langs), l) == Some(LoadWordsForLanguage(builtIn, cfg, l))
    decreases |langs|
  {
    if langs != [] {
      var init := langs[..|langs| - 1];
      var last := langs[|langs| - 1];
      var prev := WordListsFor(builtIn, cfg, init);
      WordListsForLookup(builtIn, cfg, init);
      PutLookup(prev, last, LoadWordsForLanguage(builtIn, cfg, last));
      assert WordListsFor(builtIn, cfg, langs) == Put(prev, last, LoadWordsForLanguage(builtIn, cfg, last));
      forall l | l in langs ensures Lookup(WordListsFor(builtIn, cfg, langs), l) == Some(LoadWordsForLanguage(builtIn, cfg, l)) {
        if l != last {
          InInit(langs, l);
        }
      }
    }
  }

  /** The loaded lists have exactly the supported languages as keys, each once, and under
      each key the list `loadWordsForLanguage` gives. */
  lemma WordListsForKeys(builtIn: map<string, seq<string>>, cfg: Config, langs: seq<string>)
    ensures Distinct(Langs(WordListsFor(builtIn, cfg, langs)))
    ensures forall l :: l in Langs(WordListsFor(builtIn, cfg, langs)) <==> l in langs
    ensures forall l | l in langs :: Lookup(WordListsFor(builtIn, cfg, langs), l) == Some(LoadWordsForLanguage(builtIn, cfg, l))
  {
    WordListsForLangs(builtIn, cfg, langs);
    WordListsForLookup(builtIn, cfg, langs);
  }

  /** The pinned language as `if ($this->language)` sees it: PHP takes `""` and `"0"` as
      false, so those pin nothing. */
  function Pinned(language: Option<string>): (r: Option<string>)
    ensures r.Some? <==> language.Some? && language.value != "" && language.value != "0"
    ensures r.Some? ==> r == language
  {
    match language
    case None => None
    case Some(l) => if l == "" || l == "0" then None else Some(l)
  }
}
