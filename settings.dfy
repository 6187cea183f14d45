/**
 * The `profanity-filter` configuration record the engine is handed. Keys that the source reads
 * with `??` are optional here; the others are plain fields, empty when absent.
 */
module Settings {
  import opened Wrappers

  /** One entry of `substitutions`: a canonical letter and the strings that stand for it. */
  datatype Substitution = Substitution(letter: string, substitutes: seq<string>)

  datatype Config = Config(
    caseSensitive: Option<bool>,              // case_sensitive
    detectLeetSpeak: Option<bool>,            // detect_leet_speak
    replacementCharacter: Option<char>,       // replacement_character
    substitutions: seq<Substitution>,         // substitutions, in configuration order
    separators: seq<char>,                    // separators
    matchWithoutBoundaries: seq<string>,      // languages_match_without_boundaries
    supportedLanguages: seq<string>,          // supported_languages
    customWords: map<string, seq<string>>)    // custom_words

  /** `$config['replacement_character'] ?? '*'` */
  function ReplacementChar(c: Config): char
  {
    c.replacementCharacter.GetOr('*')
  }

  /** `isLanguageMatchWithoutBoundaries`: the language is listed as boundary-exempt. */
  predicate IsLanguageMatchWithoutBoundaries(c: Config, lang: string)
  {
    lang in c.matchWithoutBoundaries
  }

  /** `$substitutions[$char]` for a one-character key; a missing key reads as empty. */
  function SubstitutesOf(subs: seq<Substitution>, ch: char): (r: seq<string>)
    ensures r != [] ==> exists k | 0 <= k < |subs| :: subs[k].letter == [ch] && subs[k].substitutes == r
  {
    if subs == [] then []
    else if subs[0].letter == [ch] then subs[0].substitutes
    else SubstitutesOf(subs[1..], ch)
  }
}
