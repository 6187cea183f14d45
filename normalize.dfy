/**
 * The two text normalisers of the filter: leet-speak folding with separator removal, and the
 * fixed accent-folding table.
 */
module Normalize {
  import opened Text
  import opened Settings

  // ---------------------------------------------------------------------------------------
  // Leet speak
  // ---------------------------------------------------------------------------------------

  /** `str_replace($needles, $rep, $s)` with an array of needles: one full pass per needle,
      in order, each on the result of the previous one. */
  function ReplaceEach(s: string, needles: seq<string>, rep: string): string
    decreases |needles|
  {
    if needles == [] then s else ReplaceEach(ReplaceAll(s, needles[0], rep), needles[1..], rep)
  }

  /** The substitution loop of `normalizeLeetSpeak`: every entry's substitutes are replaced by
      its letter, entry after entry. */
  function Substituted(subs: seq<Substitution>, s: string): string
    decreases |subs|
  {
    if subs == [] then s else Substituted(subs[1..], ReplaceEach(s, subs[0].substitutes, subs[0].letter))
  }

  /** `preg_replace('/[<separators>]+/', '', $s)`: every run of separators disappears. */
  function DeleteSeparators(seps: seq<char>, s: string): (r: string)
    ensures forall c :: c in r <==> c in s && c !in seps
    ensures |r| <= |s|
    ensures (forall c | c in s :: c !in seps) ==> r == s
  {
    if s == [] then []
    else
      assert forall c :: c in s <==> c == s[0] || c in s[1..];
      (if s[0] in seps then [] else [s[0]]) + DeleteSeparators(seps, s[1..])
  }

  /** Deleting separators works piece by piece: what is kept of a text, in order and with
      repeats, is what is kept of its two halves. */
  lemma {:induction false} DeleteSeparatorsConcat(seps: seq<char>, a: string, b: string)
    ensures DeleteSeparators(seps, a + b) == DeleteSeparators(seps, a) + DeleteSeparators(seps, b)
  {
    if a == [] {
      assert a + b == b;
    } else {
      assert (a + b)[0] == a[0] && (a + b)[1..] == a[1..] + b;
      DeleteSeparatorsConcat(seps, a[1..], b);
      ConcatAssoc(if a[0] in seps then [] else [a[0]], DeleteSeparators(seps, a[1..]), DeleteSeparators(seps, b));
    }
  }

  /** The class `[\s.\-_,;:!?]` of the default collapse; without the u flag `\s` is ASCII
      white space. */
  predicate IsCollapsible(c: char)
  {
    c == ' ' || c == '\t' || c == '\n' || c == '\U{000B}' || c == '\U{000C}' || c == '\r'
    || c == '.' || c == '-' || c == '_' || c == ',' || c == ';' || c == ':' || c == '!' || c == '?'
  }

  /** Drops the collapsible characters at the front. */
  function SkipRun(s: string): (r: string)
    ensures |r| <= |s|
    ensures r != [] ==> !IsCollapsible(r[0])
  {
    if s != [] && IsCollapsible(s[0]) then SkipRun(s[1..]) else s
  }

  /** `preg_replace('/[\s.\-_,;:!?]+/', ' ', $s)`: a maximal run becomes one space. */
  function CollapseRuns(s: string): string
    decreases |s|
  {
    if s == [] then []
    else if IsCollapsible(s[0]) then [' '] + CollapseRuns(SkipRun(s[1..]))
    else [s[0]] + CollapseRuns(s[1..])
  }

  /** `normalizeLeetSpeak($text)` under configuration `cfg`. */
  function LeetNormalized(cfg: Config, s: string): string
  {
    var t := if cfg.substitutions != [] then Substituted(cfg.substitutions, s) else s;
    if cfg.separators != [] then DeleteSeparators(cfg.separators, t) else CollapseRuns(t)
  }

  /** The text the words are searched in after leet normalisation, when it is on. */
  function LeetText(cfg: Config, checkLeetSpeak: bool, text: string): string
  {
    if checkLeetSpeak then LeetNormalized(cfg, text) else text
  }

  /** The loop of `normalizeLeetSpeak`: rewrites the text once per substitution entry, then
      removes or collapses separators. */
  method NormalizeLeetSpeak(cfg: Config, text: string) returns (r: string)
    ensures r == LeetNormalized(cfg, text)
  {
    r := text;
    if cfg.substitutions != [] {
      var i := 0;
      while i < |cfg.substitutions|
        invariant 0 <= i <= |cfg.substitutions|
        invariant Substituted(cfg.substitutions[i..], r) == Substituted(cfg.substitutions, text)
      {
        var entry := cfg.substitutions[i];
        r := ReplaceEach(r, entry.substitutes, entry.letter);
        assert cfg.substitutions[i..][1..] == cfg.substitutions[i + 1..];
        i := i + 1;
      }
    }
    if cfg.separators != [] {
      r := DeleteSeparators(cfg.separators, r);
    } else {
      r := CollapseRuns(r);
    }
  }

  /** With separators configured, none survives the normalisation, and every other character
      does. */
  lemma LeetRemovesSeparators(cfg: Config, s: string)
    requires cfg.separators != []
    ensures forall c :: c in LeetNormalized(cfg, s) ==> c !in cfg.separators
    ensures forall c :: c in s && c !in cfg.separators && c !in Flat(cfg.substitutions) ==> c in LeetNormalized(cfg, s)
  {
    var t := if cfg.substitutions != [] then Substituted(cfg.substitutions, s) else s;
    forall c | c in s && c !in Flat(cfg.substitutions) ensures c in t {
      SubstitutedKeeps(cfg.substitutions, s, c);
    }
  }

  /** Every character of every substitute string. */
  function Flat(subs: seq<Substitution>): (r: string)
    ensures forall k, m | 0 <= k < |subs| && m in subs[k].substitutes :: forall c :: c in m ==> c in r
  {
    if subs == [] then [] else Concat(subs[0].substitutes) + Flat(subs[1..])
  }

  /** A character of the subject that no needle can touch is still there afterwards. */
  lemma {:induction false} ReplaceAllKeeps(s: string, needle: string, rep: string, c: char)
    requires c in s && c !in needle
    ensures c in ReplaceAll(s, needle, rep)
  {
    if needle == [] || |s| < |needle| {
    } else if s[..|needle|] == needle {
      var i :| 0 <= i < |s| && s[i] == c;
      assert |needle| <= i;
      assert s[|needle|..][i - |needle|] == c;
      ReplaceAllKeeps(s[|needle|..], needle, rep, c);
    } else if s[0] != c {
      assert c in s[1..];
      ReplaceAllKeeps(s[1..], needle, rep, c);
    }
  }

  lemma {:induction false} SubstitutedKeeps(subs: seq<Substitution>, s: string, c: char)
    requires c in s && c !in Flat(subs)
    ensures c in Substituted(subs, s)
  {
    if subs != [] {
      ReplaceEachKeeps(s, subs[0].substitutes, subs[0].letter, c);
      SubstitutedKeeps(subs[1..], ReplaceEach(s, subs[0].substitutes, subs[0].letter), c);
    }
  }

  lemma {:induction false} ReplaceEachKeeps(s: string, needles: seq<string>, rep: string, c: char)
    requires c in s && c !in Concat(needles)
    ensures c in ReplaceEach(s, needles, rep)
    decreases |needles|
  {
    if needles != [] {
      ReplaceAllKeeps(s, needles[0], rep, c);
      ReplaceEachKeeps(ReplaceAll(s, needles[0], rep), needles[1..], rep, c);
    }
  }

  /** Without separators, what remains of any separator run is one space: no two characters of
      the class are adjacent and every one of them is a space. */
  lemma LeetCollapsesRuns(cfg: Config, s: string)
    requires cfg.separators == []
    ensures var r := LeetNormalized(cfg, s);
      (forall k | 0 <= k < |r| - 1 :: !(IsCollapsible(r[k]) && IsCollapsible(r[k + 1])))
      && (forall k | 0 <= k < |r| && IsCollapsible(r[k]) :: r[k] == ' ')
  {
    var t := if cfg.substitutions != [] then Substituted(cfg.substitutions, s) else s;
    assert LeetNormalized(cfg, s) == CollapseRuns(t);
    CollapseShape(t);
  }

  lemma {:induction false} CollapseHead(s: string)
    ensures (CollapseRuns(s) == []) == (s == [])
    ensures s != [] ==> (IsCollapsible(CollapseRuns(s)[0]) <==> IsCollapsible(s[0]))
  {
  }

  lemma {:induction false} CollapseShape(s: string)
    ensures var r := CollapseRuns(s);
      (forall k | 0 <= k < |r| - 1 :: !(IsCollapsible(r[k]) && IsCollapsible(r[k + 1])))
      && (forall k | 0 <= k < |r| && IsCollapsible(r[k]) :: r[k] == ' ')
    decreases |s|
  {
    if s != [] {
      var rest := if IsCollapsible(s[0]) then SkipRun(s[1..]) else s[1..];
      CollapseShape(rest);
      CollapseHead(rest);
      var r := CollapseRuns(s);
      assert r[1..] == CollapseRuns(rest);
    }
  }

  /** Skipping a run drops a prefix; it drops everything only when the text is all run, and
      then it goes on into what follows. */
  lemma {:induction false} SkipRunConcat(a: string, b: string)
    ensures SkipRun(a) == a[|a| - |SkipRun(a)|..]
    ensures SkipRun(a) == [] ==> forall k | 0 <= k < |a| :: IsCollapsible(a[k])
    ensures SkipRun(a + b) == if SkipRun(a) == [] then SkipRun(b) else SkipRun(a) + b
  {
    if a == [] {
      assert a + b == b;
    } else if IsCollapsible(a[0]) {
      assert (a + b)[0] == a[0] && (a + b)[1..] == a[1..] + b;
      SkipRunConcat(a[1..], b);
      assert a[1..][|a| - 1 - |SkipRun(a)|..] == a[|a| - |SkipRun(a)|..];
      assert forall k | 1 <= k < |a| :: a[k] == a[1..][k - 1];
    } else {
      assert (a + b)[0] == a[0];
    }
  }

  /** A nonempty run of class characters, and nothing else, becomes exactly one space. */
  lemma {:induction false} CollapseRunIsSpace(r: string)
    requires r != [] && forall k | 0 <= k < |r| :: IsCollapsible(r[k])
    ensures CollapseRuns(r) == " "
  {
    SkipWholeRun(r[1..]);
  }

  lemma {:induction false} SkipWholeRun(r: string)
    requires forall k | 0 <= k < |r| :: IsCollapsible(r[k])
    ensures SkipRun(r) == []
  {
    if r != [] {
      SkipWholeRun(r[1..]);
    }
  }

  /** Collapsing a text cut anywhere but inside a run is collapsing the two pieces: each run
      becomes its one space and nothing else moves. */
  lemma {:induction false} CollapseRunsConcat(x: string, y: string)
    requires x == [] || y == [] || !(IsCollapsible(x[|x| - 1]) && IsCollapsible(y[0]))
    ensures CollapseRuns(x + y) == CollapseRuns(x) + CollapseRuns(y)
    decreases |x|, 1
  {
    if x == [] {
      assert x + y == y;
    } else if IsCollapsible(x[0]) {
      CollapseRunsConcatRun(x, y);
    } else {
      CollapseRunsConcatLetter(x, y);
    }
  }

  /** `CollapseRunsConcat` when `x` starts with a character outside the class. */
  lemma {:induction false} CollapseRunsConcatLetter(x: string, y: string)
    requires x != [] && !IsCollapsible(x[0])
    requires y == [] || !(IsCollapsible(x[|x| - 1]) && IsCollapsible(y[0]))
    ensures CollapseRuns(x + y) == CollapseRuns(x) + CollapseRuns(y)
    decreases |x|, 0
  {
    var a := x[1..];
    assert (x + y)[0] == x[0] && (x + y)[1..] == a + y;
    if a != [] {
      assert a[|a| - 1] == x[|x| - 1];
    }
    CollapseRunsConcat(a, y);
    ConcatAssoc([x[0]], CollapseRuns(a), CollapseRuns(y));
  }

  /** Where skipping a run of a nonempty text ends, as far as its last character goes. */
  lemma SkipRunLast(a: string)
    requires a != []
    ensures SkipRun(a) == [] ==> IsCollapsible(a[|a| - 1])
    ensures SkipRun(a) != [] ==> SkipRun(a)[|SkipRun(a)| - 1] == a[|a| - 1]
  {
    SkipRunConcat(a, []);
    var sk := SkipRun(a);
    if sk != [] {
      assert sk[|sk| - 1] == a[|a| - 1];
    }
  }

  lemma SkipRunAppend(a: string, y: string)
    ensures SkipRun(a + y) == if SkipRun(a) == [] then SkipRun(y) else SkipRun(a) + y
  {
    SkipRunConcat(a, y);
  }

  lemma CollapseRunsHeadRun(z: string)
    requires z != [] && IsCollapsible(z[0])
    ensures CollapseRuns(z) == [' '] + CollapseRuns(SkipRun(z[1..]))
  {
  }

  /** `CollapseRunsConcat` when `x` starts with a run. */
  lemma {:induction false} CollapseRunsConcatRun(x: string, y: string)
    requires x != [] && IsCollapsible(x[0])
    requires y == [] || !(IsCollapsible(x[|x| - 1]) && IsCollapsible(y[0]))
    ensures CollapseRuns(x + y) == CollapseRuns(x) + CollapseRuns(y)
    decreases |x|, 0
  {
    var a := x[1..];
    var sk := SkipRun(a);
    assert (x + y)[0] == x[0] && (x + y)[1..] == a + y;
    CollapseRunsHeadRun(x + y);
    CollapseRunsHeadRun(x);
    SkipRunAppend(a, y);
    if a != [] {
      assert a[|a| - 1] == x[|x| - 1];
      SkipRunLast(a);
    }
    if sk == [] {
      assert SkipRun(y) == y;
    } else {
      CollapseRunsConcat(sk, y);
      ConcatAssoc([' '], CollapseRuns(sk), CollapseRuns(y));
    }
  }

  /** Collapsing writes no character but the space. */
  lemma {:induction false} CollapseKeepsAbsent(s: string, d: char)
    requires d !in s && d != ' '
    ensures d !in CollapseRuns(s)
    decreases |s|
  {
    if s != [] {
      assert d !in s[1..];
      if IsCollapsible(s[0]) {
        SkipRunConcat(s[1..], []);
        assert SkipRun(s[1..]) == s[1..][|s| - 1 - |SkipRun(s[1..])|..];
        CollapseKeepsAbsent(SkipRun(s[1..]), d);
      } else {
        CollapseKeepsAbsent(s[1..], d);
      }
    }
  }

  /** The characters outside the class, in order. */
  function Strip(s: string): string
  {
    if s == [] then [] else (if IsCollapsible(s[0]) then [] else [s[0]]) + Strip(s[1..])
  }

  lemma {:induction false} StripSkipRun(s: string)
    ensures Strip(SkipRun(s)) == Strip(s)
  {
    if s != [] && IsCollapsible(s[0]) {
      StripSkipRun(s[1..]);
    }
  }

  /** Collapsing never touches the text between separator runs. */
  lemma {:induction false} CollapseKeepsText(s: string)
    ensures Strip(CollapseRuns(s)) == Strip(s)
    decreases |s|
  {
    if s != [] {
      if IsCollapsible(s[0]) {
        CollapseKeepsText(SkipRun(s[1..]));
        StripSkipRun(s[1..]);
        assert Strip([' '] + CollapseRuns(SkipRun(s[1..]))) == Strip(CollapseRuns(SkipRun(s[1..])));
      } else {
        CollapseKeepsText(s[1..]);
        assert ([s[0]] + CollapseRuns(s[1..]))[1..] == CollapseRuns(s[1..]);
      }
    }
  }

  /** Collapsing an already collapsed text changes nothing. */
  lemma {:induction false} CollapseIdempotent(s: string)
    ensures CollapseRuns(CollapseRuns(s)) == CollapseRuns(s)
    decreases |s|
  {
    if s != [] {
      if IsCollapsible(s[0]) {
        var rest := SkipRun(s[1..]);
        var rr := CollapseRuns(rest);
        CollapseIdempotent(rest);
        CollapseHead(rest);
        assert ([' '] + rr)[1..] == rr;
        assert SkipRun(rr) == rr;
      } else {
        var rr := CollapseRuns(s[1..]);
        CollapseIdempotent(s[1..]);
        assert ([s[0]] + rr)[1..] == rr;
      }
    }
  }

  // ---------------------------------------------------------------------------------------
  // Leet folding clears the substitutes
  // ---------------------------------------------------------------------------------------

  lemma {:induction false} ReplaceEachClears(s: string, needles: seq<string>, rep: string, d: char)
    requires forall n | n in needles :: |n| == 1
    requires d !in rep
    requires d in s ==> [d] in needles
    ensures d !in ReplaceEach(s, needles, rep)
    decreases |needles|
  {
    if needles != [] {
      var t := ReplaceAll(s, needles[0], rep);
      if needles[0] == [d] {
        ReplaceCharClears(s, d, rep, d);
      } else if d !in s {
      }
      assert d in t ==> [d] in needles[1..];
      ReplaceEachClears(t, needles[1..], rep, d);
    }
  }

  /** Every substitute is one character. */
  predicate SingleCharSubstitutes(subs: seq<Substitution>)
  {
    forall k, m | 0 <= k < |subs| && m in subs[k].substitutes :: |m| == 1
  }

  /** When every substitute is a single character that no canonical letter contains, leet
      folding leaves no substitute in the text. */
  lemma {:induction false} SubstitutedClears(subs: seq<Substitution>, s: string, d: char)
    requires SingleCharSubstitutes(subs)
    requires forall k | 0 <= k < |subs| :: d !in subs[k].letter
    requires exists k | 0 <= k < |subs| :: [d] in subs[k].substitutes
    ensures d !in Substituted(subs, s)
    decreases |subs|
  {
    var t := ReplaceEach(s, subs[0].substitutes, subs[0].letter);
    if [d] in subs[0].substitutes {
      ReplaceEachClears(s, subs[0].substitutes, subs[0].letter, d);
      if |subs| > 1 {
        SubstitutedKeepsAbsent(subs[1..], t, d);
      }
    } else {
      assert SingleCharSubstitutes(subs[1..]) by {
        forall k, m | 0 <= k < |subs[1..]| && m in subs[1..][k].substitutes ensures |m| == 1 {
          assert subs[1..][k] == subs[k + 1];
        }
      }
      var k :| 0 <= k < |subs| && [d] in subs[k].substitutes;
      assert subs[1..][k - 1] == subs[k];
      SubstitutedClears(subs[1..], t, d);
    }
  }

  lemma {:induction false} SubstitutedKeepsAbsent(subs: seq<Substitution>, s: string, d: char)
    requires d !in s
    requires forall k | 0 <= k < |subs| :: d !in subs[k].letter
    ensures d !in Substituted(subs, s)
    decreases |subs|
  {
    if subs != [] {
      ReplaceEachKeepsAbsent(s, subs[0].substitutes, subs[0].letter, d);
      SubstitutedKeepsAbsent(subs[1..], ReplaceEach(s, subs[0].substitutes, subs[0].letter), d);
    }
  }

  /** Leet normalisation writes no character that is in neither the text, a canonical letter
      nor the collapse space. */
  lemma LeetKeepsAbsent(cfg: Config, s: string, d: char)
    requires d !in s && d != ' '
    requires forall k | 0 <= k < |cfg.substitutions| :: d !in cfg.substitutions[k].letter
    ensures d !in LeetNormalized(cfg, s)
  {
    var t := if cfg.substitutions != [] then Substituted(cfg.substitutions, s) else s;
    SubstitutedKeepsAbsent(cfg.substitutions, s, d);
    if cfg.separators == [] {
      CollapseKeepsAbsent(t, d);
    }
  }

  // ---------------------------------------------------------------------------------------
  // Leet folding turns a substitute into its letter
  // ---------------------------------------------------------------------------------------

  /** With one-character needles the passes work character by character. */
  lemma {:induction false} ReplaceEachConcat(a: string, b: string, needles: seq<string>, rep: string)
    requires forall n | n in needles :: |n| == 1
    ensures ReplaceEach(a + b, needles, rep) == ReplaceEach(a, needles, rep) + ReplaceEach(b, needles, rep)
    decreases |needles|
  {
    if needles != [] {
      var c := needles[0][0];
      assert needles[0] == [c];
      ReplaceCharConcat(a, b, c, rep);
      ReplaceEachConcat(ReplaceAll(a, [c], rep), ReplaceAll(b, [c], rep), needles[1..], rep);
    }
  }

  /** A text holding no needle's character is left alone by the passes. */
  lemma {:induction false} ReplaceEachUntouched(s: string, needles: seq<string>, rep: string)
    requires forall n | n in needles :: |n| == 1 && n[0] !in s
    ensures ReplaceEach(s, needles, rep) == s
    decreases |needles|
  {
    if needles != [] {
      assert needles[0] == [needles[0][0]];
      ReplaceCharAbsent(s, needles[0][0], rep);
      ReplaceEachUntouched(s, needles[1..], rep);
    }
  }

  /** One character is turned into `rep` when it is a needle and `rep` holds no needle's
      character, and is kept when it is no needle. */
  lemma {:induction false} ReplaceEachChar(x: char, needles: seq<string>, rep: string)
    requires forall n | n in needles :: |n| == 1
    requires [x] in needles ==> forall n | n in needles :: n[0] !in rep
    ensures ReplaceEach([x], needles, rep) == if [x] in needles then rep else [x]
    decreases |needles|
  {
    if needles != [] {
      var c := needles[0][0];
      assert needles[0] == [c];
      ReplaceCharSingle(x, c, rep);
      if x == c {
        ReplaceEachUntouched(rep, needles[1..], rep);
      } else {
        assert [x] in needles ==> [x] in needles[1..];
        ReplaceEachChar(x, needles[1..], rep);
      }
    }
  }

  /** With one-character substitutes leet folding works character by character. */
  lemma {:induction false} SubstitutedConcat(subs: seq<Substitution>, a: string, b: string)
    requires SingleCharSubstitutes(subs)
    ensures Substituted(subs, a + b) == Substituted(subs, a) + Substituted(subs, b)
    decreases |subs|
  {
    if subs != [] {
      SingleCharTail(subs);
      ReplaceEachConcat(a, b, subs[0].substitutes, subs[0].letter);
      SubstitutedConcat(subs[1..], ReplaceEach(a, subs[0].substitutes, subs[0].letter),
                        ReplaceEach(b, subs[0].substitutes, subs[0].letter));
    }
  }

  lemma SingleCharTail(subs: seq<Substitution>)
    requires subs != [] && SingleCharSubstitutes(subs)
    ensures SingleCharSubstitutes(subs[1..])
    ensures forall n | n in subs[0].substitutes :: |n| == 1
  {
    forall k, m | 0 <= k < |subs[1..]| && m in subs[1..][k].substitutes ensures |m| == 1 {
      assert subs[1..][k] == subs[k + 1];
    }
  }

  /** No substitute of any entry is the character `c`. */
  predicate NoSubstituteIs(subs: seq<Substitution>, c: char)
  {
    forall k | 0 <= k < |subs| :: [c] !in subs[k].substitutes
  }

  /** A text none of whose characters is a substitute comes through leet folding unchanged. */
  lemma {:induction false} SubstitutedUntouched(subs: seq<Substitution>, s: string)
    requires SingleCharSubstitutes(subs)
    requires forall c | c in s :: NoSubstituteIs(subs, c)
    ensures Substituted(subs, s) == s
    decreases |subs|
  {
    if subs != [] {
      SingleCharTail(subs);
      forall n | n in subs[0].substitutes ensures |n| == 1 && n[0] !in s {
        assert n == [n[0]];
      }
      ReplaceEachUntouched(s, subs[0].substitutes, subs[0].letter);
      forall c | c in s ensures NoSubstituteIs(subs[1..], c) {
        forall k | 0 <= k < |subs[1..]| ensures [c] !in subs[1..][k].substitutes {
          assert subs[1..][k] == subs[k + 1];
        }
      }
      SubstitutedUntouched(subs[1..], s);
    }
  }

  /** A substitute listed first under entry `k` becomes that entry's letter, provided no
      character of the letter is itself a substitute; the text around it is folded on its
      own. */
  lemma {:induction false} SubstituteBecomesLetter(subs: seq<Substitution>, k: nat, d: char, x: string, y: string)
    requires SingleCharSubstitutes(subs)
    requires k < |subs| && [d] in subs[k].substitutes
    requires forall j | 0 <= j < k :: [d] !in subs[j].substitutes
    requires forall c | c in subs[k].letter :: NoSubstituteIs(subs, c)
    ensures Substituted(subs, [d]) == subs[k].letter
    ensures Substituted(subs, x + [d] + y) == Substituted(subs, x) + subs[k].letter + Substituted(subs, y)
    decreases k
  {
    SingleCharTail(subs);
    var e := subs[0];
    forall c | c in subs[k].letter ensures NoSubstituteIs(subs[1..], c) {
      forall j | 0 <= j < |subs[1..]| ensures [c] !in subs[1..][j].substitutes {
        assert subs[1..][j] == subs[j + 1];
      }
    }
    if k == 0 {
      assert forall c | c in e.letter :: [c] !in e.substitutes;
      forall n | n in e.substitutes ensures n[0] !in e.letter {
        assert n == [n[0]];
      }
      ReplaceEachChar(d, e.substitutes, e.letter);
      SubstitutedUntouched(subs[1..], e.letter);
    } else {
      ReplaceEachChar(d, e.substitutes, e.letter);
      assert subs[1..][k - 1] == subs[k];
      forall j | 0 <= j < k - 1 ensures [d] !in subs[1..][j].substitutes {
        assert subs[1..][j] == subs[j + 1];
      }
      SubstituteBecomesLetter(subs[1..], k - 1, d, [], []);
    }
    SubstitutedConcat(subs, x + [d], y);
    SubstitutedConcat(subs, x, [d]);
  }

  /** `d@mn` is folded to `damn` when `@` stands for `a` and no separators are configured. */
  lemma LeetFoldsDisguise(cfg: Config)
    requires cfg.substitutions == [Substitution("a", ["@"])] && cfg.separators == []
    ensures LeetNormalized(cfg, "d@mn") == "damn"
  {
    AtBecomesA(cfg.substitutions, "d", "mn");
    assert "d@mn" == "d" + ['@'] + "mn" && "damn" == "d" + ['a'] + "mn";
    CollapseUntouched("damn");
  }

  /** A text whose class characters are lone spaces comes through collapsing unchanged. */
  lemma {:induction false} CollapseSingleSpaces(s: string)
    requires forall k | 0 <= k < |s| - 1 :: !(IsCollapsible(s[k]) && IsCollapsible(s[k + 1]))
    requires forall k | 0 <= k < |s| && IsCollapsible(s[k]) :: s[k] == ' '
    ensures CollapseRuns(s) == s
  {
    if s != [] {
      var t := s[1..];
      assert forall k | 0 <= k < |t| :: t[k] == s[k + 1];
      CollapseSingleSpaces(t);
      if IsCollapsible(s[0]) {
        assert t == [] || !IsCollapsible(t[0]);
        assert SkipRun(t) == t;
      }
      assert [s[0]] + t == s;
    }
  }

  /** The leet test sentence `This is a d@mn test` is folded to `This is a damn test` when
      `@` stands for `a` and no separators are configured. */
  lemma LeetFoldsSentence(cfg: Config)
    requires cfg.substitutions == [Substitution("a", ["@"])] && cfg.separators == []
    ensures LeetNormalized(cfg, "This is a d@mn test") == "This is a damn test"
  {
    SentenceSubstituted(cfg.substitutions);
    SentenceCollapses();
  }

  lemma SentenceSubstituted(subs: seq<Substitution>)
    requires subs == [Substitution("a", ["@"])]
    ensures Substituted(subs, "This is a d@mn test") == "This is a damn test"
  {
    var x, y := "This is a d", "mn test";
    AtBecomesA(subs, x, y);
    assert "This is a d@mn test" == x + ['@'] + y;
    assert "This is a damn test" == x + ['a'] + y;
  }

  /** With `@` standing for `a`, an `@` between two texts without one becomes `a`. */
  lemma AtBecomesA(subs: seq<Substitution>, x: string, y: string)
    requires subs == [Substitution("a", ["@"])] && '@' !in x && '@' !in y
    ensures Substituted(subs, x + ['@'] + y) == x + ['a'] + y
  {
    assert SingleCharSubstitutes(subs);
    SubstituteBecomesLetter(subs, 0, '@', x, y);
    OnlyAtIsSubstitute(subs, x);
    OnlyAtIsSubstitute(subs, y);
    SubstitutedUntouched(subs, x);
    SubstitutedUntouched(subs, y);
  }

  lemma OnlyAtIsSubstitute(subs: seq<Substitution>, s: string)
    requires subs == [Substitution("a", ["@"])] && '@' !in s
    ensures forall c | c in s :: NoSubstituteIs(subs, c)
  {
  }

  lemma SentenceCollapses()
    ensures CollapseRuns("This is a damn test") == "This is a damn test"
  {
    var s := "This is a damn test";
    forall k | 0 <= k < |s| && IsCollapsible(s[k]) ensures s[k] == ' ' && (k == 4 || k == 7 || k == 9 || k == 14) {
    }
    CollapseSingleSpaces(s);
  }

  /** A text without characters of the class comes through collapsing unchanged. */
  lemma {:induction false} CollapseUntouched(s: string)
    requires forall c | c in s :: !IsCollapsible(c)
    ensures CollapseRuns(s) == s
  {
    if s != [] {
      CollapseUntouched(s[1..]);
      assert [s[0]] + s[1..] == s;
    }
  }

  lemma {:induction false} ReplaceEachKeepsAbsent(s: string, needles: seq<string>, rep: string, d: char)
    requires d !in s && d !in rep
    ensures d !in ReplaceEach(s, needles, rep)
    decreases |needles|
  {
    if needles != [] {
      ReplaceEachKeepsAbsent(ReplaceAll(s, needles[0], rep), needles[1..], rep, d);
    }
  }
}

/**
 * `normalizeAccents`: the fixed table of accented letters and what each is replaced with.
 */
module Accents {
  import opened Wrappers
  import opened Text

  /** é è ê ë à ç ù û ü î ï ô œ Œ œ Œ, in table order (the last two entries repeat). */
  const From: seq<char> := ['\U{E9}', '\U{E8}', '\U{EA}', '\U{EB}', '\U{E0}', '\U{E7}', '\U{F9}',
    '\U{FB}', '\U{FC}', '\U{EE}', '\U{EF}', '\U{F4}', '\U{153}', '\U{152}', '\U{153}', '\U{152}']

  const To: seq<string> := ["e", "e", "e", "e", "a", "c", "u", "u", "u", "i", "i", "o",
    "oe", "OE", "oe", "OE"]

  /** `str_replace($from, $to, $s)` from table entry `k` on: one pass per entry, in order. */
  function ReplaceTableFrom(s: string, k: nat): string
    requires k <= |From|
    decreases |From| - k
  {
    if k == |From| then s else ReplaceTableFrom(ReplaceAll(s, [From[k]], To[k]), k + 1)
  }

  /** `normalizeAccents($s)`: the sequential table replacement is the character-by-character
      folding, so no pass undoes or feeds another. */
  function NormalizeAccents(s: string): (r: string)
    ensures r == FoldAccents(s)
  {
    FoldZero(s);
    TableFromFold(0, s);
    ReplaceTableFrom(s, 0)
  }

  /** The first of the table's first `k` entries that is `c`. */
  function FirstHit(k: nat, c: char): (r: Option<nat>)
    requires k <= |From|
    ensures r.None? <==> forall i | 0 <= i < k :: From[i] != c
    ensures r.Some? ==> r.value < k && From[r.value] == c
  {
    if k == 0 then None
    else
      var h := FirstHit(k - 1, c);
      if h.Some? then h else if From[k - 1] == c then Some(k - 1) else None
  }

  /** What the first `k` table entries make of one character. */
  function AccentOfUpTo(k: nat, c: char): string
    requires k <= |From|
  {
    match FirstHit(k, c)
    case None => [c]
    case Some(i) => To[i]
  }

  function FoldUpTo(k: nat, s: string): string
    requires k <= |From|
  {
    if s == [] then [] else AccentOfUpTo(k, s[0]) + FoldUpTo(k, s[1..])
  }

  /** The reference definition: every character is folded on its own, by its first table
      entry. */
  function FoldAccents(s: string): string
  {
    FoldUpTo(|From|, s)
  }

  /** The replacement strings are plain ASCII, so none holds a table character. */
  lemma ToHoldsNoFrom(i: nat, c: char)
    requires i < |To| && c in To[i]
    ensures c !in From
  {
    assert forall j | 0 <= j < |To| :: forall x | x in To[j] :: x < '\U{80}';
  }

  /** One more table pass turns the first-`k` folding into the first-`k+1` folding. */
  lemma {:induction false} FoldStep(k: nat, s: string)
    requires k < |From|
    ensures ReplaceAll(FoldUpTo(k, s), [From[k]], To[k]) == FoldUpTo(k + 1, s)
  {
    if s != [] {
      var piece := AccentOfUpTo(k, s[0]);
      ReplaceCharConcat(piece, FoldUpTo(k, s[1..]), From[k], To[k]);
      FoldStep(k, s[1..]);
      match FirstHit(k, s[0])
      case None =>
        assert piece == [s[0]];
        assert piece[..1] == [s[0]];
      case Some(i) =>
        if From[k] in To[i] {
          ToHoldsNoFrom(i, From[k]);
        }
        ReplaceCharAbsent(piece, From[k], To[k]);
    }
  }

  lemma {:induction false} FoldZero(s: string)
    ensures FoldUpTo(0, s) == s
  {
    if s != [] {
      FoldZero(s[1..]);
      assert [s[0]] + s[1..] == s;
    }
  }

  lemma {:induction false} TableFromFold(k: nat, s: string)
    requires k <= |From|
    ensures ReplaceTableFrom(FoldUpTo(k, s), k) == FoldAccents(s)
    decreases |From| - k
  {
    if k < |From| {
      FoldStep(k, s);
      TableFromFold(k + 1, s);
    }
  }

  lemma {:induction false} FoldClears(s: string, c: char)
    requires c in From
    ensures c !in FoldAccents(s)
  {
    if s != [] {
      FoldClears(s[1..], c);
      match FirstHit(|From|, s[0])
      case None =>
      case Some(i) =>
        if c in To[i] {
          ToHoldsNoFrom(i, c);
        }
    }
  }

  /** No table character survives accent folding. */
  lemma NormalizeClearsTable(s: string)
    ensures forall c | c in From :: c !in NormalizeAccents(s)
  {
    forall c | c in From ensures c !in FoldAccents(s) {
      FoldClears(s, c);
    }
  }

  lemma {:induction false} FoldKeeps(s: string)
    requires forall c | c in s :: c !in From
    ensures FoldAccents(s) == s
  {
    if s != [] {
      FoldKeeps(s[1..]);
      assert s[0] !in From;
      assert forall i | 0 <= i < |From| :: From[i] != s[0];
      assert [s[0]] + s[1..] == s;
    }
  }

  /** A text free of table characters is left exactly as it is. */
  lemma NormalizeKeepsUntouched(s: string)
    requires forall c | c in s :: c !in From
    ensures NormalizeAccents(s) == s
  {
    FoldKeeps(s);
  }
}
