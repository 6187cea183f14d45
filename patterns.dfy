/**
 * The regular expressions the filter builds, as data with a declarative meaning.
 *
 * A pattern is a sequence of character alternatives: the text character at each step must
 * match one of them (under case folding when the pattern is case-insensitive). When `between`
 * holds, any run of characters that are neither letters nor digits (`[^\p{L}\p{N}]*`) may sit
 * between two consecutive steps, never after the last. With `boundaries`, `\b` must hold at
 * both ends of the span.
 */
module Patterns {
  import opened Wrappers
  import opened Text
  import opened Unicode
  import opened Settings

  datatype Pattern = Pattern(
    classes: seq<seq<char>>,
    between: bool,
    boundaries: bool,
    caseInsensitive: bool)

  datatype Span = Span(start: nat, end: nat)

  /** `[ab…]`, or a quoted literal when there is one alternative. */
  predicate CharMatches(u: CharClasses, ci: bool, c: char, alts: seq<char>)
  {
    exists a | a in alts :: Same(u, ci, a, c)
  }

  /** `[^\p{L}\p{N}]` */
  predicate Filler(u: CharClasses, c: char)
  {
    !IsAlnum(u, c)
  }

  /** Every character of `t[a..b]` is filler. */
  predicate FillerRun(u: CharClasses, t: string, a: nat, b: nat)
    requires a <= b <= |t|
  {
    forall q | a <= q < b :: Filler(u, t[q])
  }

  /** Steps `k..` of the pattern match exactly `t[i..j]`. */
  predicate MatchFrom(u: CharClasses, p: Pattern, t: string, k: nat, i: nat, j: nat)
    requires k <= |p.classes| && i <= j <= |t|
    decreases |p.classes| - k, 1
  {
    if k == |p.classes| then i == j
    else
      i < j && CharMatches(u, p.caseInsensitive, t[i], p.classes[k]) &&
      if p.between && k + 1 < |p.classes| then
        exists m | i + 1 <= m <= j :: FillThen(u, p, t, k, i, m, j)
      else
        MatchFrom(u, p, t, k + 1, i + 1, j)
  }

  /** After step `k` matched `t[i]`, filler fills `t[i+1..m]` and the steps after `k` match
      `t[m..j]`. */
  predicate FillThen(u: CharClasses, p: Pattern, t: string, k: nat, i: nat, m: nat, j: nat)
    requires k < |p.classes| && i < m <= j <= |t|
    decreases |p.classes| - k, 0
  {
    FillerRun(u, t, i + 1, m) && MatchFrom(u, p, t, k + 1, m, j)
  }

  /** The pattern matches the span `t[i..j]`. */
  predicate MatchesSpan(u: CharClasses, p: Pattern, t: string, i: nat, j: nat)
  {
    && i <= j <= |t|
    && (p.boundaries ==> Boundary(u.isWord, t, i) && Boundary(u.isWord, t, j))
    && MatchFrom(u, p, t, 0, i, j)
  }

  /** `preg_match($pattern, $t)` */
  predicate Matches(u: CharClasses, p: Pattern, t: string)
  {
    exists i, j | 0 <= i <= j <= |t| :: MatchesSpan(u, p, t, i, j)
  }

  // ---------------------------------------------------------------------------------------
  // The two pattern builders
  // ---------------------------------------------------------------------------------------

  /** The alternatives for one word character: itself, plus the characters of its
      substitutes when it has any. */
  function Alternatives(subs: seq<Substitution>, c: char): (r: seq<char>)
    ensures c in r
    ensures forall a :: a in r <==> a == c || exists m :: m in SubstitutesOf(subs, c) && a in m
  {
    var ss := SubstitutesOf(subs, c);
    if ss != [] then [c] + Concat(ss) else [c]
  }

  /** The pattern `buildFlexiblePattern($word, $subs, $withBoundaries, $caseInsensitive)`
      compiles to. */
  function Flexible(word: string, subs: seq<Substitution>, withBoundaries: bool, caseInsensitive: bool): Pattern
  {
    Pattern(seq(|word|, k requires 0 <= k < |word| => Alternatives(subs, word[k])), true, withBoundaries, caseInsensitive)
  }

  /** The quoted-word pattern built inline in `hasProfanity`, `getProfanityWords` and
      `filterWithLanguage`: `/\b<word>\b/u` with the boundaries optional and `i` optional. */
  function Plain(word: string, withBoundaries: bool, caseInsensitive: bool): Pattern
  {
    Pattern(seq(|word|, k requires 0 <= k < |word| => [word[k]]), false, withBoundaries, caseInsensitive)
  }

  /** `buildFlexiblePattern`: one alternative class per character of the word, the filler
      between consecutive characters, boundary anchors and the `i` flag on request. */
  method BuildFlexiblePattern(word: string, subs: seq<Substitution>, withBoundaries: bool, caseInsensitive: bool)
    returns (p: Pattern)
    ensures p == Flexible(word, subs, withBoundaries, caseInsensitive)
  {
    var classes: seq<seq<char>> := [];
    for i := 0 to |word|
      invariant |classes| == i
      invariant forall k | 0 <= k < i :: classes[k] == Alternatives(subs, word[k])
    {
      var ss := SubstitutesOf(subs, word[i]);
      var alts := if ss != [] then [word[i]] + Concat(ss) else [word[i]];
      assert alts == Alternatives(subs, word[i]);
      classes := classes + [alts];
    }
    p := Pattern(classes, true, withBoundaries, caseInsensitive);
    assert p.classes == Flexible(word, subs, withBoundaries, caseInsensitive).classes;
  }

  // ---------------------------------------------------------------------------------------
  // preg_match_all: leftmost matches, each as long as possible, not overlapping
  // ---------------------------------------------------------------------------------------

  /** The longest match starting at `i` that ends at or before `j`. */
  function LongestAt(u: CharClasses, p: Pattern, t: string, i: nat, j: nat): (r: Option<nat>)
    requires i <= j <= |t|
    ensures r.Some? ==> i <= r.value <= j && MatchesSpan(u, p, t, i, r.value)
    ensures r.Some? ==> forall e | r.value < e <= j :: !MatchesSpan(u, p, t, i, e)
    ensures r.None? ==> forall e | i <= e <= j :: !MatchesSpan(u, p, t, i, e)
    decreases j - i
  {
    if MatchesSpan(u, p, t, i, j) then Some(j)
    else if j == i then None
    else LongestAt(u, p, t, i, j - 1)
  }

  /** Where the scan resumes after a match: an empty match moves on by one character. */
  function Resume(s: Span): nat
  {
    if s.end > s.start then s.end else s.start + 1
  }

  /** No match starts in `[a, b)`. */
  predicate NoMatchIn(u: CharClasses, p: Pattern, t: string, a: nat, b: nat)
  {
    forall i, j | a <= i < b && i <= j <= |t| :: !MatchesSpan(u, p, t, i, j)
  }

  /** The scan of `preg_match_all` from position `from`. */
  function MatchAllFrom(u: CharClasses, p: Pattern, t: string, from: nat): (r: seq<Span>)
    requires from <= |t| + 1
    ensures forall k | 0 <= k < |r| :: from <= r[k].start && MatchesSpan(u, p, t, r[k].start, r[k].end)
    ensures forall k | 0 <= k < |r| - 1 :: Resume(r[k]) <= r[k + 1].start
    decreases |t| + 1 - from
  {
    if from > |t| then []
    else match LongestAt(u, p, t, from, |t|)
      case None => MatchAllFrom(u, p, t, from + 1)
      case Some(e) =>
        var s := Span(from, e);
        var rest := MatchAllFrom(u, p, t, Resume(s));
        assert forall k | 0 <= k < |rest| :: ([s] + rest)[k + 1] == rest[k];
        [s] + rest
  }

  lemma {:induction false} MatchAllFirstLongest(u: CharClasses, p: Pattern, t: string, from: nat)
    requires from <= |t| + 1
    ensures var r := MatchAllFrom(u, p, t, from);
      r != [] ==> forall e | r[0].end < e <= |t| :: !MatchesSpan(u, p, t, r[0].start, e)
    decreases |t| + 1 - from
  {
    if from <= |t| {
      match LongestAt(u, p, t, from, |t|)
      case None =>
        assert MatchAllFrom(u, p, t, from) == MatchAllFrom(u, p, t, from + 1);
        MatchAllFirstLongest(u, p, t, from + 1);
      case Some(e) =>
    }
  }

  /** Each match is the longest one at its start. */
  lemma MatchAllLongest(u: CharClasses, p: Pattern, t: string, from: nat)
    requires from <= |t| + 1
    ensures var r := MatchAllFrom(u, p, t, from);
      forall k | 0 <= k < |r| :: forall e | r[k].end < e <= |t| :: !MatchesSpan(u, p, t, r[k].start, e)
  {
    var r := MatchAllFrom(u, p, t, from);
    forall k | 0 <= k < |r| ensures forall e | r[k].end < e <= |t| :: !MatchesSpan(u, p, t, r[k].start, e) {
      if k == 0 {
        MatchAllFirstLongest(u, p, t, from);
      } else {
        MatchAllSuffix(u, p, t, from, k - 1);
        MatchAllFirstLongest(u, p, t, Resume(r[k - 1]));
        assert r[k..][0] == r[k];
      }
    }
  }

  /** The scan finds its first match at the leftmost position where one starts, and finds
      nothing only when nothing matches. */
  lemma {:induction false} MatchAllFirst(u: CharClasses, p: Pattern, t: string, from: nat)
    requires from <= |t| + 1
    ensures var r := MatchAllFrom(u, p, t, from);
      && (r == [] ==> NoMatchIn(u, p, t, from, |t| + 1))
      && (r != [] ==> NoMatchIn(u, p, t, from, r[0].start))
    decreases |t| + 1 - from
  {
    if from <= |t| {
      match LongestAt(u, p, t, from, |t|)
      case None =>
        assert MatchAllFrom(u, p, t, from) == MatchAllFrom(u, p, t, from + 1);
        MatchAllFirst(u, p, t, from + 1);
      case Some(e) =>
    }
  }

  /** After the `k`-th match the scan goes on exactly as a fresh scan from where it resumed. */
  lemma {:induction false} MatchAllSuffix(u: CharClasses, p: Pattern, t: string, from: nat, k: nat)
    requires from <= |t| + 1
    requires k < |MatchAllFrom(u, p, t, from)|
    ensures var r := MatchAllFrom(u, p, t, from);
      Resume(r[k]) <= |t| + 1 && r[k + 1..] == MatchAllFrom(u, p, t, Resume(r[k]))
    decreases |t| + 1 - from
  {
    match LongestAt(u, p, t, from, |t|)
    case None =>
      assert MatchAllFrom(u, p, t, from) == MatchAllFrom(u, p, t, from + 1);
      MatchAllSuffix(u, p, t, from + 1, k);
    case Some(e) =>
      var s := Span(from, e);
      var rest := MatchAllFrom(u, p, t, Resume(s));
      assert MatchAllFrom(u, p, t, from) == [s] + rest;
      if k > 0 {
        MatchAllSuffix(u, p, t, Resume(s), k - 1);
        assert ([s] + rest)[k + 1..] == rest[k..];
      }
  }

  /** The scan is leftmost throughout: no match starts in a gap between two found ones or
      after the last one. */
  lemma MatchAllGaps(u: CharClasses, p: Pattern, t: string, from: nat)
    requires from <= |t| + 1
    ensures var r := MatchAllFrom(u, p, t, from);
      && (forall k | 0 <= k < |r| - 1 :: NoMatchIn(u, p, t, Resume(r[k]), r[k + 1].start))
      && (r != [] ==> NoMatchIn(u, p, t, Resume(r[|r| - 1]), |t| + 1))
  {
    var r := MatchAllFrom(u, p, t, from);
    forall k | 0 <= k < |r| ensures
      var rest := MatchAllFrom(u, p, t, Resume(r[k]));
      Resume(r[k]) <= |t| + 1 && rest == r[k + 1..]
    {
      MatchAllSuffix(u, p, t, from, k);
    }
    forall k | 0 <= k < |r| ensures
      (k < |r| - 1 ==> NoMatchIn(u, p, t, Resume(r[k]), r[k + 1].start))
      && (k == |r| - 1 ==> NoMatchIn(u, p, t, Resume(r[k]), |t| + 1))
    {
      MatchAllFirst(u, p, t, Resume(r[k]));
    }
  }

  /** `preg_match_all($pattern, $t, $matches)`: the spans of `$matches[0]`. */
  function MatchAll(u: CharClasses, p: Pattern, t: string): (r: seq<Span>)
    ensures forall k | 0 <= k < |r| :: MatchesSpan(u, p, t, r[k].start, r[k].end)
    ensures forall k | 0 <= k < |r| - 1 :: Resume(r[k]) <= r[k + 1].start
    ensures r == [] ==> NoMatchIn(u, p, t, 0, |t| + 1)
    ensures r != [] ==> NoMatchIn(u, p, t, 0, r[0].start)
  {
    MatchAllFirst(u, p, t, 0);
    MatchAllFrom(u, p, t, 0)
  }

  /** `preg_match($p, $t)`, as the scan's verdict. */
  predicate PregMatch(u: CharClasses, p: Pattern, t: string)
  {
    MatchAll(u, p, t) != []
  }

  /** `preg_match_all` finds something exactly when `preg_match` does. */
  lemma MatchAllFindsIff(u: CharClasses, p: Pattern, t: string)
    ensures (MatchAll(u, p, t) != []) == Matches(u, p, t)
  {
    var r := MatchAll(u, p, t);
    if r != [] {
      assert MatchesSpan(u, p, t, r[0].start, r[0].end);
    }
  }

  /** The matched substrings, `$matches[0]`. */
  function Found(t: string, spans: seq<Span>): (r: seq<string>)
    requires forall k | 0 <= k < |spans| :: spans[k].start <= spans[k].end <= |t|
    ensures |r| == |spans|
    ensures forall k | 0 <= k < |spans| :: r[k] == t[spans[k].start..spans[k].end]
  {
    if spans == [] then [] else [t[spans[0].start..spans[0].end]] + Found(t, spans[1..])
  }

  /** The offsets of the matches, `$match[1]` under PREG_OFFSET_CAPTURE. */
  function Starts(spans: seq<Span>): (r: seq<nat>)
    ensures |r| == |spans| && forall k | 0 <= k < |spans| :: r[k] == spans[k].start
  {
    if spans == [] then [] else [spans[0].start] + Starts(spans[1..])
  }
}

/**
 * What the built patterns accept, stated without the recursive matcher.
 */
module PatternFacts {
  import opened Text
  import opened Unicode
  import opened Settings
  import opened Patterns

  /** `ps` starts at `i`, ends at `j-1` (or is empty when the span is), and stays in `t[i..j]`. */
  ghost predicate Covers(ps: seq<nat>, i: nat, j: nat)
  {
    && (ps == [] ==> i == j)
    && (ps != [] ==> ps[0] == i && ps[|ps| - 1] == j - 1)
    && (forall n | 0 <= n < |ps| :: i <= ps[n] < j)
  }

  /** Each consumed character matches its step's alternatives. */
  ghost predicate StepsMatch(u: CharClasses, p: Pattern, t: string, k: nat, ps: seq<nat>)
  {
    forall n | 0 <= n < |ps| ::
      ps[n] < |t| && k + n < |p.classes| && CharMatches(u, p.caseInsensitive, t[ps[n]], p.classes[k + n])
  }

  /** Between two consecutive consumed positions `x < y` lies filler only, and nothing at all
      unless gaps are tolerated. */
  predicate Gap(u: CharClasses, between: bool, t: string, x: nat, y: nat)
  {
    x < y <= |t| && (between || y == x + 1) && FillerRun(u, t, x + 1, y)
  }

  ghost predicate GapsFill(u: CharClasses, between: bool, t: string, ps: seq<nat>)
  {
    forall a, b | 0 <= a && b == a + 1 && b < |ps| :: Gap(u, between, t, ps[a], ps[b])
  }

  /** `ps` lists the text positions that steps `k..` of `p` consume inside `t[i..j]`. */
  ghost predicate Spelling(u: CharClasses, p: Pattern, t: string, k: nat, i: nat, j: nat, ps: seq<nat>)
  {
    |ps| + k == |p.classes| && Covers(ps, i, j) && StepsMatch(u, p, t, k, ps) && GapsFill(u, p.between, t, ps)
  }

  lemma {:induction false} AscendingFrom(u: CharClasses, between: bool, t: string, ps: seq<nat>, a: nat, b: nat)
    requires GapsFill(u, between, t, ps) && a <= b < |ps|
    ensures ps[a] <= ps[b]
    decreases b - a
  {
    if a < b {
      assert Gap(u, between, t, ps[a], ps[a + 1]);
      AscendingFrom(u, between, t, ps, a + 1, b);
    }
  }

  lemma CoversTail(u: CharClasses, between: bool, t: string, ps: seq<nat>, i: nat, j: nat)
    requires Covers(ps, i, j) && |ps| > 1 && GapsFill(u, between, t, ps)
    ensures Covers(ps[1..], ps[1], j)
  {
    forall n | 1 <= n < |ps| ensures ps[1] <= ps[n] {
      AscendingFrom(u, between, t, ps, 1, n);
    }
  }

  lemma GapsFillTail(u: CharClasses, between: bool, t: string, ps: seq<nat>)
    requires GapsFill(u, between, t, ps) && |ps| > 0
    ensures GapsFill(u, between, t, ps[1..])
  {
    var rest := ps[1..];
    forall a, b | 0 <= a && b == a + 1 && b < |rest| ensures Gap(u, between, t, rest[a], rest[b]) {
      assert rest[a] == ps[a + 1] && rest[b] == ps[b + 1];
    }
  }

  lemma StepsMatchTail(u: CharClasses, p: Pattern, t: string, k: nat, ps: seq<nat>)
    requires StepsMatch(u, p, t, k, ps) && |ps| > 0
    ensures StepsMatch(u, p, t, k + 1, ps[1..])
  {
    var rest := ps[1..];
    forall n | 0 <= n < |rest|
      ensures rest[n] < |t| && k + 1 + n < |p.classes| && CharMatches(u, p.caseInsensitive, t[rest[n]], p.classes[k + 1 + n])
    {
      assert rest[n] == ps[n + 1] && k + 1 + n == k + (n + 1);
    }
  }

  /** Dropping the first consumed position leaves a spelling of the later steps. */
  lemma SpellingTail(u: CharClasses, p: Pattern, t: string, k: nat, i: nat, j: nat, ps: seq<nat>)
    requires Spelling(u, p, t, k, i, j, ps) && |ps| > 1
    ensures Spelling(u, p, t, k + 1, ps[1], j, ps[1..])
  {
    CoversTail(u, p.between, t, ps, i, j);
    StepsMatchTail(u, p, t, k, ps);
    GapsFillTail(u, p.between, t, ps);
  }

  lemma CoversCons(rest: seq<nat>, i: nat, m: nat, j: nat)
    requires Covers(rest, m, j) && i < m <= j
    requires rest == [] ==> m == i + 1
    ensures Covers([i] + rest, i, j)
  {
    var ps := [i] + rest;
    forall n | 0 <= n < |ps| ensures i <= ps[n] < j {
      if n > 0 {
        assert ps[n] == rest[n - 1];
      }
    }
  }

  lemma StepsMatchCons(u: CharClasses, p: Pattern, t: string, k: nat, i: nat, rest: seq<nat>)
    requires StepsMatch(u, p, t, k + 1, rest)
    requires i < |t| && k < |p.classes| && CharMatches(u, p.caseInsensitive, t[i], p.classes[k])
    ensures StepsMatch(u, p, t, k, [i] + rest)
  {
    var ps := [i] + rest;
    forall n | 0 <= n < |ps|
      ensures ps[n] < |t| && k + n < |p.classes| && CharMatches(u, p.caseInsensitive, t[ps[n]], p.classes[k + n])
    {
      if n > 0 {
        assert ps[n] == rest[n - 1] && k + n == k + 1 + (n - 1);
      }
    }
  }

  lemma GapsFillCons(u: CharClasses, between: bool, t: string, i: nat, rest: seq<nat>)
    requires GapsFill(u, between, t, rest)
    requires rest != [] ==> Gap(u, between, t, i, rest[0])
    ensures GapsFill(u, between, t, [i] + rest)
  {
    var ps := [i] + rest;
    forall a, b | 0 <= a && b == a + 1 && b < |ps| ensures Gap(u, between, t, ps[a], ps[b]) {
      if a > 0 {
        assert ps[a] == rest[a - 1] && ps[b] == rest[b - 1];
      }
    }
  }

  /** Consuming `t[i]` for step `k` in front of a spelling of the later steps that starts at
      `m` gives a spelling of steps `k..`. */
  lemma SpellingCons(u: CharClasses, p: Pattern, t: string, k: nat, i: nat, m: nat, j: nat, rest: seq<nat>)
    requires k < |p.classes| && i < m <= j <= |t|
    requires Spelling(u, p, t, k + 1, m, j, rest)
    requires CharMatches(u, p.caseInsensitive, t[i], p.classes[k])
    requires rest == [] ==> m == i + 1
    requires rest != [] ==> (p.between || m == i + 1) && FillerRun(u, t, i + 1, m)
    ensures Spelling(u, p, t, k, i, j, [i] + rest)
  {
    CoversCons(rest, i, m, j);
    StepsMatchCons(u, p, t, k, i, rest);
    GapsFillCons(u, p.between, t, i, rest);
  }

  lemma {:induction false} SpellingSound(u: CharClasses, p: Pattern, t: string, k: nat, i: nat, j: nat, ps: seq<nat>)
    requires k <= |p.classes| && i <= j <= |t|
    requires Spelling(u, p, t, k, i, j, ps)
    ensures MatchFrom(u, p, t, k, i, j)
    decreases |ps|
  {
    if k < |p.classes| {
      assert ps[0] == i && i < j;
      assert CharMatches(u, p.caseInsensitive, t[i], p.classes[k]);
      if |ps| == 1 {
        assert MatchFrom(u, p, t, k + 1, i + 1, j);
      } else {
        var m := ps[1];
        SpellingTail(u, p, t, k, i, j, ps);
        SpellingSound(u, p, t, k + 1, m, j, ps[1..]);
        if p.between {
          assert FillThen(u, p, t, k, i, m, j);
        } else {
          assert m == i + 1;
        }
      }
    }
  }

  lemma {:induction false} SpellingComplete(u: CharClasses, p: Pattern, t: string, k: nat, i: nat, j: nat)
    returns (ps: seq<nat>)
    requires k <= |p.classes| && i <= j <= |t|
    requires MatchFrom(u, p, t, k, i, j)
    ensures Spelling(u, p, t, k, i, j, ps)
    decreases |p.classes| - k
  {
    if k == |p.classes| {
      ps := [];
    } else {
      var m: nat;
      if p.between && k + 1 < |p.classes| {
        m :| i + 1 <= m <= j && FillThen(u, p, t, k, i, m, j);
      } else {
        m := i + 1;
      }
      var rest := SpellingComplete(u, p, t, k + 1, m, j);
      if rest == [] {
        assert k + 1 == |p.classes|;
      }
      SpellingCons(u, p, t, k, i, m, j, rest);
      ps := [i] + rest;
    }
  }

  /** A span matches exactly when the boundary condition holds and some spelling of the
      pattern covers it. */
  lemma MatchesSpanIffSpelling(u: CharClasses, p: Pattern, t: string, i: nat, j: nat)
    requires i <= j <= |t|
    ensures MatchesSpan(u, p, t, i, j) <==>
      (p.boundaries ==> Boundary(u.isWord, t, i) && Boundary(u.isWord, t, j))
      && exists ps :: Spelling(u, p, t, 0, i, j, ps)
  {
    if MatchFrom(u, p, t, 0, i, j) {
      var ps := SpellingComplete(u, p, t, 0, i, j);
    }
    if ps :| Spelling(u, p, t, 0, i, j, ps) {
      SpellingSound(u, p, t, 0, i, j, ps);
    }
  }

  /** The obfuscated spellings of `word`: its characters in order, each itself or a character
      of one of its configured substitutes, with runs of characters that are neither letters
      nor digits between consecutive ones and nothing after the last. */
  ghost predicate ObfuscatedSpelling(u: CharClasses, word: string, subs: seq<Substitution>, ci: bool,
                                     t: string, i: nat, j: nat, ps: seq<nat>)
  {
    && |ps| == |word|
    && Covers(ps, i, j)
    && (forall n | 0 <= n < |ps| :: ps[n] < |t| && Disguises(u, subs, ci, word[n], t[ps[n]]))
    && GapsFill(u, true, t, ps)
  }

  /** `c` stands for the word character `w`: it is `w` itself or a character of one of `w`'s
      substitutes (under case folding when `ci`). */
  predicate Disguises(u: CharClasses, subs: seq<Substitution>, ci: bool, w: char, c: char)
  {
    Same(u, ci, w, c) || exists m, a | m in SubstitutesOf(subs, w) && a in m :: Same(u, ci, a, c)
  }

  lemma DisguisesIsAlternative(u: CharClasses, subs: seq<Substitution>, ci: bool, w: char, c: char)
    ensures CharMatches(u, ci, c, Alternatives(subs, w)) <==> Disguises(u, subs, ci, w, c)
  {
    if Disguises(u, subs, ci, w, c) && !Same(u, ci, w, c) {
      var m, a :| m in SubstitutesOf(subs, w) && a in m && Same(u, ci, a, c);
      assert a in Alternatives(subs, w);
    }
  }

  lemma ObfuscatedIsSpelling(u: CharClasses, word: string, subs: seq<Substitution>, b: bool, ci: bool,
                             t: string, i: nat, j: nat, ps: seq<nat>)
    ensures ObfuscatedSpelling(u, word, subs, ci, t, i, j, ps) <==> Spelling(u, Flexible(word, subs, b, ci), t, 0, i, j, ps)
  {
    var p := Flexible(word, subs, b, ci);
    if |ps| == |word| {
      forall n | 0 <= n < |ps| && ps[n] < |t|
        ensures CharMatches(u, ci, t[ps[n]], p.classes[n]) <==> Disguises(u, subs, ci, word[n], t[ps[n]])
      {
        assert p.classes[n] == Alternatives(subs, word[n]);
        DisguisesIsAlternative(u, subs, ci, word[n], t[ps[n]]);
      }
      assert (forall n | 0 <= n < |ps| :: ps[n] < |t| && Disguises(u, subs, ci, word[n], t[ps[n]])) <==> StepsMatch(u, p, t, 0, ps);
    }
  }

  /** `buildFlexiblePattern` accepts exactly the obfuscated spellings of the word, with `\b`
      at both ends when boundaries are requested. */
  lemma FlexibleAcceptsObfuscated(u: CharClasses, word: string, subs: seq<Substitution>, b: bool, ci: bool,
                                  t: string, i: nat, j: nat)
    requires i <= j <= |t|
    ensures MatchesSpan(u, Flexible(word, subs, b, ci), t, i, j) <==>
      (b ==> Boundary(u.isWord, t, i) && Boundary(u.isWord, t, j))
      && exists ps :: ObfuscatedSpelling(u, word, subs, ci, t, i, j, ps)
  {
    MatchesSpanIffSpelling(u, Flexible(word, subs, b, ci), t, i, j);
    forall ps ensures ObfuscatedSpelling(u, word, subs, ci, t, i, j, ps) <==> Spelling(u, Flexible(word, subs, b, ci), t, 0, i, j, ps) {
      ObfuscatedIsSpelling(u, word, subs, b, ci, t, i, j, ps);
    }
  }

  /** With no substitutions (leet detection off) the only tolerance left is filler: every
      matched position holds the word's own character. */
  lemma NoSubstitutesNoTolerance(u: CharClasses, word: string, b: bool, ci: bool, t: string, i: nat, j: nat)
    requires i <= j <= |t|
    requires MatchesSpan(u, Flexible(word, [], b, ci), t, i, j)
    ensures exists ps :: ObfuscatedSpelling(u, word, [], ci, t, i, j, ps)
                         && forall n | 0 <= n < |ps| :: Same(u, ci, word[n], t[ps[n]])
  {
    FlexibleAcceptsObfuscated(u, word, [], b, ci, t, i, j);
    var ps :| ObfuscatedSpelling(u, word, [], ci, t, i, j, ps);
    forall n | 0 <= n < |ps| ensures Same(u, ci, word[n], t[ps[n]]) {
      assert SubstitutesOf([], word[n]) == [];
      assert Disguises(u, [], ci, word[n], t[ps[n]]);
    }
  }

  lemma {:induction false} PlainFrom(u: CharClasses, w: string, b: bool, ci: bool, t: string, k: nat, i: nat, j: nat)
    requires k <= |w| && i <= j <= |t|
    ensures MatchFrom(u, Plain(w, b, ci), t, k, i, j) <==>
      j - i == |w| - k && forall q | k <= q < |w| :: Same(u, ci, w[q], t[i + (q - k)])
    decreases |w| - k
  {
    var p := Plain(w, b, ci);
    if k < |w| && i < j {
      assert p.classes[k] == [w[k]];
      assert CharMatches(u, ci, t[i], [w[k]]) <==> Same(u, ci, w[k], t[i]) by {
        assert w[k] in [w[k]];
      }
      PlainFrom(u, w, b, ci, t, k + 1, i + 1, j);
    }
  }

  /** The quoted-word pattern matches exactly the spans that spell the word character by
      character (under case folding with the `i` flag), with `\b` at both ends when asked. */
  lemma PlainSpan(u: CharClasses, w: string, b: bool, ci: bool, t: string, i: nat, j: nat)
    ensures MatchesSpan(u, Plain(w, b, ci), t, i, j) <==>
      && i <= j <= |t| && j == i + |w|
      && (forall q | 0 <= q < |w| :: Same(u, ci, w[q], t[i + q]))
      && (b ==> Boundary(u.isWord, t, i) && Boundary(u.isWord, t, j))
  {
    if i <= j <= |t| {
      PlainFrom(u, w, b, ci, t, 0, i, j);
    }
  }

  /** Case-sensitively the quoted-word pattern is literal substring search. */
  lemma PlainCaseSensitiveSpan(u: CharClasses, w: string, b: bool, t: string, i: nat, j: nat)
    ensures MatchesSpan(u, Plain(w, b, false), t, i, j) <==>
      && i <= j <= |t| && t[i..j] == w
      && (b ==> Boundary(u.isWord, t, i) && Boundary(u.isWord, t, j))
  {
    PlainSpan(u, w, b, false, t, i, j);
    if i <= j <= |t| && j == i + |w| {
      assert (forall q | 0 <= q < |w| :: w[q] == t[i + q]) <==> t[i..j] == w by {
        if t[i..j] == w {
          forall q | 0 <= q < |w| ensures w[q] == t[i + q] {
            assert t[i..j][q] == t[i + q];
          }
        }
      }
    }
  }

  lemma {:induction false} PlainFlexibleFrom(u: CharClasses, w: string, subs: seq<Substitution>, b: bool, ci: bool,
                                             t: string, k: nat, i: nat, j: nat)
    requires k <= |w| && i <= j <= |t|
    requires MatchFrom(u, Plain(w, b, ci), t, k, i, j)
    ensures MatchFrom(u, Flexible(w, subs, b, ci), t, k, i, j)
    decreases |w| - k
  {
    var p, f := Plain(w, b, ci), Flexible(w, subs, b, ci);
    if k < |w| {
      assert p.classes[k] == [w[k]] && f.classes[k] == Alternatives(subs, w[k]);
      var a :| a in [w[k]] && Same(u, ci, a, t[i]);
      assert a in f.classes[k];
      PlainFlexibleFrom(u, w, subs, b, ci, t, k + 1, i + 1, j);
      if k + 1 < |w| {
        assert FillThen(u, f, t, k, i, i + 1, j);
      }
    }
  }

  /** Whatever the quoted-word pattern matches, the flexible pattern for the same word
      matches too, whatever the substitutions. */
  lemma PlainImpliesFlexible(u: CharClasses, w: string, subs: seq<Substitution>, b: bool, ci: bool, t: string, i: nat, j: nat)
    requires MatchesSpan(u, Plain(w, b, ci), t, i, j)
    ensures MatchesSpan(u, Flexible(w, subs, b, ci), t, i, j)
  {
    PlainFlexibleFrom(u, w, subs, b, ci, t, 0, i, j);
  }

  /** A quoted word one of whose characters (up to the pattern's case mode) occurs nowhere in
      the text does not match it. */
  lemma PlainMissingLetter(u: CharClasses, w: string, b: bool, ci: bool, t: string, n: nat)
    requires n < |w|
    requires forall c | c in t :: !Same(u, ci, w[n], c)
    ensures !Matches(u, Plain(w, b, ci), t)
  {
    forall i, j | 0 <= i <= j <= |t| ensures !MatchesSpan(u, Plain(w, b, ci), t, i, j) {
      PlainSpan(u, w, b, ci, t, i, j);
      if j == i + |w| {
        assert t[i + n] in t;
      }
    }
  }

  /** A match of the flexible pattern without substitutes holds every character of the
      word (up to the case mode): filler cannot stand in for one. */
  lemma FlexibleShowsLetters(u: CharClasses, w: string, b: bool, ci: bool, t: string)
    ensures Matches(u, Flexible(w, [], b, ci), t) ==>
      forall n | 0 <= n < |w| :: exists c | c in t :: Same(u, ci, w[n], c)
  {
    if Matches(u, Flexible(w, [], b, ci), t) {
      var i, j :| 0 <= i <= j <= |t| && MatchesSpan(u, Flexible(w, [], b, ci), t, i, j);
      NoSubstitutesNoTolerance(u, w, b, ci, t, i, j);
      var ps :| ObfuscatedSpelling(u, w, [], ci, t, i, j, ps) && forall m | 0 <= m < |ps| :: Same(u, ci, w[m], t[ps[m]]);
      forall n | 0 <= n < |w| ensures exists c | c in t :: Same(u, ci, w[n], c) {
        assert t[ps[n]] in t;
      }
    }
  }

  lemma FlexibleMissingLetter(u: CharClasses, w: string, b: bool, ci: bool, t: string, n: nat)
    requires n < |w|
    requires forall c | c in t :: !Same(u, ci, w[n], c)
    ensures !Matches(u, Flexible(w, [], b, ci), t)
  {
    FlexibleShowsLetters(u, w, b, ci, t);
  }
}
