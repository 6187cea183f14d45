/**
 * The PHP string primitives the filter is built from, on strings of code points:
 * `str_replace`, `str_repeat`, `mb_substr_count` with a one-character needle,
 * `array_unique`, and the "masked from" relation every masking pass keeps.
 */
module Text {

  /** `str_replace($needle, $rep, $s)`: every non-overlapping occurrence, scanned left to right;
      an empty needle leaves the subject alone. */
  function ReplaceAll(s: string, needle: string, rep: string): (r: string)
    ensures |rep| == |needle| ==> |r| == |s|
    ensures forall c | c in r :: c in s || c in rep
    decreases |s|
  {
    if needle == [] || |s| < |needle| then s
    else if s[..|needle|] == needle then
      assert forall c | c in s[|needle|..] :: c in s;
      rep + ReplaceAll(s[|needle|..], needle, rep)
    else
      assert forall c | c in s[1..] :: c in s;
      [s[0]] + ReplaceAll(s[1..], needle, rep)
  }

  /** The strings of a list, joined. */
  function Concat(ss: seq<string>): (r: string)
    ensures forall m :: m in ss ==> forall c :: c in m ==> c in r
    ensures forall c :: c in r ==> exists m :: m in ss && c in m
  {
    if ss == [] then []
    else
      assert forall m :: m in ss ==> m == ss[0] || m in ss[1..];
      ss[0] + Concat(ss[1..])
  }

  /** `str_repeat($c, $n)` */
  function Repeat(c: char, n: nat): (r: string)
    ensures |r| == n && forall k | 0 <= k < n :: r[k] == c
  {
    if n == 0 then [] else [c] + Repeat(c, n - 1)
  }

  /** `mb_substr_count($s, $c)` for a one-character needle. */
  function Count(s: string, c: char): nat
  {
    if s == [] then 0 else Count(s[..|s| - 1], c) + (if s[|s| - 1] == c then 1 else 0)
  }

  predicate OccursAt(s: string, needle: string, i: nat)
  {
    i + |needle| <= |s| && s[i..i + |needle|] == needle
  }

  ghost predicate Occurs(s: string, needle: string)
  {
    exists i: nat :: OccursAt(s, needle, i)
  }

  predicate Distinct<T(==)>(s: seq<T>)
  {
    forall i, j | 0 <= i < j < |s| :: s[i] != s[j]
  }

  /** `array_unique` on a list: keeps the first occurrence of every element. */
  function Dedup(s: seq<string>): (r: seq<string>)
    ensures Distinct(r)
    ensures forall x :: x in r <==> x in s
    ensures |r| <= |s|
  {
    if s == [] then []
    else
      var d := Dedup(s[..|s| - 1]);
      assert forall x :: x in s <==> x in s[..|s| - 1] || x == s[|s| - 1];
      if s[|s| - 1] in d then d else d + [s[|s| - 1]]
  }

  /** A list that is already duplicate-free is left as it is. */
  lemma {:induction false} DedupOfDistinct(s: seq<string>)
    requires Distinct(s)
    ensures Dedup(s) == s
  {
    if s != [] {
      var p := s[..|s| - 1];
      assert Distinct(p);
      DedupOfDistinct(p);
      assert s[|s| - 1] !in p;
      assert p + [s[|s| - 1]] == s;
    }
  }

  lemma ConcatAssoc<T>(a: seq<T>, b: seq<T>, c: seq<T>)
    ensures (a + b) + c == a + (b + c)
  {
  }

  /** `r` arises from `orig` by overwriting some positions with `rc` and nothing else. */
  predicate MaskedFrom(rc: char, orig: string, r: string)
  {
    |r| == |orig| && forall i | 0 <= i < |r| :: r[i] == orig[i] || r[i] == rc
  }

  lemma MaskedFromTrans(rc: char, a: string, b: string, c: string)
    requires MaskedFrom(rc, a, b) && MaskedFrom(rc, b, c)
    ensures MaskedFrom(rc, a, c)
  {
  }

  lemma MaskedFromConcat(rc: char, a: string, b: string, a': string, b': string)
    requires MaskedFrom(rc, a, a') && MaskedFrom(rc, b, b')
    ensures MaskedFrom(rc, a + b, a' + b')
  {
    forall i | 0 <= i < |a' + b'| ensures (a' + b')[i] == (a + b)[i] || (a' + b')[i] == rc {
      if i >= |a'| {
        assert (a' + b')[i] == b'[i - |a'|] && (a + b)[i] == b[i - |a|];
      }
    }
  }

  /** Replacing every occurrence with a string of the same length that agrees with the needle
      except where it holds `rc` only ever masks. */
  lemma {:induction false} ReplaceAllMasks(rc: char, s: string, needle: string, rep: string)
    requires |rep| == |needle|
    requires forall k | 0 <= k < |rep| :: rep[k] == needle[k] || rep[k] == rc
    ensures MaskedFrom(rc, s, ReplaceAll(s, needle, rep))
  {
    if needle == [] || |s| < |needle| {
    } else if s[..|needle|] == needle {
      ReplaceAllMasks(rc, s[|needle|..], needle, rep);
      MaskedFromConcat(rc, s[..|needle|], s[|needle|..], rep, ReplaceAll(s[|needle|..], needle, rep));
      assert s[..|needle|] + s[|needle|..] == s;
    } else {
      ReplaceAllMasks(rc, s[1..], needle, rep);
      MaskedFromConcat(rc, [s[0]], s[1..], [s[0]], ReplaceAll(s[1..], needle, rep));
      assert [s[0]] + s[1..] == s;
    }
  }

  /** A subject with no occurrence of the needle comes back unchanged. */
  lemma {:induction false} ReplaceAllAbsent(s: string, needle: string, rep: string)
    requires !Occurs(s, needle)
    ensures ReplaceAll(s, needle, rep) == s
  {
    if needle == [] || |s| < |needle| {
    } else {
      assert !OccursAt(s, needle, 0);
      assert !Occurs(s[1..], needle) by {
        forall i: nat ensures !OccursAt(s[1..], needle, i) {
          assert !OccursAt(s, needle, i + 1);
          if i + |needle| <= |s[1..]| {
            assert s[1..][i..i + |needle|] == s[i + 1..i + 1 + |needle|];
          }
        }
      }
      ReplaceAllAbsent(s[1..], needle, rep);
      assert [s[0]] + s[1..] == s;
    }
  }

  /** `i` is the leftmost occurrence of a nonempty needle. */
  predicate FirstOccurrence(s: string, needle: string, i: nat)
  {
    needle != [] && OccursAt(s, needle, i) && forall j: nat | j < i :: !OccursAt(s, needle, j)
  }

  /** Every occurrence has a leftmost occurrence at or before it. */
  lemma {:induction false} FirstOccurrenceExists(s: string, needle: string, i: nat)
    requires needle != [] && OccursAt(s, needle, i)
    ensures exists j: nat | j <= i :: FirstOccurrence(s, needle, j)
    decreases i
  {
    if !FirstOccurrence(s, needle, i) {
      var j: nat :| j < i && OccursAt(s, needle, j);
      FirstOccurrenceExists(s, needle, j);
    }
  }

  /** `str_replace` replaces the leftmost occurrence, keeps the text before it, and goes on
      scanning right after it. With `ReplaceAllAbsent` this determines the result. */
  lemma {:induction false} ReplaceAllLeftmost(s: string, needle: string, rep: string, i: nat)
    requires FirstOccurrence(s, needle, i)
    ensures ReplaceAll(s, needle, rep) == s[..i] + rep + ReplaceAll(s[i + |needle|..], needle, rep)
    decreases i
  {
    if i == 0 {
      LeftmostHere(s, needle, rep);
    } else {
      var t, k := s[1..], i - 1;
      FirstOccurrenceShift(s, needle, i);
      ReplaceAllLeftmost(t, needle, rep, k);
      LeftmostCons(s, t, needle, rep, k, i);
    }
  }

  lemma LeftmostHere(s: string, needle: string, rep: string)
    requires needle != [] && OccursAt(s, needle, 0)
    ensures ReplaceAll(s, needle, rep) == s[..0] + rep + ReplaceAll(s[0 + |needle|..], needle, rep)
  {
    ReplaceAllHit(s, needle, rep);
    assert s[..0] + rep == rep;
  }

  lemma FirstOccurrenceShift(s: string, needle: string, i: nat)
    requires FirstOccurrence(s, needle, i) && i > 0
    ensures FirstOccurrence(s[1..], needle, i - 1)
  {
    OccursShift(s, needle, 1, i - 1);
    forall j: nat | j < i - 1 ensures !OccursAt(s[1..], needle, j) {
      OccursShift(s, needle, 1, j);
    }
  }

  lemma LeftmostCons(s: string, t: string, needle: string, rep: string, k: nat, i: nat)
    requires FirstOccurrence(s, needle, i) && k + 1 == i && t == s[1..]
    requires k + |needle| <= |t|
    requires ReplaceAll(t, needle, rep) == t[..k] + rep + ReplaceAll(t[k + |needle|..], needle, rep)
    ensures ReplaceAll(s, needle, rep) == s[..i] + rep + ReplaceAll(s[i + |needle|..], needle, rep)
  {
    assert !OccursAt(s, needle, 0);
    ReplaceAllMiss(s, needle, rep);
    assert t[k + |needle|..] == s[i + |needle|..];
    ConsPrefix(s, i, rep, ReplaceAll(s[i + |needle|..], needle, rep));
  }

  /** The scan at a place where the needle occurs. */
  lemma ReplaceAllHit(s: string, needle: string, rep: string)
    requires needle != [] && OccursAt(s, needle, 0)
    ensures ReplaceAll(s, needle, rep) == rep + ReplaceAll(s[|needle|..], needle, rep)
  {
    assert s[0..0 + |needle|] == s[..|needle|];
  }

  /** The scan at a place where the needle does not occur. */
  lemma ReplaceAllMiss(s: string, needle: string, rep: string)
    requires needle != [] && |needle| <= |s| && !OccursAt(s, needle, 0)
    ensures ReplaceAll(s, needle, rep) == [s[0]] + ReplaceAll(s[1..], needle, rep)
  {
    assert s[0..0 + |needle|] == s[..|needle|];
  }

  lemma ConsPrefix(s: string, i: nat, rep: string, tail: string)
    requires 0 < i <= |s|
    ensures [s[0]] + (s[1..][..i - 1] + rep + tail) == s[..i] + rep + tail
  {
    assert [s[0]] + s[1..][..i - 1] == s[..i];
  }

  /** A same-length replacement that differs from a needle which occurs changes the text. */
  lemma {:induction false} ReplaceAllChanges(s: string, needle: string, rep: string, i: nat)
    requires needle != [] && |rep| == |needle| && rep != needle
    requires OccursAt(s, needle, i)
    ensures ReplaceAll(s, needle, rep) != s
    decreases i
  {
    var r := ReplaceAll(s, needle, rep);
    if s[..|needle|] == needle {
      assert r[..|needle|] == rep;
    } else {
      assert i != 0;
      assert s[1..][i - 1..i - 1 + |needle|] == s[i..i + |needle|];
      ReplaceAllChanges(s[1..], needle, rep, i - 1);
      assert r == [s[0]] + ReplaceAll(s[1..], needle, rep);
      assert r[1..] == ReplaceAll(s[1..], needle, rep);
    }
  }

  /** Occurrences in a suffix are occurrences in the text, shifted. */
  lemma OccursShift(s: string, needle: string, d: nat, j: nat)
    requires d <= |s|
    ensures OccursAt(s[d..], needle, j) == OccursAt(s, needle, j + d)
  {
    if j + |needle| <= |s[d..]| {
      assert s[d..][j..j + |needle|] == s[j + d..j + d + |needle|];
    }
  }

  lemma SliceAfterPrefix(x: string, y: string, i: nat, n: nat)
    requires |x| <= i && i + n <= |x| + |y|
    ensures (x + y)[i..i + n] == y[i - |x|..i - |x| + n]
  {
  }

  /** An occurrence that no earlier occurrence overlaps is overwritten by a same-length
      replacement. */
  lemma {:induction false} ReplaceAllCovers(s: string, needle: string, rep: string, i: nat)
    requires needle != [] && |rep| == |needle|
    requires OccursAt(s, needle, i)
    requires forall j: nat | j < i && i < j + |needle| :: !OccursAt(s, needle, j)
    ensures ReplaceAll(s, needle, rep)[i..i + |rep|] == rep
    decreases i
  {
    if i == 0 {
      ReplaceAllHit(s, needle, rep);
    } else {
      var hit := OccursAt(s, needle, 0);
      var d := if hit then |needle| else 1;
      var head := if hit then rep else [s[0]];
      if hit {
        ReplaceAllHit(s, needle, rep);
      } else {
        ReplaceAllMiss(s, needle, rep);
      }
      var t, k := s[d..], i - d;
      CoversShift(s, t, needle, d, k, i);
      ReplaceAllCovers(t, needle, rep, k);
      CoversCons(ReplaceAll(s, needle, rep), head, ReplaceAll(t, needle, rep), rep, k, i);
    }
  }

  /** The hypotheses of `ReplaceAllCovers` carry over to the text after the first `d`
      characters. */
  lemma CoversShift(s: string, t: string, needle: string, d: nat, k: nat, i: nat)
    requires 0 < d <= i <= |s| && k + d == i && t == s[d..]
    requires OccursAt(s, needle, i)
    requires forall j: nat | j < i && i < j + |needle| :: !OccursAt(s, needle, j)
    ensures OccursAt(t, needle, k)
    ensures forall j: nat | j < k && k < j + |needle| :: !OccursAt(t, needle, j)
  {
    OccursShift(s, needle, d, k);
    forall j: nat | j < k && k < j + |needle| ensures !OccursAt(t, needle, j) {
      OccursShift(s, needle, d, j);
    }
  }

  lemma CoversCons(r: string, head: string, rt: string, rep: string, k: nat, i: nat)
    requires r == head + rt && k + |head| == i && k + |rep| <= |rt|
    requires rt[k..k + |rep|] == rep
    ensures r[i..i + |rep|] == rep
  {
    SliceAfterPrefix(head, rt, i, |rep|);
  }

  /** A one-character subject is replaced exactly when it is the needle. */
  lemma ReplaceCharSingle(x: char, c: char, rep: string)
    ensures ReplaceAll([x], [c], rep) == if x == c then rep else [x]
  {
    assert [x][..1] == [x] && [x][1..] == [];
  }

  /** A one-character needle that does not occur leaves the subject alone. */
  lemma {:induction false} ReplaceCharAbsent(s: string, c: char, rep: string)
    requires c !in s
    ensures ReplaceAll(s, [c], rep) == s
  {
    if s != [] {
      assert s[..1] == [s[0]];
      ReplaceCharAbsent(s[1..], c, rep);
      assert [s[0]] + s[1..] == s;
    }
  }

  /** With a one-character needle the replacement distributes over concatenation. */
  lemma {:induction false} ReplaceCharConcat(a: string, b: string, c: char, rep: string)
    ensures ReplaceAll(a + b, [c], rep) == ReplaceAll(a, [c], rep) + ReplaceAll(b, [c], rep)
  {
    if a == [] {
      assert a + b == b;
    } else {
      assert (a + b)[1..] == a[1..] + b;
      assert (a + b)[..1] == a[..1] && a[..1] == [a[0]];
      ReplaceCharConcat(a[1..], b, c, rep);
    }
  }

  /** A one-character needle that is not in the replacement is gone afterwards, and a character
      that is in neither the subject nor the replacement stays absent. */
  lemma {:induction false} ReplaceCharClears(s: string, c: char, rep: string, d: char)
    requires c !in rep
    requires d != c ==> d !in s && d !in rep
    ensures d !in ReplaceAll(s, [c], rep)
  {
    if s != [] {
      ReplaceCharClears(s[1..], c, rep, d);
      if s[..1] == [c] {
      } else {
        assert s[0] == s[..1][0];
      }
    }
  }

  /** Once a masking step has written a replacement character, later masking keeps it. */
  lemma MaskedFromKeepsChange(rc: char, a: string, b: string, c: string)
    requires MaskedFrom(rc, a, b) && MaskedFrom(rc, b, c) && b != a
    ensures c != a
  {
    var i :| 0 <= i < |a| && b[i] != a[i];
    assert c[i] == rc;
  }

  /** A masking step that changes the text raises the number of replacement characters. */
  lemma {:induction false} MaskedFromCountStrict(rc: char, orig: string, r: string)
    requires MaskedFrom(rc, orig, r) && r != orig
    ensures Count(r, rc) > Count(orig, rc)
  {
    var n := |orig|;
    assert MaskedFrom(rc, orig[..n - 1], r[..n - 1]);
    if r[..n - 1] == orig[..n - 1] {
      assert r[n - 1] != orig[n - 1] by {
        assert r == r[..n - 1] + [r[n - 1]] && orig == orig[..n - 1] + [orig[n - 1]];
      }
    } else {
      MaskedFromCountStrict(rc, orig[..n - 1], r[..n - 1]);
    }
  }

  /** Masking only ever adds replacement characters. */
  lemma {:induction false} MaskedFromCount(rc: char, orig: string, r: string)
    requires MaskedFrom(rc, orig, r)
    ensures Count(r, rc) >= Count(orig, rc)
  {
    if orig != [] {
      var n := |orig|;
      assert MaskedFrom(rc, orig[..n - 1], r[..n - 1]);
      MaskedFromCount(rc, orig[..n - 1], r[..n - 1]);
    }
  }
}
