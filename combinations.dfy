/**
 * The subsets that `itertools.combinations(candidates, k)` yields, as strictly
 * increasing sequences of candidate indices, in the order it yields them
 * (lexicographic over the index tuples).
 */
module Subsets {

  /** `s` is a strictly increasing sequence of `k` indices, each in `[lo, n)`. */
  ghost predicate IsCombination(s: seq<nat>, lo: nat, n: nat, k: nat)
  {
    && |s| == k
    && (forall i :: 0 <= i < |s| ==> lo <= s[i] < n)
    && (forall i, j :: 0 <= i < j < |s| ==> s[i] < s[j])
  }

  /** Strict lexicographic order on index tuples. */
  predicate LexLess(a: seq<nat>, b: seq<nat>)
  {
    |a| > 0 && |b| > 0 && (a[0] < b[0] || (a[0] == b[0] && LexLess(a[1..], b[1..])))
  }

  /** Every tuple of `r` is lexicographically below every later one. */
  ghost predicate StrictlySorted(r: seq<seq<nat>>)
  {
    forall i, j :: 0 <= i < j < |r| ==> LexLess(r[i], r[j])
  }

  /** `x` put in front of every tuple of `cs`. */
  function Prepend(x: nat, cs: seq<seq<nat>>): seq<seq<nat>>
  {
    seq(|cs|, i requires 0 <= i < |cs| => [x] + cs[i])
  }

  /**
   * The `k`-element combinations of the indices `[lo, n)` in the order of
   * `itertools.combinations`: first those that start with `lo`, then those
   * that do not.
   */
  function Combos(lo: nat, n: nat, k: nat): (r: seq<seq<nat>>)
    decreases n - lo
    ensures forall c :: c in r ==> IsCombination(c, lo, n, k)
    ensures k <= n - lo ==> |r| > 0
  {
    if k == 0 then [[]]
    else if lo >= n then []
    else
      var first := Combos(lo + 1, n, k - 1);
      var rest := Combos(lo + 1, n, k);
      assert forall c :: c in Prepend(lo, first) ==> IsCombination(c, lo, n, k) by {
        forall c | c in Prepend(lo, first) ensures IsCombination(c, lo, n, k) {
          var i :| 0 <= i < |first| && Prepend(lo, first)[i] == c;
          assert IsCombination(first[i], lo + 1, n, k - 1);
        }
      }
      Prepend(lo, first) + rest
  }

  /** The combinations `itertools.combinations(range(n), k)` enumerates. */
  function Combinations(n: nat, k: nat): (r: seq<seq<nat>>)
    ensures forall c :: c in r ==> IsCombination(c, 0, n, k)
    ensures k <= n ==> |r| > 0
  {
    Combos(0, n, k)
  }

  /** Every strictly increasing `k`-tuple of indices in `[lo, n)` is enumerated. */
  lemma {:induction false} CombosComplete(s: seq<nat>, lo: nat, n: nat, k: nat)
    requires IsCombination(s, lo, n, k)
    ensures s in Combos(lo, n, k)
    decreases n - lo
  {
    if k == 0 {
      assert s == [];
    } else {
      assert lo <= s[0] < n;
      if s[0] == lo {
        var tail := s[1..];
        assert IsCombination(tail, lo + 1, n, k - 1) by {
          forall i | 0 <= i < |tail| ensures lo + 1 <= tail[i] < n {
            assert s[0] < s[i + 1];
          }
        }
        CombosComplete(tail, lo + 1, n, k - 1);
        var first := Combos(lo + 1, n, k - 1);
        var i :| 0 <= i < |first| && first[i] == tail;
        assert Prepend(lo, first)[i] == s;
        assert s in Prepend(lo, first);
      } else {
        assert IsCombination(s, lo + 1, n, k) by {
          forall i | 0 <= i < |s| ensures lo + 1 <= s[i] {
            if i > 0 { assert s[0] < s[i]; }
          }
        }
        CombosComplete(s, lo + 1, n, k);
      }
    }
  }

  /** Every `k`-subset of `n` indices, as an increasing tuple, is enumerated. */
  lemma CombinationsComplete(s: seq<nat>, n: nat, k: nat)
    requires IsCombination(s, 0, n, k)
    ensures s in Combinations(n, k)
  {
    CombosComplete(s, 0, n, k);
  }

  /** The enumeration is strictly increasing in lexicographic order. */
  lemma {:induction false} CombosSorted(lo: nat, n: nat, k: nat)
    ensures StrictlySorted(Combos(lo, n, k))
    decreases n - lo
  {
    if k != 0 && lo < n {
      var first := Combos(lo + 1, n, k - 1);
      var rest := Combos(lo + 1, n, k);
      var a := Prepend(lo, first);
      var r := a + rest;
      CombosSorted(lo + 1, n, k - 1);
      CombosSorted(lo + 1, n, k);
      assert r == Combos(lo, n, k);
      forall i, j | 0 <= i < j < |r| ensures LexLess(r[i], r[j]) {
        if j < |a| {
          assert r[i] == [lo] + first[i] && r[j] == [lo] + first[j];
          assert r[i][1..] == first[i] && r[j][1..] == first[j];
          assert LexLess(first[i], first[j]);
          assert r[i][0] == lo == r[j][0];
        } else if i < |a| {
          assert r[i] == [lo] + first[i];
          assert r[j] == rest[j - |a|];
          assert IsCombination(rest[j - |a|], lo + 1, n, k);
          assert r[i][0] == lo && rest[j - |a|][0] >= lo + 1;
        } else {
          assert r[i] == rest[i - |a|] && r[j] == rest[j - |a|];
          assert LexLess(rest[i - |a|], rest[j - |a|]);
        }
      }
    }
  }

  /** `itertools.combinations` yields its tuples in lexicographic order. */
  lemma CombinationsSorted(n: nat, k: nat)
    ensures StrictlySorted(Combinations(n, k))
  {
    CombosSorted(0, n, k);
    assert Combinations(n, k) == Combos(0, n, k);
  }

  /** No tuple is lexicographically below itself. */
  lemma {:induction false} LexLessIrreflexive(a: seq<nat>)
    ensures !LexLess(a, a)
  {
    if |a| > 0 {
      LexLessIrreflexive(a[1..]);
    }
  }

  /** Two tuples are never each below the other. */
  lemma {:induction false} LexLessAsymmetric(a: seq<nat>, b: seq<nat>)
    requires LexLess(a, b)
    ensures !LexLess(b, a)
  {
    if a[0] == b[0] {
      LexLessAsymmetric(a[1..], b[1..]);
    }
  }

  /**
   * A tuple lexicographically below the one at position `w` of the
   * enumeration sits at an earlier position.
   */
  lemma EnumeratedBefore(n: nat, k: nat, s: seq<nat>, w: nat)
    requires IsCombination(s, 0, n, k)
    requires w < |Combinations(n, k)|
    requires LexLess(s, Combinations(n, k)[w])
    ensures exists j :: 0 <= j < w && Combinations(n, k)[j] == s
  {
    var r := Combinations(n, k);
    CombinationsComplete(s, n, k);
    CombinationsSorted(n, k);
    var j :| 0 <= j < |r| && r[j] == s;
    if j == w {
      LexLessIrreflexive(s);
    } else if j > w {
      LexLessAsymmetric(s, r[w]);
    }
  }

  /** The binomial coefficient, by Pascal's rule. */
  function Binomial(m: nat, k: nat): nat
  {
    if k == 0 then 1
    else if m == 0 then 0
    else Binomial(m - 1, k - 1) + Binomial(m - 1, k)
  }

  /** The enumeration has C(n - lo, k) tuples. */
  lemma {:induction false} CombosCount(lo: nat, n: nat, k: nat)
    requires lo <= n
    ensures |Combos(lo, n, k)| == Binomial(n - lo, k)
    decreases n - lo
  {
    if k != 0 && lo < n {
      CombosCount(lo + 1, n, k - 1);
      CombosCount(lo + 1, n, k);
    }
  }

  /** `itertools.combinations` of `n` items taken `k` at a time yields C(n, k) tuples. */
  lemma CombinationsCount(n: nat, k: nat)
    ensures |Combinations(n, k)| == Binomial(n, k)
  {
    CombosCount(0, n, k);
  }

  /** The indices `lo, lo + 1, ..., n - 1`. */
  function Range(lo: nat, n: nat): (r: seq<nat>)
    decreases n - lo
    ensures |r| == if lo <= n then n - lo else 0
    ensures forall i :: 0 <= i < |r| ==> r[i] == lo + i
  {
    if lo >= n then [] else [lo] + Range(lo + 1, n)
  }

  /** More elements than indices: nothing is enumerated. */
  lemma {:induction false} CombosTooMany(lo: nat, n: nat, k: nat)
    requires lo <= n && k > n - lo
    ensures Combos(lo, n, k) == []
    decreases n - lo
  {
    if k != 0 && lo < n {
      CombosTooMany(lo + 1, n, k - 1);
      CombosTooMany(lo + 1, n, k);
      assert Prepend(lo, []) == [];
    }
  }

  /** Taking all of `[lo, n)` has exactly one combination: all of it. */
  lemma {:induction false} CombosAll(lo: nat, n: nat)
    requires lo <= n
    ensures Combos(lo, n, n - lo) == [Range(lo, n)]
    decreases n - lo
  {
    if lo < n {
      CombosAll(lo + 1, n);
      CombosTooMany(lo + 1, n, n - lo);
      assert Prepend(lo, [Range(lo + 1, n)]) == [[lo] + Range(lo + 1, n)];
    }
  }

  /** When the team size reaches the pool size, the single subset searched is the whole pool. */
  lemma CombinationsOfAll(n: nat)
    ensures Combinations(n, n) == [Range(0, n)]
  {
    CombosAll(0, n);
  }
}
