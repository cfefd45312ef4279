/** `Array.prototype.sort` with a comparator, as the controllers use it.
    The sort is stable, so it is modelled as insertion sort: each element is
    placed in front of the first element that does not strictly precede it.
    `before(a, b)` stands for "the comparator returns a negative number on (a, b)".
    The string order is code-unit order, the order `<` gives on strings. */
module Sorting {

  // ---------------------------------------------------------------------------
  // Orders

  /** The laws a comparator must obey for the sorted output to be ordered. */
  ghost predicate StrictWeakOrder<T(!new)>(before: (T, T) -> bool) {
    && (forall a :: !before(a, a))
    && (forall a, b, c :: before(a, b) && before(b, c) ==> before(a, c))
    && (forall a, b, c :: before(a, c) ==> before(a, b) || before(b, c))
  }

  ghost predicate StrictTotalOrder<T(!new)>(less: (T, T) -> bool) {
    && (forall a :: !less(a, a))
    && (forall a, b, c :: less(a, b) && less(b, c) ==> less(a, c))
    && (forall a, b :: a != b ==> less(a, b) || less(b, a))
  }

  /** Comparing by a key under a total order is a weak order on the records:
      records with equal keys are tied. */
  lemma KeyedWeakOrder<T(!new), K(!new)>(before: (T, T) -> bool, key: T -> K, less: (K, K) -> bool)
    requires StrictTotalOrder(less)
    requires forall x, y :: before(x, y) == less(key(x), key(y))
    ensures StrictWeakOrder(before)
  {
    forall a, b, c | before(a, c)
      ensures before(a, b) || before(b, c)
    {
      if key(b) != key(a) && key(b) != key(c) {
        if !less(key(a), key(b)) {
          assert less(key(b), key(a));
        }
      }
    }
  }

  predicate Greater(p: int, q: int) { p > q }

  lemma GreaterTotal()
    ensures StrictTotalOrder(Greater)
  {
  }

  predicate CharLess(a: char, b: char) { a < b }

  /** Lexicographic order of sequences built from an order on the elements;
      a proper prefix comes first. */
  predicate LexLess<T(==)>(a: seq<T>, b: seq<T>, less: (T, T) -> bool) {
    if a == [] then b != []
    else b != [] && (less(a[0], b[0]) || (a[0] == b[0] && LexLess(a[1..], b[1..], less)))
  }

  lemma {:induction false} LexIrreflexive<T>(a: seq<T>, less: (T, T) -> bool)
    requires forall x :: !less(x, x)
    ensures !LexLess(a, a, less)
  {
    if a != [] {
      LexIrreflexive(a[1..], less);
    }
  }

  lemma {:induction false} LexTransitive<T(!new)>(a: seq<T>, b: seq<T>, c: seq<T>, less: (T, T) -> bool)
    requires StrictTotalOrder(less)
    requires LexLess(a, b, less) && LexLess(b, c, less)
    ensures LexLess(a, c, less)
  {
    if a != [] && a[0] == b[0] && b[0] == c[0] {
      LexTransitive(a[1..], b[1..], c[1..], less);
    }
  }

  lemma {:induction false} LexTotal<T(!new)>(a: seq<T>, b: seq<T>, less: (T, T) -> bool)
    requires StrictTotalOrder(less)
    requires a != b
    ensures LexLess(a, b, less) || LexLess(b, a, less)
  {
    if a != [] && b != [] && a[0] == b[0] {
      assert a == [a[0]] + a[1..] && b == [b[0]] + b[1..];
      LexTotal(a[1..], b[1..], less);
    }
  }

  /** String comparison: code-unit lexicographic order. */
  predicate StrLess(a: string, b: string) {
    LexLess(a, b, CharLess)
  }

  lemma StrLessTotal()
    ensures StrictTotalOrder(StrLess)
  {
    assert StrictTotalOrder(CharLess);
    forall a: string, b: string, c: string | StrLess(a, b) && StrLess(b, c)
      ensures StrLess(a, c)
    {
      LexTransitive(a, b, c, CharLess);
    }
    forall a: string
      ensures !StrLess(a, a)
    {
      LexIrreflexive(a, CharLess);
    }
    forall a: string, b: string | a != b
      ensures StrLess(a, b) || StrLess(b, a)
    {
      LexTotal(a, b, CharLess);
    }
  }

  /** Several string keys compared one after the other:
      `a.k1.localeCompare(b.k1) || a.k2.localeCompare(b.k2) || …`. */
  predicate KeysLess(a: seq<string>, b: seq<string>) {
    LexLess(a, b, StrLess)
  }

  lemma KeysLessTotal()
    ensures StrictTotalOrder(KeysLess)
  {
    StrLessTotal();
    forall a: seq<string>, b: seq<string>, c: seq<string> | KeysLess(a, b) && KeysLess(b, c)
      ensures KeysLess(a, c)
    {
      LexTransitive(a, b, c, StrLess);
    }
    forall a: seq<string>
      ensures !KeysLess(a, a)
    {
      LexIrreflexive(a, StrLess);
    }
    forall a: seq<string>, b: seq<string> | a != b
      ensures KeysLess(a, b) || KeysLess(b, a)
    {
      LexTotal(a, b, StrLess);
    }
  }

  // ---------------------------------------------------------------------------
  // The sort

  ghost predicate Sorted<T>(s: seq<T>, before: (T, T) -> bool) {
    forall i, j :: 0 <= i < j < |s| ==> !before(s[j], s[i])
  }

  /** Places `x` in front of the first element of `t` that does not strictly
      precede it. */
  function Insert<T>(x: T, t: seq<T>, before: (T, T) -> bool): (r: seq<T>)
    ensures multiset(r) == multiset(t) + multiset{x}
    ensures |r| == |t| + 1
  {
    if t == [] then [x]
    else if before(t[0], x) then
      assert t == [t[0]] + t[1..];
      [t[0]] + Insert(x, t[1..], before)
    else [x] + t
  }

  /** The stable sort of `s` under the comparator `before`. */
  function SortBy<T>(s: seq<T>, before: (T, T) -> bool): (r: seq<T>)
    ensures multiset(r) == multiset(s)
    ensures |r| == |s|
  {
    if s == [] then []
    else
      assert s == [s[0]] + s[1..];
      Insert(s[0], SortBy(s[1..], before), before)
  }

  lemma {:induction false} InsertSorted<T(!new)>(x: T, t: seq<T>, before: (T, T) -> bool)
    requires StrictWeakOrder(before)
    requires Sorted(t, before)
    ensures Sorted(Insert(x, t, before), before)
  {
    if t != [] {
      if before(t[0], x) {
        var tail := Insert(x, t[1..], before);
        InsertSorted(x, t[1..], before);
        forall j | 0 <= j < |tail|
          ensures !before(tail[j], t[0])
        {
          assert tail[j] in multiset(tail);
          assert tail[j] == x || tail[j] in multiset(t[1..]);
          if tail[j] != x {
            var k :| 0 <= k < |t[1..]| && t[1..][k] == tail[j];
            assert t[k + 1] == tail[j];
          }
        }
        assert Insert(x, t, before) == [t[0]] + tail;
      } else {
        forall j | 0 <= j < |t|
          ensures !before(t[j], x)
        {
          if j > 0 {
            assert !before(t[j], t[0]);
          }
        }
      }
    }
  }

  /** The sorted output is ordered: no element strictly precedes an earlier one. */
  lemma {:induction false} SortBySorted<T(!new)>(s: seq<T>, before: (T, T) -> bool)
    requires StrictWeakOrder(before)
    ensures Sorted(SortBy(s, before), before)
  {
    if s != [] {
      SortBySorted(s[1..], before);
      InsertSorted(s[0], SortBy(s[1..], before), before);
    }
  }

  // ---------------------------------------------------------------------------
  // The first element of the sorted output

  /** No element of `s` strictly precedes `s[i]`, and every element before
      position `i` is strictly after it: the element `sort(...)[0]` picks. */
  ghost predicate IsFirstBest<T>(s: seq<T>, i: int, before: (T, T) -> bool) {
    && 0 <= i < |s|
    && (forall k :: 0 <= k < |s| ==> !before(s[k], s[i]))
    && (forall j :: 0 <= j < i ==> before(s[i], s[j]))
  }

  lemma FirstBestUnique<T>(s: seq<T>, i: int, i': int, before: (T, T) -> bool)
    requires IsFirstBest(s, i, before) && IsFirstBest(s, i', before)
    ensures i == i'
  {
    assert !before(s[i'], s[i]) && !before(s[i], s[i']);
  }

  /** Taking the head of the stable sort picks the first best element. */
  lemma {:induction false} SortByHead<T>(s: seq<T>, i: int, before: (T, T) -> bool)
    requires IsFirstBest(s, i, before)
    ensures SortBy(s, before)[0] == s[i]
  {
    var tl := SortBy(s[1..], before);
    if i == 0 {
      if tl != [] {
        assert tl[0] in multiset(s[1..]);
        var k :| 0 <= k < |s[1..]| && s[1..][k] == tl[0];
        assert s[k + 1] == tl[0];
      }
    } else {
      assert IsFirstBest(s[1..], i - 1, before) by {
        forall k | 0 <= k < |s[1..]|
          ensures !before(s[1..][k], s[1..][i - 1])
        {
          assert s[1..][k] == s[k + 1];
        }
      }
      SortByHead(s[1..], i - 1, before);
      assert before(tl[0], s[0]);
    }
  }

  // ---------------------------------------------------------------------------
  // Sorting by a numeric score, highest first

  /** The comparator `(a, b) => score(b) - score(a)`: negative when `a`
      scores higher. */
  function HigherFirst<T>(score: T -> int): (T, T) -> bool {
    (a: T, b: T) => score(a) > score(b)
  }

  lemma HigherFirstMeans<T>(score: T -> int, a: T, b: T)
    ensures HigherFirst(score)(a, b) == (score(a) > score(b))
  {
  }

  lemma HigherFirstWeak<T(!new)>(score: T -> int)
    ensures StrictWeakOrder(HigherFirst(score))
  {
    GreaterTotal();
    KeyedWeakOrder(HigherFirst(score), score, Greater);
  }

  /** The position of the first element with the highest score. */
  function FirstMaxIndex<T>(s: seq<T>, score: T -> int): (i: nat)
    requires |s| > 0
    ensures i < |s|
    ensures forall k :: 0 <= k < |s| ==> score(s[k]) <= score(s[i])
    ensures forall j :: 0 <= j < i ==> score(s[j]) < score(s[i])
  {
    if |s| == 1 then 0
    else
      var j := FirstMaxIndex(s[1..], score);
      assert forall k :: 1 <= k < |s| ==> s[k] == s[1..][k - 1];
      if score(s[0]) >= score(s[1 + j]) then 0 else 1 + j
  }

  /** The head of the sort, highest score first, is the first element with
      the highest score. */
  lemma SortHighestFirstHead<T>(s: seq<T>, score: T -> int)
    requires |s| > 0
    ensures SortBy(s, HigherFirst(score))[0] == s[FirstMaxIndex(s, score)]
    ensures forall k :: 0 <= k < |s| ==> score(s[k]) <= score(SortBy(s, HigherFirst(score))[0])
  {
    var i := FirstMaxIndex(s, score);
    assert IsFirstBest(s, i, HigherFirst(score));
    SortByHead(s, i, HigherFirst(score));
  }
}
