/** Best-candidate selection, as the reports do it: map every candidate to a
    score or to nothing (`rules.map(...).filter(Boolean)`), sort the scored
    ones highest first with a stable sort, and take the head. */
module Selection {
  import opened Wrappers
  import Sorting

  datatype Scored<T> = Scored(item: T, total: int)

  function TotalOf<T>(s: Scored<T>): int { s.total }

  /** The comparator on scored entries compares their totals. */
  lemma ByTotal<T>(a: Scored<T>, b: Scored<T>)
    ensures Sorting.HigherFirst(TotalOf)(a, b) == (a.total > b.total)
  {
    Sorting.HigherFirstMeans(TotalOf, a, b);
    var f := TotalOf<T>;
    assert f(a) == a.total && f(b) == b.total;
  }

  /** The candidates that receive a score, with it, in input order. */
  function Survivors<T>(xs: seq<T>, score: T -> Option<int>): (r: seq<Scored<T>>)
    ensures |r| <= |xs|
  {
    if xs == [] then []
    else
      var rest := Survivors(xs[1..], score);
      match score(xs[0])
      case None => rest
      case Some(t) => [Scored(xs[0], t)] + rest
  }

  /** The head of the survivors sorted highest score first; none when no
      candidate scores. */
  function Pick<T>(xs: seq<T>, score: T -> Option<int>): Option<T> {
    var sc := Survivors(xs, score);
    if sc == [] then None else Some(Sorting.SortBy(sc, Sorting.HigherFirst(TotalOf))[0].item)
  }

  /** Candidate `i` is the one to pick: it scores, nothing scores higher, and
      every earlier candidate that scores, scores strictly lower. */
  ghost predicate IsChosen<T>(xs: seq<T>, score: T -> Option<int>, i: int) {
    && 0 <= i < |xs|
    && score(xs[i]).Some?
    && (forall k :: 0 <= k < |xs| && score(xs[k]).Some? ==> score(xs[k]).value <= score(xs[i]).value)
    && (forall j :: 0 <= j < i && score(xs[j]).Some? ==> score(xs[j]).value < score(xs[i]).value)
  }

  /** The reference choice: a scan from the front keeping the first
      highest-scoring candidate. */
  function ChosenIndex<T>(xs: seq<T>, score: T -> Option<int>): (r: Option<nat>)
    ensures r.None? <==> forall k :: 0 <= k < |xs| ==> score(xs[k]).None?
    ensures r.Some? ==> IsChosen(xs, score, r.value)
  {
    if xs == [] then None
    else
      var t := ChosenIndex(xs[1..], score);
      assert forall k :: 1 <= k < |xs| ==> xs[k] == xs[1..][k - 1];
      match score(xs[0])
      case None => (if t.None? then None else Some(t.value + 1))
      case Some(s0) =>
        if t.None? || s0 >= score(xs[1..][t.value]).value then Some(0)
        else Some(t.value + 1)
  }

  lemma ChosenUnique<T>(xs: seq<T>, score: T -> Option<int>, i: int, i': int)
    requires IsChosen(xs, score, i) && IsChosen(xs, score, i')
    ensures i == i'
  {
    assert score(xs[i]).value <= score(xs[i']).value <= score(xs[i]).value;
  }

  lemma {:induction false} SurvivorsEmpty<T>(xs: seq<T>, score: T -> Option<int>)
    ensures Survivors(xs, score) == [] <==> forall k :: 0 <= k < |xs| ==> score(xs[k]).None?
  {
    if xs != [] {
      SurvivorsEmpty(xs[1..], score);
      assert forall k :: 1 <= k < |xs| ==> xs[k] == xs[1..][k - 1];
    }
  }

  /** Each survivor entry carries its own candidate's score. */
  lemma {:induction false} SurvivorsEntry<T>(xs: seq<T>, score: T -> Option<int>, m: int)
    requires 0 <= m < |Survivors(xs, score)|
    ensures score(Survivors(xs, score)[m].item) == Some(Survivors(xs, score)[m].total)
  {
    var rest := Survivors(xs[1..], score);
    if !(score(xs[0]).Some? && m == 0) {
      var m' := if score(xs[0]).Some? then m - 1 else m;
      assert Survivors(xs, score)[m] == rest[m'];
      SurvivorsEntry(xs[1..], score, m');
    }
  }

  /** Every survivor entry comes from some candidate. */
  lemma {:induction false} SurvivorsFrom<T>(xs: seq<T>, score: T -> Option<int>, m: int)
    requires 0 <= m < |Survivors(xs, score)|
    ensures exists k :: 0 <= k < |xs| && xs[k] == Survivors(xs, score)[m].item
  {
    var rest := Survivors(xs[1..], score);
    if !(score(xs[0]).Some? && m == 0) {
      var m' := if score(xs[0]).Some? then m - 1 else m;
      assert Survivors(xs, score)[m] == rest[m'];
      SurvivorsFrom(xs[1..], score, m');
      var k :| 0 <= k < |xs[1..]| && xs[1..][k] == rest[m'].item;
      assert xs[k + 1] == xs[1..][k];
    }
  }

  /** No survivor scores above the chosen candidate. */
  lemma SurvivorsBounded<T>(xs: seq<T>, score: T -> Option<int>, i: int, m: int)
    requires IsChosen(xs, score, i)
    requires 0 <= m < |Survivors(xs, score)|
    ensures Survivors(xs, score)[m].total <= score(xs[i]).value
  {
    SurvivorsEntry(xs, score, m);
    SurvivorsFrom(xs, score, m);
  }

  /** The chosen candidate is the first best entry of the survivors. */
  lemma {:induction false} ChosenIsFirstBest<T>(xs: seq<T>, score: T -> Option<int>, i: int)
    requires IsChosen(xs, score, i)
    ensures exists m :: Sorting.IsFirstBest(Survivors(xs, score), m, Sorting.HigherFirst(TotalOf))
                        && Survivors(xs, score)[m].item == xs[i]
  {
    var sc := Survivors(xs, score);
    var rest := Survivors(xs[1..], score);
    var before := Sorting.HigherFirst(TotalOf);
    forall a: Scored<T>, b: Scored<T>
      ensures before(a, b) == (a.total > b.total)
    {
      ByTotal(a, b);
    }
    var best := score(xs[i]).value;
    assert forall k :: 1 <= k < |xs| ==> xs[k] == xs[1..][k - 1];
    if i == 0 {
      forall m | 0 <= m < |sc|
        ensures sc[m].total <= best
      {
        SurvivorsBounded(xs, score, i, m);
      }
      assert sc == [Scored(xs[0], best)] + rest;
      assert Sorting.IsFirstBest(sc, 0, before);
    } else {
      assert IsChosen(xs[1..], score, i - 1);
      ChosenIsFirstBest(xs[1..], score, i - 1);
      var m' :| Sorting.IsFirstBest(rest, m', before) && rest[m'].item == xs[1..][i - 1];
      SurvivorsEntry(xs[1..], score, m');
      assert rest[m'].total == best;
      if score(xs[0]).Some? {
        var head := Scored(xs[0], score(xs[0]).value);
        assert sc == [head] + rest;
        FirstBestBehindLower(head, rest, m');
        assert sc[m' + 1] == rest[m'];
      } else {
        assert sc == rest;
      }
    }
  }

  /** A candidate scoring below the first best of `rest`, put in front of
      it, moves the first best one place back. */
  lemma FirstBestBehindLower<T>(x: Scored<T>, rest: seq<Scored<T>>, m: int)
    requires Sorting.IsFirstBest(rest, m, Sorting.HigherFirst(TotalOf))
    requires x.total < rest[m].total
    ensures Sorting.IsFirstBest([x] + rest, m + 1, Sorting.HigherFirst(TotalOf))
  {
    var sc := [x] + rest;
    var before := Sorting.HigherFirst(TotalOf);
    ByTotal(x, rest[m]);
    ByTotal(rest[m], x);
    assert sc[m + 1] == rest[m];
    forall k | 0 <= k < |sc|
      ensures !before(sc[k], sc[m + 1])
    {
      if k > 0 {
        assert sc[k] == rest[k - 1];
      }
    }
    forall j | 0 <= j < m + 1
      ensures before(sc[m + 1], sc[j])
    {
      if j > 0 {
        assert sc[j] == rest[j - 1];
      }
    }
  }

  /** Sorting and taking the head picks the first highest-scoring candidate,
      and nothing when no candidate scores. */
  lemma PickIsChosen<T>(xs: seq<T>, score: T -> Option<int>)
    ensures Pick(xs, score).None? <==> ChosenIndex(xs, score).None?
    ensures ChosenIndex(xs, score).Some? ==> Pick(xs, score) == Some(xs[ChosenIndex(xs, score).value])
  {
    SurvivorsEmpty(xs, score);
    var ci := ChosenIndex(xs, score);
    if ci.Some? {
      ChosenIsFirstBest(xs, score, ci.value);
      var sc := Survivors(xs, score);
      var m :| Sorting.IsFirstBest(sc, m, Sorting.HigherFirst(TotalOf)) && sc[m].item == xs[ci.value];
      Sorting.SortByHead(sc, m, Sorting.HigherFirst(TotalOf));
    }
  }
}
