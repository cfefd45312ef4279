/** Which saved commission set applies on a date. The partner GET handlers
    take the document saved for the exact date key, and otherwise the one
    whose key parses to the latest moment no later than the date; the GIC
    partner report takes the owner's document with the greatest key string. */
module AsOf {
  import opened Wrappers
  import opened Calendar
  import opened Store
  import Selection
  import Sorting

  /** `parseDateKey(r.commissionDate)` when the document is the owner's and
      not later than `current`; nothing otherwise (a NaN comparison is
      false, so a key that parses to NaN never qualifies). */
  function StampScore<T>(owner: string, current: Option<int>): Record<string, T> -> Option<int> {
    (r: Record<string, T>) =>
      if r.owner == owner && current.Some? && ParseDateKey(r.dateKey).Some?
         && ParseDateKey(r.dateKey).value <= current.value
      then ParseDateKey(r.dateKey) else None
  }

  /** The moment the request's key stands for: `parseDateKey(null)` is 0. */
  function Current(dateKey: Option<string>): Option<int> {
    match dateKey
    case None => Some(0)
    case Some(k) => ParseDateKey(k)
  }

  /** `findOne({owner, dateKey})`, else `find({owner})`, filtered to keys no
      later than the date, sorted latest first, head. A missing key (`null`)
      finds no exact document. */
  function Resolve<T>(records: seq<Record<string, T>>, owner: string, dateKey: Option<string>): Option<Record<string, T>> {
    var exact := if dateKey.Some? then FindRecord(records, owner, dateKey.value) else None;
    if exact.Some? then Some(records[exact.value])
    else Selection.Pick(records, StampScore(owner, Current(dateKey)))
  }

  /** Whether `r` is the owner's document in force at `current`: it is the
      owner's, its key is no later than `current`, no other such key is
      later, and every earlier document with the same key is later in the
      list order. */
  ghost predicate InForce<T>(records: seq<Record<string, T>>, owner: string, current: Option<int>, i: int) {
    Selection.IsChosen(records, StampScore(owner, current), i)
  }

  lemma StampScoreMeaning<T>(owner: string, current: Option<int>, r: Record<string, T>)
    ensures StampScore(owner, current)(r).Some? <==>
      r.owner == owner && current.Some? && ParseDateKey(r.dateKey).Some? && ParseDateKey(r.dateKey).value <= current.value
    ensures StampScore(owner, current)(r).Some? ==> StampScore(owner, current)(r) == ParseDateKey(r.dateKey)
  {
  }

  /** The exact document wins; otherwise the result is the first document of
      the owner with the latest qualifying key, and there is none exactly
      when no document of the owner qualifies. */
  lemma ResolveMeaning<T>(records: seq<Record<string, T>>, owner: string, dateKey: Option<string>)
    ensures dateKey.Some? && FindRecord(records, owner, dateKey.value).Some? ==>
      Resolve(records, owner, dateKey) == Some(records[FindRecord(records, owner, dateKey.value).value])
    ensures !(dateKey.Some? && FindRecord(records, owner, dateKey.value).Some?) ==>
      (Resolve(records, owner, dateKey).None? <==>
         forall k :: 0 <= k < |records| ==> StampScore(owner, Current(dateKey))(records[k]).None?)
    ensures !(dateKey.Some? && FindRecord(records, owner, dateKey.value).Some?) && Resolve(records, owner, dateKey).Some? ==>
      exists i :: InForce(records, owner, Current(dateKey), i) && Resolve(records, owner, dateKey) == Some(records[i])
  {
    Selection.PickIsChosen(records, StampScore(owner, Current(dateKey)));
  }

  /** A document in force is the owner's, no later than the date, and no
      later than any other such document of the owner. */
  lemma InForceMeaning<T>(records: seq<Record<string, T>>, owner: string, current: Option<int>, i: int)
    requires InForce(records, owner, current, i)
    ensures records[i].owner == owner && current.Some?
    ensures ParseDateKey(records[i].dateKey).Some? && ParseDateKey(records[i].dateKey).value <= current.value
    ensures forall k :: 0 <= k < |records| && records[k].owner == owner && ParseDateKey(records[k].dateKey).Some?
              && ParseDateKey(records[k].dateKey).value <= current.value
              ==> ParseDateKey(records[k].dateKey).value <= ParseDateKey(records[i].dateKey).value
  {
    forall k | 0 <= k < |records| && records[k].owner == owner && ParseDateKey(records[k].dateKey).Some?
               && ParseDateKey(records[k].dateKey).value <= current.value
      ensures ParseDateKey(records[k].dateKey).value <= ParseDateKey(records[i].dateKey).value
    {
      StampScoreMeaning(owner, current, records[k]);
    }
    StampScoreMeaning(owner, current, records[i]);
  }

  /** Saving under the exact key makes the GET see that document. */
  lemma ResolveAfterUpsert<T>(records: seq<Record<string, T>>, owner: string, dateKey: string, items: seq<T>, now: int)
    ensures Resolve(Upserted(records, owner, dateKey, items, now), owner, Some(dateKey)).Some?
    ensures Resolve(Upserted(records, owner, dateKey, items, now), owner, Some(dateKey)).value.items == items
  {
    UpsertedMeaning(records, owner, dateKey, items, now);
  }

  // ---------------------------------------------------------------------------
  // The owners

  /** The owners of the documents, each once, in the order the documents
      first show them (`distinct("dealerName")`, or the keys of a map filled
      document by document). */
  function Owners<D, T>(docs: seq<Record<D, T>>): (r: seq<string>)
    decreases |docs|
  {
    if docs == [] then []
    else
      var n := |docs| - 1;
      var p := Owners(docs[..n]);
      if docs[n].owner in p then p else p + [docs[n].owner]
  }

  /** The names are those of the documents, each once. */
  lemma {:induction false} OwnersMeaning<D, T>(docs: seq<Record<D, T>>)
    ensures forall d :: d in Owners(docs) <==> exists x :: x in docs && x.owner == d
    ensures forall a, b :: 0 <= a < b < |Owners(docs)| ==> Owners(docs)[a] != Owners(docs)[b]
    decreases |docs|
  {
    if docs != [] {
      var n := |docs| - 1;
      OwnersMeaning(docs[..n]);
      assert docs == docs[..n] + [docs[n]];
      assert forall x :: x in docs <==> x in docs[..n] || x == docs[n];
    }
  }

  // ---------------------------------------------------------------------------
  // Latest by key string

  /** `.sort({ commissionDate: -1 })`: a greater key string first. */
  function LaterKey<T>(): (Record<string, T>, Record<string, T>) -> bool {
    (a: Record<string, T>, b: Record<string, T>) => Sorting.StrLess(b.dateKey, a.dateKey)
  }

  /** `find({ owner })`: the owner's documents, in store order. */
  function OwnedBy<D, T>(records: seq<Record<D, T>>, owner: string): (r: seq<Record<D, T>>)
    ensures forall j :: 0 <= j < |r| ==> r[j] in records && r[j].owner == owner
    ensures forall j :: 0 <= j < |records| && records[j].owner == owner ==> records[j] in r
  {
    if records == [] then []
    else
      var rest := OwnedBy(records[1..], owner);
      assert forall j :: 1 <= j < |records| ==> records[j] == records[1..][j - 1];
      if records[0].owner == owner then [records[0]] + rest else rest
  }

  /** `findOne({owner}).sort({commissionDate: -1})`. */
  function LatestByKey<T>(records: seq<Record<string, T>>, owner: string): Option<Record<string, T>> {
    var own := OwnedBy(records, owner);
    if own == [] then None else Some(Sorting.SortBy(own, LaterKey())[0])
  }

  lemma LaterKeyWeak<T(!new)>()
    ensures Sorting.StrictWeakOrder(LaterKey<T>())
  {
    Sorting.StrLessTotal();
    var before := LaterKey<T>();
    var later := (a: string, b: string) => Sorting.StrLess(b, a);
    assert Sorting.StrictTotalOrder(later);
    Sorting.KeyedWeakOrder(before, (r: Record<string, T>) => r.dateKey, later);
  }

  /** The document found is the owner's and no other document of the owner
      has a greater key string; there is one whenever the owner has any. */
  lemma LatestByKeyMeaning<T(!new)>(records: seq<Record<string, T>>, owner: string)
    ensures LatestByKey(records, owner).None? <==> forall x :: x in records ==> x.owner != owner
    ensures LatestByKey(records, owner).Some? ==>
      var r := LatestByKey(records, owner).value;
      && r in records && r.owner == owner
      && forall x :: x in records && x.owner == owner ==> !Sorting.StrLess(r.dateKey, x.dateKey)
  {
    var own := OwnedBy(records, owner);
    if own != [] {
      assert own[0] in own;
      var sorted := Sorting.SortBy(own, LaterKey());
      LaterKeyWeak<T>();
      Sorting.SortBySorted(own, LaterKey());
      assert sorted[0] in multiset(own);
      forall x | x in records && x.owner == owner
        ensures !Sorting.StrLess(sorted[0].dateKey, x.dateKey)
      {
        assert x in multiset(sorted);
        var j :| 0 <= j < |sorted| && sorted[j] == x;
        if j > 0 {
          assert !LaterKey()(sorted[j], sorted[0]);
        } else {
          Sorting.StrLessTotal();
        }
      }
    }
  }

  /** The greatest key string need not be the latest date: with documents
      keyed "01022025" (1 February) and "31012025" (31 January) the report
      takes the January one. */
  lemma LatestKeyIsNotLatestDate()
    ensures var recs := [Record("p", "01022025", [1], 0), Record("p", "31012025", [2], 0)];
      && LatestByKey(recs, "p") == Some(recs[1])
      && Sorting.StrLess(recs[0].dateKey, recs[1].dateKey)
      && ParseDateKey("31012025").Some? && ParseDateKey("01022025").Some?
      && ParseDateKey("31012025").value < ParseDateKey("01022025").value
  {
    JanuaryKeyIsGreater();
    StringOrderIsNotChronological();
  }

  lemma JanuaryKeyIsGreater()
    ensures var recs := [Record("p", "01022025", [1], 0), Record("p", "31012025", [2], 0)];
      LatestByKey(recs, "p") == Some(recs[1])
  {
    var recs := [Record("p", "01022025", [1], 0), Record("p", "31012025", [2], 0)];
    assert Sorting.StrLess("01022025", "31012025") by {
      assert "01022025"[0] < "31012025"[0];
    }
    assert OwnedBy(recs, "p") == recs by {
      assert recs[1..] == [recs[1]];
      assert OwnedBy([recs[1]], "p") == [recs[1]];
    }
    assert Sorting.SortBy([recs[1]], LaterKey()) == [recs[1]];
    assert recs[1..] == [recs[1]];
    assert LaterKey()(recs[1], recs[0]);
  }

  // ---------------------------------------------------------------------------
  // The dealer documents in force: the latest per dealer

  function DateOf<T>(r: Record<int, T>): int { r.dateKey }

  function OwnerOf<T>(r: Record<int, T>): string { r.owner }

  /** `find({ date: { $lte: target } })`. */
  function UpTo<T>(docs: seq<Record<int, T>>, target: int): (r: seq<Record<int, T>>)
    ensures forall j :: 0 <= j < |r| ==> r[j] in docs && r[j].dateKey <= target
    ensures forall j :: 0 <= j < |docs| && docs[j].dateKey <= target ==> docs[j] in r
  {
    if docs == [] then []
    else
      var rest := UpTo(docs[1..], target);
      assert forall j :: 1 <= j < |docs| ==> docs[j] == docs[1..][j - 1];
      if docs[0].dateKey <= target then [docs[0]] + rest else rest
  }

  /** The documents with a non-empty dealer name (`if (dName && ...)`). */
  function Named<T>(docs: seq<Record<int, T>>): (r: seq<Record<int, T>>)
    ensures forall j :: 0 <= j < |r| ==> r[j] in docs && r[j].owner != ""
    ensures forall j :: 0 <= j < |docs| && docs[j].owner != "" ==> docs[j] in r
  {
    if docs == [] then []
    else
      var rest := Named(docs[1..]);
      assert forall j :: 1 <= j < |docs| ==> docs[j] == docs[1..][j - 1];
      if docs[0].owner != "" then [docs[0]] + rest else rest
  }

  /** `.sort({ date: -1 })`, then the first document per dealer name;
      documents without a dealer name never enter the map. */
  function LatestPerOwner<T>(docs: seq<Record<int, T>>, target: int): seq<Record<int, T>> {
    Named(Keyed.FirstsBy(NewestFirst(UpTo(docs, target)), OwnerOf))
  }

  function NewestFirst<T>(docs: seq<Record<int, T>>): seq<Record<int, T>> {
    Sorting.SortBy(docs, Sorting.HigherFirst(DateOf))
  }

  /** `.sort({ date: -1 })` and the head: the first document, in store
      order, of those with the latest date; none for no documents. */
  function Newest<T>(docs: seq<Record<int, T>>): Option<Record<int, T>> {
    if docs == [] then None else Some(NewestFirst(docs)[0])
  }

  lemma NewestMeaning<T>(docs: seq<Record<int, T>>)
    ensures Newest(docs).None? <==> docs == []
    ensures Newest(docs).Some? ==>
      var i := Sorting.FirstMaxIndex(docs, DateOf);
      && Newest(docs).value == docs[i]
      && (forall x :: x in docs ==> x.dateKey <= docs[i].dateKey)
      && (forall j :: 0 <= j < i ==> docs[j].dateKey < docs[i].dateKey)
  {
    if docs != [] {
      Sorting.SortHighestFirstHead(docs, DateOf);
    }
  }

  /** Sorting keeps the documents and orders them newest first. */
  lemma NewestFirstMeaning<T(!new)>(docs: seq<Record<int, T>>)
    ensures forall x :: x in docs <==> x in NewestFirst(docs)
    ensures Sorting.Sorted(NewestFirst(docs), Sorting.HigherFirst(DateOf))
  {
    var sorted := NewestFirst(docs);
    Sorting.HigherFirstWeak(DateOf<T>);
    Sorting.SortBySorted(docs, Sorting.HigherFirst(DateOf));
    assert forall x :: x in docs <==> x in multiset(docs);
    assert forall x :: x in sorted <==> x in multiset(sorted);
  }

  /** In a list sorted newest first, the first document of a dealer is no
      older than any other document of that dealer. */
  lemma FirstIsNewest<T>(sorted: seq<Record<int, T>>, f: nat, x: Record<int, T>)
    requires Sorting.Sorted(sorted, Sorting.HigherFirst(DateOf))
    requires Keyed.FirstIndex(sorted, x.owner, OwnerOf) == Some(f)
    requires x in sorted
    ensures x.dateKey <= sorted[f].dateKey
  {
    var j :| 0 <= j < |sorted| && sorted[j] == x;
    assert OwnerOf(sorted[j]) == x.owner;
    assert f <= j;
    if f < j {
      assert !Sorting.HigherFirst(DateOf)(sorted[j], sorted[f]);
      Sorting.HigherFirstMeans(DateOf, sorted[j], sorted[f]);
    }
  }

  /** Each dealer with a document on or before the target appears once, and
      with its latest such document. */
  lemma LatestPerOwnerMeaning<T(!new)>(docs: seq<Record<int, T>>, target: int)
    ensures var r := LatestPerOwner(docs, target);
      && (forall m :: 0 <= m < |r| ==> r[m] in docs && r[m].owner != "" && r[m].dateKey <= target)
      && (forall m, m' :: 0 <= m < m' < |r| ==> r[m].owner != r[m'].owner)
      && (forall m, x :: 0 <= m < |r| && x in docs && x.owner == r[m].owner && x.dateKey <= target ==> x.dateKey <= r[m].dateKey)
      && (forall x :: x in docs && x.owner != "" && x.dateKey <= target ==> exists m :: 0 <= m < |r| && r[m].owner == x.owner)
  {
    var firsts := Keyed.FirstsBy(NewestFirst(UpTo(docs, target)), OwnerOf);
    Keyed.FirstsByMeaning(NewestFirst(UpTo(docs, target)), OwnerOf);
    NamedDistinct(firsts);
    forall m | 0 <= m < |LatestPerOwner(docs, target)|
      ensures LatestPerOwner(docs, target)[m] in docs && LatestPerOwner(docs, target)[m].dateKey <= target
      ensures forall x :: x in docs && x.owner == LatestPerOwner(docs, target)[m].owner && x.dateKey <= target
                ==> x.dateKey <= LatestPerOwner(docs, target)[m].dateKey
    {
      LatestIsNewest(docs, target, LatestPerOwner(docs, target)[m]);
    }
    forall x | x in docs && x.owner != "" && x.dateKey <= target
      ensures exists m :: 0 <= m < |LatestPerOwner(docs, target)| && LatestPerOwner(docs, target)[m].owner == x.owner
    {
      LatestCovers(docs, target, x);
    }
  }

  lemma LatestIsNewest<T(!new)>(docs: seq<Record<int, T>>, target: int, y: Record<int, T>)
    requires y in LatestPerOwner(docs, target)
    ensures y in docs && y.dateKey <= target
    ensures forall x :: x in docs && x.owner == y.owner && x.dateKey <= target ==> x.dateKey <= y.dateKey
  {
    var up := UpTo(docs, target);
    var sorted := NewestFirst(up);
    var firsts := Keyed.FirstsBy(sorted, OwnerOf);
    NewestFirstMeaning(up);
    Keyed.FirstsByMeaning(sorted, OwnerOf);
    var g :| 0 <= g < |firsts| && firsts[g] == y;
    var f := Keyed.FirstIndex(sorted, OwnerOf(y), OwnerOf).value;
    assert y == sorted[f];
    assert y in up;
    forall x | x in docs && x.owner == y.owner && x.dateKey <= target
      ensures x.dateKey <= y.dateKey
    {
      var i :| 0 <= i < |docs| && docs[i] == x;
      assert x in up;
      FirstIsNewest(sorted, f, x);
    }
  }

  lemma LatestCovers<T(!new)>(docs: seq<Record<int, T>>, target: int, x: Record<int, T>)
    requires x in docs && x.owner != "" && x.dateKey <= target
    ensures exists m :: 0 <= m < |LatestPerOwner(docs, target)| && LatestPerOwner(docs, target)[m].owner == x.owner
  {
    var up := UpTo(docs, target);
    var sorted := NewestFirst(up);
    var firsts := Keyed.FirstsBy(sorted, OwnerOf);
    var i :| 0 <= i < |docs| && docs[i] == x;
    assert x in up;
    NewestFirstMeaning(up);
    var j :| 0 <= j < |sorted| && sorted[j] == x;
    var g := Keyed.FirstsByHasKey(sorted, OwnerOf, j);
    assert firsts[g].owner == x.owner;
    assert firsts[g] in Named(firsts);
    assert LatestPerOwner(docs, target) == Named(firsts);
    var m :| 0 <= m < |Named(firsts)| && Named(firsts)[m] == firsts[g];
  }

  /** Dropping the unnamed documents keeps the dealer names distinct. */
  lemma {:induction false} NamedDistinct<T>(firsts: seq<Record<int, T>>)
    requires forall m, m' :: 0 <= m < m' < |firsts| ==> OwnerOf(firsts[m]) != OwnerOf(firsts[m'])
    ensures forall m, m' :: 0 <= m < m' < |Named(firsts)| ==> Named(firsts)[m].owner != Named(firsts)[m'].owner
  {
    if firsts != [] {
      var rest := firsts[1..];
      assert forall m, m' :: 0 <= m < m' < |rest| ==> OwnerOf(rest[m]) != OwnerOf(rest[m']) by {
        assert forall m :: 0 <= m < |rest| ==> rest[m] == firsts[m + 1];
      }
      NamedDistinct(rest);
      assert forall x :: x in rest ==> x.owner != firsts[0].owner by {
        assert forall m :: 0 <= m < |rest| ==> rest[m] == firsts[m + 1];
      }
    }
  }
}
