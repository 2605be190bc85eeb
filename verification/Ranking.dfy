/** Ranked search over two sources: stable sort by falling score, truncate, merge. */
module Ranking {
  import opened Prelude

  datatype Scored<T> = Scored(item: T, score: real)

  function Insert<T>(x: Scored<T>, s: seq<Scored<T>>): seq<Scored<T>> {
    if s == [] || x.score >= s[0].score then [x] + s else [s[0]] + Insert(x, s[1..])
  }

  /** What `sort_by` on falling scores yields (see `StableSortIsUnique`). */
  function StableSort<T>(s: seq<Scored<T>>): seq<Scored<T>> {
    if s == [] then [] else Insert(s[0], StableSort(s[1..]))
  }

  function Truncate<T>(s: seq<T>, limit: nat): (r: seq<T>)
    ensures r <= s && |r| == if |s| <= limit then |s| else limit
  {
    if |s| <= limit then s else s[..limit]
  }

  ghost predicate Descending<T>(s: seq<Scored<T>>) {
    forall i, j :: 0 <= i < j < |s| ==> s[i].score >= s[j].score
  }

  /** The elements of one score, in their order. */
  ghost function OfScore<T>(s: seq<Scored<T>>, v: real): seq<Scored<T>> {
    if s == [] then []
    else if s[0].score == v then [s[0]] + OfScore(s[1..], v)
    else OfScore(s[1..], v)
  }

  /** Same elements, and those of equal score in the same order. */
  ghost predicate StableOf<T>(t: seq<Scored<T>>, s: seq<Scored<T>>) {
    forall v :: OfScore(t, v) == OfScore(s, v)
  }

  lemma DescendingCons<T>(x: Scored<T>, s: seq<Scored<T>>)
    requires Descending(s) && forall y :: y in s ==> x.score >= y.score
    ensures Descending([x] + s)
  {
    forall i, j | 0 <= i < j < |[x] + s|
      ensures ([x] + s)[i].score >= ([x] + s)[j].score
    {
      assert s[j - 1] in s;
    }
  }

  lemma HeadIsHighest<T>(s: seq<Scored<T>>)
    requires s != [] && Descending(s)
    ensures forall y :: y in s ==> s[0].score >= y.score
    ensures Descending(s[1..])
  {
  }

  lemma {:induction false} InsertMembers<T>(x: Scored<T>, s: seq<Scored<T>>, y: Scored<T>)
    ensures y in Insert(x, s) <==> y == x || y in s
  {
    if s == [] || x.score >= s[0].score {
    } else {
      InsertMembers(x, s[1..], y);
      assert s == [s[0]] + s[1..];
    }
  }

  lemma {:induction false} InsertCorrect<T>(x: Scored<T>, s: seq<Scored<T>>)
    requires Descending(s)
    ensures Descending(Insert(x, s))
  {
    if s == [] {
    } else {
      HeadIsHighest(s);
      if x.score >= s[0].score {
        DescendingCons(x, s);
      } else {
        InsertCorrect(x, s[1..]);
        forall y | y in Insert(x, s[1..])
          ensures s[0].score >= y.score
        {
          InsertMembers(x, s[1..], y);
        }
        DescendingCons(s[0], Insert(x, s[1..]));
      }
    }
  }

  lemma {:induction false} InsertStable<T>(x: Scored<T>, s: seq<Scored<T>>, v: real)
    ensures OfScore(Insert(x, s), v) == OfScore([x] + s, v)
  {
    assert ([x] + s)[1..] == s;
    if s == [] || x.score >= s[0].score {
    } else {
      InsertStable(x, s[1..], v);
      assert ([x] + s[1..])[1..] == s[1..];
      assert ([s[0]] + Insert(x, s[1..]))[1..] == Insert(x, s[1..]);
    }
  }

  lemma {:induction false} StableSortCorrect<T>(s: seq<Scored<T>>)
    ensures Descending(StableSort(s)) && StableOf(StableSort(s), s)
  {
    if s == [] {
    } else {
      StableSortCorrect(s[1..]);
      InsertCorrect(s[0], StableSort(s[1..]));
      forall v
        ensures OfScore(StableSort(s), v) == OfScore(s, v)
      {
        InsertStable(s[0], StableSort(s[1..]), v);
        assert ([s[0]] + StableSort(s[1..]))[1..] == StableSort(s[1..]);
      }
    }
  }

  lemma {:induction false} OfScoreMember<T>(s: seq<Scored<T>>, v: real)
    ensures OfScore(s, v) != [] ==> exists i :: 0 <= i < |s| && s[i].score == v
  {
    if s == [] || s[0].score == v {
    } else {
      OfScoreMember(s[1..], v);
      if OfScore(s, v) != [] {
        var i :| 0 <= i < |s[1..]| && s[1..][i].score == v;
        assert s[i + 1].score == v;
      }
    }
  }

  lemma FirstNoLower<T>(a: seq<Scored<T>>, b: seq<Scored<T>>)
    requires a != [] && Descending(b) && StableOf(a, b)
    ensures b != [] && b[0].score >= a[0].score
  {
    assert OfScore(b, a[0].score) == OfScore(a, a[0].score) != [];
    OfScoreMember(b, a[0].score);
  }

  /** A falling list is determined by its elements of each score. */
  lemma {:induction false} DescendingDetermined<T>(a: seq<Scored<T>>, b: seq<Scored<T>>)
    requires Descending(a) && Descending(b) && StableOf(a, b)
    ensures a == b
  {
    if a == [] {
      if b != [] {
        FirstNoLower(b, a);
      }
    } else {
      FirstNoLower(a, b);
      FirstNoLower(b, a);
      var v0 := a[0].score;
      assert OfScore(a, v0) == [a[0]] + OfScore(a[1..], v0);
      assert OfScore(b, v0) == [b[0]] + OfScore(b[1..], v0);
      assert OfScore(a, v0)[0] == OfScore(b, v0)[0];
      forall v
        ensures OfScore(a[1..], v) == OfScore(b[1..], v)
      {
        assert OfScore(a, v) == OfScore(b, v);
        assert v == v0 ==> OfScore(a, v)[1..] == OfScore(a[1..], v) && OfScore(b, v)[1..] == OfScore(b[1..], v);
      }
      DescendingDetermined(a[1..], b[1..]);
      assert a == [a[0]] + a[1..] && b == [b[0]] + b[1..];
    }
  }

  /** There is only one stable sort. */
  lemma StableSortIsUnique<T>(s: seq<Scored<T>>, t: seq<Scored<T>>)
    ensures t == StableSort(s) <==> Descending(t) && StableOf(t, s)
  {
    StableSortCorrect(s);
    if Descending(t) && StableOf(t, s) {
      DescendingDetermined(t, StableSort(s));
    }
  }

  lemma {:induction false} InsertAt<T>(x: Scored<T>, t: seq<Scored<T>>) returns (k: nat)
    requires Descending(t)
    ensures k <= |t| && Insert(x, t) == t[..k] + [x] + t[k..]
    ensures forall i :: 0 <= i < k ==> t[i].score > x.score
    ensures forall i :: k <= i < |t| ==> x.score >= t[i].score
  {
    if t == [] || x.score >= t[0].score {
      k := 0;
    } else {
      var j := InsertAt(x, t[1..]);
      k := j + 1;
      assert t == [t[0]] + t[1..];
    }
  }

  /** Position x of the list comes before position y: a higher score, or the same and earlier in the list. */
  ghost predicate Ahead<T>(s: seq<Scored<T>>, x: nat, y: nat)
    requires x < |s| && y < |s|
  {
    s[x].score > s[y].score || (s[x].score == s[y].score && x < y)
  }

  /** The sorted list names each position of the list once, in that order. */
  ghost predicate SortedPositions<T>(s: seq<Scored<T>>, t: seq<Scored<T>>, p: seq<nat>) {
    && |p| == |t| == |s|
    && (forall i :: 0 <= i < |p| ==> p[i] < |s| && t[i] == s[p[i]])
    && (forall i, j :: 0 <= i < j < |p| ==> Ahead(s, p[i], p[j]))
    && (forall k :: 0 <= k < |s| ==> k in p)
  }

  lemma {:induction false} SortPositions<T>(s: seq<Scored<T>>) returns (p: seq<nat>)
    ensures SortedPositions(s, StableSort(s), p)
  {
    if s == [] {
      p := [];
    } else {
      var x, rest := s[0], s[1..];
      var q := SortPositions(rest);
      StableSortCorrect(rest);
      var k := InsertAt(x, StableSort(rest));
      p := PositionsWithFirst(s, StableSort(rest), q, k);
    }
  }

  /** The first element of the list goes to place k of the sorted others. */
  lemma PositionsWithFirst<T>(s: seq<Scored<T>>, t: seq<Scored<T>>, q: seq<nat>, k: nat) returns (p: seq<nat>)
    requires s != [] && SortedPositions(s[1..], t, q) && k <= |t|
    requires forall i :: 0 <= i < k ==> t[i].score > s[0].score
    requires forall i :: k <= i < |t| ==> s[0].score >= t[i].score
    ensures SortedPositions(s, t[..k] + [s[0]] + t[k..], p)
  {
    p := seq(|q| + 1, i requires 0 <= i <= |q| => if i < k then q[i] + 1 else if i == k then 0 else q[i - 1] + 1);
    forall i, j | 0 <= i < j < |p|
      ensures p[i] < |s| && p[j] < |s| && Ahead(s, p[i], p[j])
    {
      var i', j' := if i < k then i else i - 1, if j < k then j else j - 1;
      if i != k && j != k {
        assert Ahead(s[1..], q[i'], q[j']);
      } else if i == k {
        assert t[j'] == s[1..][q[j']];
      } else {
        assert t[i'] == s[1..][q[i']];
      }
    }
    forall n | 0 <= n < |s|
      ensures n in p
    {
      assert n > 0 ==> n - 1 in q;
      PositionKept(q, k, p, n);
    }
  }

  lemma PositionKept(q: seq<nat>, k: nat, p: seq<nat>, n: nat)
    requires k <= |q| && |p| == |q| + 1 && (n > 0 ==> n - 1 in q)
    requires p[k] == 0 && forall i :: 0 <= i < |q| ==> p[if i < k then i else i + 1] == q[i] + 1
    ensures n in p
  {
    if n > 0 {
      var i :| 0 <= i < |q| && q[i] == n - 1;
      assert p[if i < k then i else i + 1] == n;
    }
  }

  ghost function Merge<T>(a: seq<Scored<T>>, b: seq<Scored<T>>): seq<Scored<T>>
    decreases |a| + |b|
  {
    if a == [] then b
    else if b == [] then a
    else if a[0].score >= b[0].score then [a[0]] + Merge(a[1..], b)
    else [b[0]] + Merge(a, b[1..])
  }

  lemma {:induction false} InsertMerge<T>(x: Scored<T>, a: seq<Scored<T>>, b: seq<Scored<T>>)
    ensures Insert(x, Merge(a, b)) == Merge(Insert(x, a), b)
    decreases |a| + |b|
  {
    var xa := [x] + a;
    assert xa[1..] == a;
    if b == [] {
    } else if a != [] && a[0].score >= b[0].score {
      if x.score < a[0].score {
        InsertMerge(x, a[1..], b);
        assert ([a[0]] + Merge(a[1..], b))[1..] == Merge(a[1..], b);
        assert ([a[0]] + Insert(x, a[1..]))[1..] == Insert(x, a[1..]);
      }
    } else if x.score < b[0].score {
      InsertMerge(x, a, b[1..]);
      assert a != [] ==> ([b[0]] + Merge(a, b[1..]))[1..] == Merge(a, b[1..]);
    }
  }

  lemma {:induction false} SortConcatenation<T>(a: seq<Scored<T>>, b: seq<Scored<T>>)
    ensures StableSort(a + b) == Merge(StableSort(a), StableSort(b))
  {
    if a == [] {
      assert a + b == b;
    } else {
      assert (a + b)[0] == a[0] && (a + b)[1..] == a[1..] + b;
      SortConcatenation(a[1..], b);
      InsertMerge(a[0], StableSort(a[1..]), StableSort(b));
    }
  }

  lemma TruncateTwice<T>(s: seq<T>, i: nat, k: nat)
    requires k <= i
    ensures Truncate(Truncate(s, i), k) == Truncate(s, k)
  {
  }

  lemma TruncateTail<T>(s: seq<T>, i: nat)
    requires s != [] && i > 0
    ensures Truncate(s, i) != [] && Truncate(s, i)[0] == s[0] && Truncate(s, i)[1..] == Truncate(s[1..], i - 1)
  {
  }

  /** The first k elements of a merge, taken one by one. */
  ghost function MergeTop<T>(a: seq<Scored<T>>, b: seq<Scored<T>>, k: nat): seq<Scored<T>> {
    if k == 0 then []
    else if a == [] then Truncate(b, k)
    else if b == [] then Truncate(a, k)
    else if a[0].score >= b[0].score then [a[0]] + MergeTop(a[1..], b, k - 1)
    else [b[0]] + MergeTop(a, b[1..], k - 1)
  }

  lemma {:induction false} MergeTopIsTruncated<T>(a: seq<Scored<T>>, b: seq<Scored<T>>, k: nat)
    ensures MergeTop(a, b, k) == Truncate(Merge(a, b), k)
    decreases k
  {
    if k == 0 || a == [] || b == [] {
    } else {
      if a[0].score >= b[0].score {
        MergeTopIsTruncated(a[1..], b, k - 1);
      } else {
        MergeTopIsTruncated(a, b[1..], k - 1);
      }
    }
  }

  /** They come from the first k of either side. */
  lemma {:induction false} MergeTopOfTruncated<T>(a: seq<Scored<T>>, b: seq<Scored<T>>, i: nat, j: nat, k: nat)
    requires k <= i && k <= j
    ensures MergeTop(Truncate(a, i), Truncate(b, j), k) == MergeTop(a, b, k)
    decreases k
  {
    if k == 0 {
    } else {
      if a == [] || b == [] {
        TruncateTwice(a, i, k);
        TruncateTwice(b, j, k);
      } else {
        TruncateTail(a, i);
        TruncateTail(b, j);
        if a[0].score >= b[0].score {
          MergeTopOfTruncated(a[1..], b, i - 1, j, k - 1);
        } else {
          MergeTopOfTruncated(a, b[1..], i, j - 1, k - 1);
        }
      }
    }
  }

  lemma SortedStays<T>(s: seq<Scored<T>>)
    requires Descending(s)
    ensures StableSort(s) == s
  {
    StableSortIsUnique(s, s);
  }

  ghost function TopK<T>(hits: seq<Scored<T>>, limit: nat): seq<Scored<T>> {
    Truncate(StableSort(hits), limit)
  }

  /** Truncating each source before merging loses nothing of the overall top list. */
  lemma TwoSourceTopK<T>(a: seq<Scored<T>>, b: seq<Scored<T>>, limit: nat)
    ensures TopK(TopK(a, limit) + TopK(b, limit), limit) == TopK(a + b, limit)
  {
    StableSortCorrect(a);
    StableSortCorrect(b);
    SortConcatenation(TopK(a, limit), TopK(b, limit));
    SortedStays(TopK(a, limit));
    SortedStays(TopK(b, limit));
    MergeTopOfTruncated(StableSort(a), StableSort(b), limit, limit, limit);
    MergeTopIsTruncated(StableSort(a), StableSort(b), limit);
    MergeTopIsTruncated(TopK(a, limit), TopK(b, limit), limit);
    SortConcatenation(a, b);
  }

  const MIN_SCORE := 0.1

  /** The rows above the threshold, in table order. */
  ghost function Hits<R>(rows: seq<R>, score: R -> real): seq<Scored<R>> {
    if rows == [] then []
    else
      var init, last := rows[..|rows| - 1], rows[|rows| - 1];
      if score(last) > MIN_SCORE then Hits(init, score) + [Scored(last, score(last))] else Hits(init, score)
  }

  /** The hits are the rows that score more than 0.1, each once and in table order. */
  ghost predicate HitsAt<R>(rows: seq<R>, score: R -> real, hits: seq<Scored<R>>, at: seq<nat>) {
    && |at| == |hits|
    && (forall i, j :: 0 <= i < j < |at| ==> at[i] < at[j])
    && (forall i :: 0 <= i < |at| ==> at[i] < |rows| && hits[i] == Scored(rows[at[i]], score(rows[at[i]])))
    && (forall k :: 0 <= k < |rows| ==> (k in at <==> score(rows[k]) > 0.1))
  }

  lemma HitsAtSnoc<R>(rows: seq<R>, score: R -> real, hits: seq<Scored<R>>, at: seq<nat>)
    requires rows != [] && HitsAt(rows[..|rows| - 1], score, hits, at)
    ensures var n := |rows| - 1;
            if score(rows[n]) > 0.1 then HitsAt(rows, score, hits + [Scored(rows[n], score(rows[n]))], at + [n])
            else HitsAt(rows, score, hits, at)
  {
    var n, init := |rows| - 1, rows[..|rows| - 1];
    var all := at + [n];
    forall k | 0 <= k < n
      ensures k in at <==> score(rows[k]) > 0.1
      ensures k in all <==> k in at
    {
      assert init[k] == rows[k];
    }
    assert all[|at|] == n;
  }

  lemma {:induction false} HitPositions<R>(rows: seq<R>, score: R -> real) returns (at: seq<nat>)
    ensures HitsAt(rows, score, Hits(rows, score), at)
  {
    if rows == [] {
      at := [];
    } else {
      var n := |rows| - 1;
      var before := HitPositions(rows[..n], score);
      HitsAtSnoc(rows, score, Hits(rows[..n], score), before);
      at := if score(rows[n]) > 0.1 then before + [n] else before;
    }
  }

  lemma {:induction false} HitsAppend<R>(a: seq<R>, b: seq<R>, score: R -> real)
    ensures Hits(a + b, score) == Hits(a, score) + Hits(b, score)
  {
    if b == [] {
      assert a + b == a;
    } else {
      var n := |b| - 1;
      assert (a + b)[..|a + b| - 1] == a + b[..n];
      HitsAppend(a, b[..n], score);
    }
  }

  /** Row x comes before row y: a higher score, or the same and earlier in the table. */
  ghost predicate Outranks<R>(rows: seq<R>, score: R -> real, x: nat, y: nat)
    requires x < |rows| && y < |rows|
  {
    score(rows[x]) > score(rows[y]) || (score(rows[x]) == score(rows[y]) && x < y)
  }

  /**
   * The results are the rows at positions p, with their scores, in rank order; all
   * score more than 0.1, and a row that does and is left out ranks after all of
   * them and found the limit reached.
   */
  ghost predicate IsBest<R>(rows: seq<R>, score: R -> real, limit: nat, results: seq<Scored<R>>, p: seq<nat>) {
    && |p| == |results| <= limit
    && (forall i :: 0 <= i < |p| ==>
          p[i] < |rows| && score(rows[p[i]]) > 0.1 && results[i] == Scored(rows[p[i]], score(rows[p[i]])))
    && (forall i, j :: 0 <= i < j < |p| ==> Outranks(rows, score, p[i], p[j]))
    && (forall k :: 0 <= k < |rows| && score(rows[k]) > 0.1 && k !in p ==>
          |p| == limit && forall i :: 0 <= i < |p| ==> Outranks(rows, score, p[i], k))
  }

  lemma TopHitsAreBest<R>(rows: seq<R>, score: R -> real, limit: nat) returns (p: seq<nat>)
    ensures IsBest(rows, score, limit, TopK(Hits(rows, score), limit), p)
  {
    var hits := Hits(rows, score);
    var at := HitPositions(rows, score);
    var order := SortPositions(hits);
    var ranked: seq<nat> := seq(|order|, i requires 0 <= i < |order| => at[order[i]]);
    RanksHits(rows, score, hits, at, order, ranked);
    p := Truncate(ranked, limit);
    FirstAreBest(rows, score, limit, StableSort(hits), ranked);
  }

  /** All rows that score more than 0.1, in rank order, and their positions. */
  ghost predicate Ranked<R>(rows: seq<R>, score: R -> real, sorted: seq<Scored<R>>, ranked: seq<nat>) {
    && |ranked| == |sorted|
    && (forall i :: 0 <= i < |ranked| ==>
          ranked[i] < |rows| && sorted[i] == Scored(rows[ranked[i]], score(rows[ranked[i]]))
          && score(rows[ranked[i]]) > 0.1)
    && (forall i, j :: 0 <= i < j < |ranked| ==> Outranks(rows, score, ranked[i], ranked[j]))
    && (forall k :: 0 <= k < |rows| && score(rows[k]) > 0.1 ==> k in ranked)
  }

  lemma FirstAreBest<R>(rows: seq<R>, score: R -> real, limit: nat, sorted: seq<Scored<R>>, ranked: seq<nat>)
    requires Ranked(rows, score, sorted, ranked)
    ensures IsBest(rows, score, limit, Truncate(sorted, limit), Truncate(ranked, limit))
  {
    var p := Truncate(ranked, limit);
    forall k | 0 <= k < |rows| && score(rows[k]) > 0.1
      ensures k in p || (|p| == limit && forall i :: 0 <= i < |p| ==> Outranks(rows, score, p[i], k))
    {
      InOrOutranked(rows, score, limit, ranked, k);
    }
  }

  lemma InOrOutranked<R>(rows: seq<R>, score: R -> real, limit: nat, ranked: seq<nat>, k: nat)
    requires k < |rows| && k in ranked && forall i :: 0 <= i < |ranked| ==> ranked[i] < |rows|
    requires forall i, j :: 0 <= i < j < |ranked| ==> Outranks(rows, score, ranked[i], ranked[j])
    ensures var p := Truncate(ranked, limit);
            k in p || (|p| == limit && forall i :: 0 <= i < |p| ==> Outranks(rows, score, p[i], k))
  {
    var p := Truncate(ranked, limit);
    var place :| 0 <= place < |ranked| && ranked[place] == k;
    if place < |p| {
      assert p[place] == k;
    }
  }

  /** The positions in the table of the hits in sorted order. */
  lemma RanksHits<R>(rows: seq<R>, score: R -> real, hits: seq<Scored<R>>, at: seq<nat>, order: seq<nat>,
                     ranked: seq<nat>)
    requires HitsAt(rows, score, hits, at) && SortedPositions(hits, StableSort(hits), order)
    requires |ranked| == |order| && forall i :: 0 <= i < |order| ==> ranked[i] == at[order[i]]
    ensures Ranked(rows, score, StableSort(hits), ranked)
  {
    forall i | 0 <= i < |ranked|
      ensures score(rows[ranked[i]]) > 0.1
    {
      assert ranked[i] in at;
    }
    forall i, j | 0 <= i < j < |order|
      ensures Outranks(rows, score, ranked[i], ranked[j])
    {
      assert Ahead(hits, order[i], order[j]);
    }
    forall k | 0 <= k < |rows| && score(rows[k]) > 0.1
      ensures k in ranked
    {
      var h :| 0 <= h < |at| && at[h] == k;
      assert h in order;
      var i :| 0 <= i < |order| && order[i] == h;
      assert ranked[i] == k;
    }
  }

  /** `search_chunks` and `search_symbols`, on the rows of their tables. */
  method SearchTable<R>(rows: seq<R>, score: R -> real, limit: nat) returns (results: seq<Scored<R>>)
    ensures results == TopK(Hits(rows, score), limit)
    ensures exists p :: IsBest(rows, score, limit, results, p)
  {
    results := [];
    var i := 0;
    while i < |rows|
      invariant 0 <= i <= |rows|
      invariant results == Hits(rows[..i], score)
    {
      assert rows[..i + 1][..i] == rows[..i];
      var s := score(rows[i]);
      if s > MIN_SCORE {
        results := results + [Scored(rows[i], s)];
      }
      i := i + 1;
    }
    assert rows[..i] == rows;
    results := Truncate(StableSort(results), limit);
    ghost var p := TopHitsAreBest(rows, score, limit);
  }

  /** `search`: the best hits of both tables together, ties going to chunks before symbols and then to table order. */
  method Search<R>(chunkRows: seq<R>, symbolRows: seq<R>, score: R -> real, limit: nat)
    returns (results: seq<Scored<R>>)
    ensures results == TopK(Hits(chunkRows, score) + Hits(symbolRows, score), limit)
    ensures exists p :: IsBest(chunkRows + symbolRows, score, limit, results, p)
  {
    results := SearchTable(chunkRows, score, limit);
    var symbolResults := SearchTable(symbolRows, score, limit);
    results := results + symbolResults;
    TwoSourceTopK(Hits(chunkRows, score), Hits(symbolRows, score), limit);
    results := Truncate(StableSort(results), limit);
    HitsAppend(chunkRows, symbolRows, score);
    ghost var p := TopHitsAreBest(chunkRows + symbolRows, score, limit);
  }
}
