/**
 * The TF-IDF vectorizer. Documents are given as their lists of terms; reals
 * stand for floats, and `ln` and `sqrt` are parameters.
 */
module TfIdf {
  import opened Prelude
  import opened Similarity

  type Term = string
  type Document = seq<Term>

  /** The number of documents that contain the term. */
  ghost function DocsWith(documents: seq<Document>, t: Term): nat {
    if documents == [] then 0
    else DocsWith(documents[..|documents| - 1], t) + if t in documents[|documents| - 1] then 1 else 0
  }

  lemma {:induction false} DocsWithBound(documents: seq<Document>, t: Term)
    ensures DocsWith(documents, t) <= |documents|
    ensures DocsWith(documents, t) > 0 <==> exists d :: d in documents && t in d
  {
    if documents == [] {
    } else {
      var init, last := documents[..|documents| - 1], documents[|documents| - 1];
      DocsWithBound(init, t);
      assert documents == init + [last];
    }
  }

  /** The table counts the documents, and one more for each extra term. */
  ghost predicate Counted(freq: map<Term, nat>, documents: seq<Document>, extra: set<Term>) {
    && (forall t :: t in freq <==> DocsWith(documents, t) + (if t in extra then 1 else 0) > 0)
    && (forall t :: t in freq ==> freq[t] == DocsWith(documents, t) + if t in extra then 1 else 0)
  }

  /** The indices are distinct and are exactly as many as the range lo..hi has room for. */
  ghost predicate Indexed(index: map<Term, nat>, lo: nat, hi: nat) {
    && (forall t :: t in index ==> lo <= index[t] < hi)
    && (forall t, u :: t in index && u in index && index[t] == index[u] ==> t == u)
    && |index| == hi - lo
  }

  /** The terms of the documents, each with the number of documents that have it. */
  lemma FrequenciesMeaning(freq: map<Term, nat>, documents: seq<Document>)
    requires Counted(freq, documents, {})
    ensures forall t :: t in freq <==> exists d :: d in documents && t in d
    ensures forall t :: t in freq ==> freq[t] == |set i | 0 <= i < |documents| && t in documents[i]|
    ensures forall t :: t in freq ==> 1 <= freq[t] <= |documents|
  {
    forall t
      ensures t in freq <==> exists d :: d in documents && t in d
      ensures t in freq ==> 1 <= freq[t] <= |documents|
      ensures t in freq ==> freq[t] == |set i | 0 <= i < |documents| && t in documents[i]|
    {
      DocsWithBound(documents, t);
      DocsWithIsCount(documents, t);
    }
  }

  lemma CountOneMore(freq: map<Term, nat>, documents: seq<Document>, extra: set<Term>, t: Term)
    requires Counted(freq, documents, extra) && t !in extra
    ensures Counted(freq[t := (if t in freq then freq[t] else 0) + 1], documents, extra + {t})
  {
  }

  lemma CountDocument(freq: map<Term, nat>, documents: seq<Document>, doc: Document)
    requires Counted(freq, documents, Elements(doc))
    ensures Counted(freq, documents + [doc], {})
  {
    assert (documents + [doc])[..|documents|] == documents;
  }

  lemma IndexOneMore(index: map<Term, nat>, lo: nat, hi: nat, t: Term)
    requires Indexed(index, lo, hi) && lo <= hi
    ensures t !in index ==> Indexed(index[t := hi], lo, hi + 1)
  {
  }

  function Count(doc: Document, t: Term): nat {
    if doc == [] then 0 else Count(doc[..|doc| - 1], t) + if doc[|doc| - 1] == t then 1 else 0
  }

  /** The number of positions at which the document has the term. */
  lemma {:induction false} CountIsOccurrences(doc: Document, t: Term)
    ensures Count(doc, t) == |set i | 0 <= i < |doc| && doc[i] == t|
  {
    if doc == [] {
    } else {
      var n := |doc| - 1;
      CountIsOccurrences(doc[..n], t);
      var before := set i | 0 <= i < n && doc[..n][i] == t;
      var all := set i | 0 <= i < |doc| && doc[i] == t;
      if doc[n] == t {
        assert all == before + {n};
      } else {
        assert all == before;
      }
    }
  }

  lemma {:induction false} DocsWithIsCount(documents: seq<Document>, t: Term)
    ensures DocsWith(documents, t) == |set i | 0 <= i < |documents| && t in documents[i]|
  {
    if documents == [] {
    } else {
      var n := |documents| - 1;
      DocsWithIsCount(documents[..n], t);
      var before := set i | 0 <= i < n && t in documents[..n][i];
      var all := set i | 0 <= i < |documents| && t in documents[i];
      if t in documents[n] {
        assert all == before + {n};
      } else {
        assert all == before;
      }
    }
  }

  lemma {:induction false} CountPositive(doc: Document, t: Term)
    ensures Count(doc, t) > 0 <==> t in doc
  {
    if doc == [] {
    } else {
      CountPositive(doc[..|doc| - 1], t);
      assert doc == doc[..|doc| - 1] + [doc[|doc| - 1]];
    }
  }

  /** `compute_term_freq` at one term of the document. */
  function TermFreq(doc: Document, t: Term): real
    requires t in doc
  {
    Count(doc, t) as real / |doc| as real
  }

  function Idf(ln: real -> real, numDocs: nat, df: nat): real {
    ln((numDocs as real + 1.0) / (df as real + 1.0)) + 1.0
  }

  /** The share of the term in the document's terms, times the smoothed logarithm of its rarity plus one. */
  ghost predicate IsTfIdf(ln: real -> real, occurrences: nat, length: nat, documentsWith: nat, documents: nat,
                          weight: real)
    requires length > 0
  {
    weight == occurrences as real / length as real
              * (ln((documents as real + 1.0) / (documentsWith as real + 1.0)) + 1.0)
  }

  ghost predicate IsLn(ln: real -> real) {
    forall x :: x >= 1.0 ==> ln(x) >= 0.0
  }

  lemma IdfAtLeastOne(ln: real -> real, numDocs: nat, df: nat)
    requires IsLn(ln) && df <= numDocs
    ensures Idf(ln, numDocs, df) >= 1.0
  {
    AtLeastOne(numDocs as real + 1.0, df as real + 1.0);
  }

  lemma AtLeastOne(x: real, y: real)
    requires x >= y > 0.0
    ensures x / y >= 1.0
  {
  }

  lemma QuotientPositive(x: real, y: real)
    requires x > 0.0 && y > 0.0
    ensures x / y > 0.0
  {
  }

  /** The vector has length one and the direction of the weights. */
  ghost predicate IsNormalised(sqrt: real -> real, weights: Vector, vector: Vector) {
    Norm(sqrt, weights) > 0.0 && Dot(vector, vector) == 1.0 && vector == Scale(1.0 / Norm(sqrt, weights), weights)
  }

  class TfIdfVectorizer {
    var documentFreq: map<Term, nat>
    var numDocs: nat
    var vocabSize: nat
    var termToIdx: map<Term, nat>

    constructor ()
      ensures Valid() && vocabSize == 0 && numDocs == 0
    {
      documentFreq, numDocs, vocabSize, termToIdx := map[], 0, 0, map[];
    }

    /** What `transform` relies on; every `fit` establishes it, also a refit that does not reset `vocab_size`. */
    ghost predicate Valid()
      reads this
    {
      && documentFreq.Keys == termToIdx.Keys
      && |termToIdx| <= vocabSize
      && Indexed(termToIdx, vocabSize - |termToIdx|, vocabSize)
      && (forall t :: t in documentFreq ==> 1 <= documentFreq[t] <= numDocs)
    }

    method Fit(documents: seq<Document>)
      modifies this
      ensures Valid()
      ensures numDocs == |documents| && Counted(documentFreq, documents, {})
      ensures forall t :: t in documentFreq <==> exists d :: d in documents && t in d
      ensures forall t :: t in documentFreq ==>
                documentFreq[t] == |set i | 0 <= i < |documents| && t in documents[i]|
      ensures vocabSize == old(vocabSize) + |termToIdx|
      ensures Indexed(termToIdx, old(vocabSize), vocabSize)
    {
      numDocs := |documents|;
      termToIdx, documentFreq := map[], map[];
      var i := 0;
      while i < |documents|
        invariant 0 <= i <= |documents| && numDocs == |documents|
        invariant Tabulated(old(vocabSize), documents[..i], {})
      {
        AddDocument(documents[i], documents[..i], old(vocabSize));
        assert documents[..i + 1][..i] == documents[..i];
        i := i + 1;
      }
      assert documents[..i] == documents;
      FrequenciesMeaning(documentFreq, documents);
    }

    /** The tables after some documents and, of the next one, the terms in `extra`. */
    ghost predicate Tabulated(base: nat, documents: seq<Document>, extra: set<Term>)
      reads this
    {
      && base <= vocabSize
      && documentFreq.Keys == termToIdx.Keys
      && Counted(documentFreq, documents, extra)
      && Indexed(termToIdx, base, vocabSize)
    }

    method AddTerm(term: Term, ghost before: seq<Document>, ghost extra: set<Term>, ghost base: nat)
      requires Tabulated(base, before, extra) && term !in extra
      modifies this`documentFreq, this`termToIdx, this`vocabSize
      ensures Tabulated(base, before, extra + {term})
    {
      CountOneMore(documentFreq, before, extra, term);
      IndexOneMore(termToIdx, base, vocabSize, term);
      documentFreq := documentFreq[term := (if term in documentFreq then documentFreq[term] else 0) + 1];
      if term !in termToIdx {
        termToIdx := termToIdx[term := vocabSize];
        vocabSize := vocabSize + 1;
      }
    }

    /** The inner loop of `fit`, over the distinct terms of one document in any order. */
    method AddDocument(doc: Document, ghost before: seq<Document>, ghost base: nat)
      requires Tabulated(base, before, {})
      modifies this`documentFreq, this`termToIdx, this`vocabSize
      ensures Tabulated(base, before + [doc], {})
    {
      var uniqueTerms := set t | t in doc;
      var todo := uniqueTerms;
      while todo != {}
        invariant todo <= uniqueTerms
        invariant Tabulated(base, before, uniqueTerms - todo)
      {
        var term :| term in todo;
        AddTerm(term, before, uniqueTerms - todo, base);
        assert uniqueTerms - (todo - {term}) == (uniqueTerms - todo) + {term};
        todo := todo - {term};
      }
      CountDocument(documentFreq, before, doc);
    }

    ghost predicate Knows(doc: Document, t: Term)
      reads this
    {
      t in doc && t in termToIdx
    }

    ghost function Weight(ln: real -> real, doc: Document, t: Term): real
      requires Valid() && Knows(doc, t)
      reads this
    {
      TermFreq(doc, t) * Idf(ln, numDocs, documentFreq[t])
    }

    /** Each known term of the document has its weight at its own index; everything else is zero. */
    ghost predicate IsWeighted(ln: real -> real, doc: Document, among: set<Term>, vector: Vector)
      requires Valid()
      reads this
    {
      && |vector| == vocabSize
      && (forall t :: t in among && Knows(doc, t) ==> vector[termToIdx[t]] == Weight(ln, doc, t))
      && (forall i :: 0 <= i < |vector| && vector[i] != 0.0 ==>
            exists t :: t in among && Knows(doc, t) && termToIdx[t] == i)
    }

    /** At the index of each known term stands its TF-IDF weight. */
    lemma WeightsMeaning(ln: real -> real, doc: Document, weights: Vector)
      requires Valid() && IsWeighted(ln, doc, Elements(doc), weights)
      ensures forall t :: t in doc && t in termToIdx ==>
                IsTfIdf(ln, |set i | 0 <= i < |doc| && doc[i] == t|, |doc|, documentFreq[t], numDocs,
                        weights[termToIdx[t]])
    {
      forall t | t in doc && t in termToIdx
        ensures IsTfIdf(ln, |set i | 0 <= i < |doc| && doc[i] == t|, |doc|, documentFreq[t], numDocs,
                        weights[termToIdx[t]])
      {
        assert t in Elements(doc) && Knows(doc, t);
        WeightMeaning(ln, doc, t);
      }
    }

    lemma WeightMeaning(ln: real -> real, doc: Document, t: Term)
      requires Valid() && Knows(doc, t)
      ensures IsTfIdf(ln, |set i | 0 <= i < |doc| && doc[i] == t|, |doc|, documentFreq[t], numDocs,
                      Weight(ln, doc, t))
    {
      CountIsOccurrences(doc, t);
    }

    lemma WeightPositive(ln: real -> real, doc: Document, t: Term)
      requires IsLn(ln) && Valid() && Knows(doc, t)
      ensures Weight(ln, doc, t) > 0.0
    {
      CountPositive(doc, t);
      QuotientPositive(Count(doc, t) as real, |doc| as real);
      IdfAtLeastOne(ln, numDocs, documentFreq[t]);
      PositiveProduct(TermFreq(doc, t), Idf(ln, numDocs, documentFreq[t]), Weight(ln, doc, t));
    }

    lemma WeighOneMore(ln: real -> real, doc: Document, among: set<Term>, vector: Vector, t: Term, weight: real)
      requires Valid() && IsWeighted(ln, doc, among, vector) && t in doc
      requires t in termToIdx ==> weight == Weight(ln, doc, t)
      ensures IsWeighted(ln, doc, among + {t}, if t in termToIdx then vector[termToIdx[t] := weight] else vector)
    {
      if t in termToIdx {
        var after := vector[termToIdx[t] := weight];
        forall i | 0 <= i < |after| && after[i] != 0.0
          ensures exists u :: u in among + {t} && Knows(doc, u) && termToIdx[u] == i
        {
          if i == termToIdx[t] {
            assert t in among + {t} && Knows(doc, t);
          } else {
            var u :| u in among && Knows(doc, u) && termToIdx[u] == i;
            assert u in among + {t};
          }
        }
      }
    }

    method WeightOf(ln: real -> real, doc: Document, term: Term) returns (weight: real)
      requires Valid() && Knows(doc, term)
      ensures weight == Weight(ln, doc, term)
    {
      var df := if term in documentFreq then documentFreq[term] else 1;
      weight := TermFreq(doc, term) * Idf(ln, numDocs, df);
    }

    method WeighTerm(ln: real -> real, doc: Document, term: Term, before: Vector, ghost among: set<Term>)
      returns (vector: Vector)
      requires Valid() && IsWeighted(ln, doc, among, before) && term in doc
      ensures IsWeighted(ln, doc, among + {term}, vector)
    {
      vector := before;
      if term in termToIdx {
        var weight := WeightOf(ln, doc, term);
        WeighOneMore(ln, doc, among, before, term, weight);
        vector := vector[termToIdx[term] := weight];
      } else {
        WeighOneMore(ln, doc, among, before, term, 0.0);
      }
    }

    /** The loop over the term frequencies, in whatever order the hash map yields them. */
    method Weigh(ln: real -> real, doc: Document) returns (vector: Vector)
      requires Valid()
      ensures IsWeighted(ln, doc, Elements(doc), vector)
    {
      vector := seq(vocabSize, _ => 0.0);
      var todo := set t | t in doc;
      ghost var done: set<Term> := {};
      while todo != {}
        invariant done + todo == Elements(doc)
        invariant IsWeighted(ln, doc, done, vector)
        decreases todo
      {
        var term :| term in todo;
        assert term in Elements(doc);
        vector := WeighTerm(ln, doc, term, vector, done);
        todo, done := todo - {term}, done + {term};
      }
    }

    method Transform(ln: real -> real, sqrt: real -> real, doc: Document)
      returns (vector: Vector, ghost weights: Vector)
      requires Valid() && IsLn(ln) && IsSqrt(sqrt)
      ensures vocabSize == 0 || numDocs == 0 ==> vector == []
      ensures vocabSize > 0 && numDocs > 0 ==>
                && IsWeighted(ln, doc, Elements(doc), weights)
                && (forall t :: t in doc && t in termToIdx ==>
                      IsTfIdf(ln, |set i | 0 <= i < |doc| && doc[i] == t|, |doc|, documentFreq[t], numDocs,
                              weights[termToIdx[t]]))
                && |vector| == vocabSize
                && ((exists t :: Knows(doc, t)) ==> IsNormalised(sqrt, weights, vector))
                && (!(exists t :: Knows(doc, t)) ==> forall i :: 0 <= i < |vector| ==> vector[i] == 0.0)
    {
      weights := [];
      if vocabSize == 0 || numDocs == 0 {
        return [], [];
      }
      vector := Weigh(ln, doc);
      weights := vector;
      WeightsMeaning(ln, doc, weights);
      SomeWeight(ln, sqrt, doc, weights);
      var norm := Norm(sqrt, vector);
      if norm > 0.0 {
        vector := Divide(vector, norm);
        UnitLength(sqrt, weights);
      }
    }

    /** The weights are all zero exactly if the document has no known term. */
    lemma SomeWeight(ln: real -> real, sqrt: real -> real, doc: Document, weights: Vector)
      requires Valid() && IsLn(ln) && IsSqrt(sqrt) && IsWeighted(ln, doc, Elements(doc), weights)
      ensures (exists t :: Knows(doc, t)) <==> Norm(sqrt, weights) > 0.0
      ensures !(exists t :: Knows(doc, t)) ==> forall i :: 0 <= i < |weights| ==> weights[i] == 0.0
    {
      NormSquared(sqrt, weights);
      if t :| Knows(doc, t) {
        WeightPositive(ln, doc, t);
        assert t in Elements(doc);
        assert weights[termToIdx[t]] > 0.0;
      }
    }
  }

  /** Dividing in place by the norm. */
  method Divide(vector: Vector, norm: real) returns (r: Vector)
    requires norm > 0.0
    ensures r == Scale(1.0 / norm, vector)
  {
    r := vector;
    ghost var scaled := Scale(1.0 / norm, vector);
    var i := 0;
    while i < |vector|
      invariant 0 <= i <= |vector| && |r| == |vector|
      invariant forall j :: 0 <= j < i ==> r[j] == scaled[j]
      invariant forall j :: i <= j < |vector| ==> r[j] == vector[j]
    {
      ScaleAt(1.0 / norm, vector, i);
      DivideIsScale(vector[i], norm, scaled[i]);
      r := r[i := r[i] / norm];
      i := i + 1;
    }
  }

  lemma DivideIsScale(x: real, n: real, scaled: real)
    requires n > 0.0 && IsProduct(1.0 / n, x, scaled)
    ensures x / n == scaled
  {
    var q := 1.0 / n;
    assert q * n == 1.0;
    assert q * x * n == x;
  }

  lemma {:induction false} ScaleAt(k: real, a: Vector, i: nat)
    requires i < |a|
    ensures IsProduct(k, a[i], Scale(k, a)[i])
  {
    if i == 0 {
    } else {
      ScaleAt(k, a[1..], i - 1);
    }
  }

  lemma UnitLength(sqrt: real -> real, a: Vector)
    requires IsSqrt(sqrt) && Norm(sqrt, a) > 0.0
    ensures var v := Scale(1.0 / Norm(sqrt, a), a); Dot(v, v) == 1.0
  {
    NormSquared(sqrt, a);
    DotOfScaled(1.0 / Norm(sqrt, a), a);
    Inverse(Norm(sqrt, a), Dot(a, a), Dot(Scale(1.0 / Norm(sqrt, a), a), Scale(1.0 / Norm(sqrt, a), a)));
  }

  lemma Inverse(n: real, nn: real, kkn: real)
    requires n > 0.0 && IsRoot(n, nn) && IsTwiceScaled(1.0 / n, nn, kkn)
    ensures kkn == 1.0
  {
    var k := 1.0 / n;
    assert k * n == 1.0;
    assert k * nn == k * n * n;
    assert k * nn == n;
  }
}
