/** The retrieval engine of `core/rag_system.py`: the knowledge base built
    from the catalog, the keyword fallback, and the three-way decision of
    `RAGSystem.search` over similarity scores computed elsewhere. */
module Rag {
  import opened Wrappers
  import opened Text
  import opened Services
  import opened Ranking

  /** One knowledge-base entry: the indexing text, the service id and the record. */
  datatype KbEntry = KbEntry(text: string, id: string, svc: Service)

  /** The exceptions the retrieval code can raise. */
  datatype RagError =
    | MissingDescription(id: string)  // KeyError on svc['description'] while building
    | EmptyMax                        // ValueError from max() over an empty score dict

  /** The secondary floor applied to the results of a strong match. */
  const StrongFloor: real := 0.15

  /** Configuration defaults (`config.py`). */
  const DefaultTopK: int := 2
  const DefaultThreshold: real := 0.30
  const DefaultMinSimilarity: real := 0.05

  /** The text that is embedded for a service. */
  function IndexText(svc: Service): string
    requires svc.description.Some?
  {
    "Service: " + svc.nameFr + " / " + svc.nameAr + ". Description: " + svc.description.value
  }

  /** `_build_kb`: one entry per catalog item, in catalog order; the first
      item without a description raises `KeyError`. */
  function BuildKb(cat: Catalog): (r: Result<seq<KbEntry>, RagError>)
    ensures r.Success? <==> forall i :: 0 <= i < |cat| ==> cat[i].svc.description.Some?
    ensures r.Success? ==> |r.value| == |cat|
    ensures r.Success? ==> forall i :: 0 <= i < |cat| ==>
              && r.value[i].id == cat[i].id
              && r.value[i].svc == cat[i].svc
              && r.value[i].text == "Service: " + cat[i].svc.nameFr + " / " + cat[i].svc.nameAr
                                    + ". Description: " + cat[i].svc.description.value
    ensures r.Failure? ==> exists i :: FirstWithoutDescription(cat, i) && r.error == MissingDescription(cat[i].id)
  {
    if cat == [] then Success([])
    else if cat[0].svc.description.None? then
      assert FirstWithoutDescription(cat, 0);
      Failure(MissingDescription(cat[0].id))
    else
      match BuildKb(cat[1..])
      case Failure(e) =>
        var i :| FirstWithoutDescription(cat[1..], i);
        assert FirstWithoutDescription(cat, i + 1);
        Failure(e)
      case Success(rest) =>
        Success([KbEntry(IndexText(cat[0].svc), cat[0].id, cat[0].svc)] + rest)
  }

  /** Item `i` is the first catalog item that lacks a description. */
  predicate FirstWithoutDescription(cat: Catalog, i: int) {
    && 0 <= i < |cat|
    && cat[i].svc.description.None?
    && (forall j :: 0 <= j < i ==> cat[j].svc.description.Some?)
  }

  /** `svc.get("keywords", [])`. */
  function KeywordsOf(svc: Service): seq<string> {
    svc.keywords.GetOr([])
  }

  /** `sum(1 for kw in kws if kw.lower() in query_lower)`. */
  function MatchCount(kws: seq<string>, queryLower: string): (n: nat)
    ensures n <= |kws|
  {
    if kws == [] then 0
    else MatchCount(kws[..|kws| - 1], queryLower)
         + (if Contains(queryLower, Lower(kws[|kws| - 1])) then 1 else 0)
  }

  /** The positions of the keywords that occur in the query. */
  function MatchingPositions(kws: seq<string>, queryLower: string): set<int> {
    set i | 0 <= i < |kws| && Contains(queryLower, Lower(kws[i]))
  }

  /** The keyword count is the number of keyword positions whose lower-cased
      keyword is a substring of the lower-cased query (a repeated keyword
      counts once per occurrence in the list). */
  lemma {:induction false} MatchCountCountsPositions(kws: seq<string>, queryLower: string)
    ensures MatchCount(kws, queryLower) == |MatchingPositions(kws, queryLower)|
  {
    if kws != [] {
      var n := |kws| - 1;
      var init := kws[..n];
      MatchCountCountsPositions(init, queryLower);
      var s0 := MatchingPositions(init, queryLower);
      var s := MatchingPositions(kws, queryLower);
      assert forall i :: 0 <= i < n ==> init[i] == kws[i];
      if Contains(queryLower, Lower(kws[n])) {
        assert s == s0 + {n};
        assert n !in s0;
      } else {
        assert s == s0;
      }
    }
  }

  /** The keyword score of every entry, in knowledge-base order (the values
      of the `scores` dictionary, which is keyed by the unique service ids). */
  function KeywordScores(kb: seq<KbEntry>, queryLower: string): (c: seq<nat>)
    ensures |c| == |kb|
    ensures forall i :: 0 <= i < |kb| ==> c[i] == MatchCount(KeywordsOf(kb[i].svc), queryLower)
    ensures forall i :: 0 <= i < |kb| ==> c[i] == |MatchingPositions(KeywordsOf(kb[i].svc), queryLower)|
    ensures forall i :: 0 <= i < |kb| ==>
              (c[i] == 0 <==> NoKeywordOccurs(KeywordsOf(kb[i].svc), queryLower))
  {
    forall i | 0 <= i < |kb|
      ensures MatchCount(KeywordsOf(kb[i].svc), queryLower)
              == |MatchingPositions(KeywordsOf(kb[i].svc), queryLower)|
      ensures MatchCount(KeywordsOf(kb[i].svc), queryLower) == 0
              <==> NoKeywordOccurs(KeywordsOf(kb[i].svc), queryLower)
    {
      MatchCountCountsPositions(KeywordsOf(kb[i].svc), queryLower);
      MatchCountZeroIff(KeywordsOf(kb[i].svc), queryLower);
    }
    seq(|kb|, i requires 0 <= i < |kb| => MatchCount(KeywordsOf(kb[i].svc), queryLower))
  }

  /** None of the lower-cased keywords is a substring of the query. */
  predicate NoKeywordOccurs(kws: seq<string>, queryLower: string) {
    forall k :: 0 <= k < |kws| ==> !Contains(queryLower, Lower(kws[k]))
  }

  /** The count is zero exactly when no keyword occurs in the query. */
  lemma MatchCountZeroIff(kws: seq<string>, queryLower: string)
    ensures MatchCount(kws, queryLower) == 0 <==> NoKeywordOccurs(kws, queryLower)
  {
    MatchCountCountsPositions(kws, queryLower);
    var s := MatchingPositions(kws, queryLower);
    if !NoKeywordOccurs(kws, queryLower) {
      var k :| 0 <= k < |kws| && Contains(queryLower, Lower(kws[k]));
      assert k in s;
    } else {
      assert s == {};
    }
  }

  /** `b` is the first position holding the greatest value of `xs`. */
  predicate IsFirstMax(xs: seq<nat>, b: int) {
    && 0 <= b < |xs|
    && (forall j :: 0 <= j < |xs| ==> xs[j] <= xs[b])
    && (forall j :: 0 <= j < b ==> xs[j] < xs[b])
  }

  /** The loop of `max(keys, key=...)` from position `i` on: the running best
      is replaced only by a strictly greater value. */
  function ArgMaxFrom(xs: seq<nat>, i: nat, best: nat): (b: nat)
    requires best < i <= |xs|
    requires IsFirstMax(xs[..i], best)
    ensures IsFirstMax(xs, b)
    decreases |xs| - i
  {
    if i == |xs| then
      assert xs[..i] == xs;
      best
    else
      var next := if xs[i] > xs[best] then i else best;
      assert forall j :: 0 <= j < i ==> xs[..i + 1][j] == xs[..i][j];
      ArgMaxFrom(xs, i + 1, next)
  }

  /** Python's `max` over a non-empty collection with a key: the first
      position of a greatest value. */
  function FirstArgMax(xs: seq<nat>): (b: nat)
    requires |xs| > 0
    ensures IsFirstMax(xs, b)
  {
    ArgMaxFrom(xs, 1, 0)
  }

  /** `_keyword_match(query_lower)`: fails on an empty knowledge base (the
      `max` of an empty dictionary raises); otherwise returns the single
      first best-scoring entry when its score is positive, and nothing when
      no keyword of any entry occurs in the query. */
  function KeywordMatch(kb: seq<KbEntry>, queryLower: string): (r: Result<seq<KbEntry>, RagError>)
    ensures r.Failure? <==> kb == []
    ensures r.Failure? ==> r.error == EmptyMax
    ensures r.Success? ==> |r.value| <= 1
    ensures r.Success? ==>
              (r.value == [] <==> forall i :: 0 <= i < |kb| ==> KeywordScores(kb, queryLower)[i] == 0)
    ensures r.Success? && r.value != [] ==>
              exists b :: && IsFirstMax(KeywordScores(kb, queryLower), b)
                          && KeywordScores(kb, queryLower)[b] > 0
                          && r.value == [kb[b]]
  {
    if kb == [] then Failure(EmptyMax)
    else
      var scores := KeywordScores(kb, queryLower);
      var b := FirstArgMax(scores);
      if scores[b] > 0 then Success([kb[b]]) else Success([])
  }

  /** A ranked result: an entry with its similarity score. */
  datatype Scored = Scored(entry: KbEntry, score: real)

  /** `top_results`: the top-k entries with their scores, best first. */
  function Ranked(kb: seq<KbEntry>, scores: seq<real>, order: seq<int>, topK: int): (r: seq<Scored>)
    requires |scores| == |kb| && IsArgsort(scores, order)
    ensures |r| == |TopIndices(scores, order, topK)|
    ensures forall i :: 0 <= i < |r| ==>
              var j := TopIndices(scores, order, topK)[i];
              r[i] == Scored(kb[j], scores[j])
    ensures topK >= 1 ==> |r| == (if topK < |kb| then topK else |kb|)
    ensures topK == 0 ==> |r| == |kb|
    ensures forall i :: 0 <= i < |r| ==> exists j :: 0 <= j < |kb| && r[i] == Scored(kb[j], scores[j])
    ensures NonIncreasing(r)
    ensures forall i, j :: 0 <= i < |r| && 0 <= j < |kb| && j !in TopIndices(scores, order, topK) ==>
              scores[j] <= r[i].score
  {
    var t := TopIndices(scores, order, topK);
    var r := seq(|t|, i requires 0 <= i < |t| => Scored(kb[t[i]], scores[t[i]]));
    PairedFacts(kb, scores, t, r);
    assert forall i :: 0 <= i < |r| ==> 0 <= t[i] < |kb| && r[i] == Scored(kb[t[i]], scores[t[i]]);
    r
  }

  /** Pairing best-first indices with their scores gives a best-first
      list that dominates every index left out. */
  lemma PairedFacts(kb: seq<KbEntry>, scores: seq<real>, t: seq<int>, r: seq<Scored>)
    requires |scores| == |kb| && Descending(scores, t)
    requires forall i, j :: 0 <= i < |t| && 0 <= j < |scores| && j !in t ==> scores[j] <= scores[t[i]]
    requires |r| == |t| && forall i :: 0 <= i < |t| ==> r[i] == Scored(kb[t[i]], scores[t[i]])
    ensures NonIncreasing(r)
    ensures forall i, j :: 0 <= i < |r| && 0 <= j < |kb| && j !in t ==> scores[j] <= r[i].score
  {
    assert forall i :: 0 <= i < |r| ==> r[i].score == scores[t[i]];
  }

  /** The scores of `xs` never increase along the sequence. */
  predicate NonIncreasing(xs: seq<Scored>) {
    forall i, j :: 0 <= i < j < |xs| ==> xs[i].score >= xs[j].score
  }

  /** The entries of `xs`, in order. */
  function Entries(xs: seq<Scored>): (r: seq<KbEntry>)
    ensures |r| == |xs|
    ensures forall i :: 0 <= i < |xs| ==> r[i] == xs[i].entry
  {
    seq(|xs|, i requires 0 <= i < |xs| => xs[i].entry)
  }

  /** `[r["entry"] for r in xs if r["score"] > bound]`. */
  function Above(xs: seq<Scored>, bound: real): (r: seq<KbEntry>)
    ensures |r| <= |xs|
  {
    if xs == [] then []
    else (if xs[0].score > bound then [xs[0].entry] else []) + Above(xs[1..], bound)
  }

  /** `entries` is what is left of the ranked list `xs` once the entries
      scoring at most `bound` are dropped; as `xs` is best first, that is the
      longest prefix scoring above `bound`. */
  predicate CutAt(xs: seq<Scored>, bound: real, entries: seq<KbEntry>) {
    && |entries| <= |xs|
    && entries == Entries(xs[..|entries|])
    && (forall i :: 0 <= i < |entries| ==> xs[i].score > bound)
    && (forall i :: |entries| <= i < |xs| ==> xs[i].score <= bound)
  }

  /** On a best-first list, the order-preserving filter keeps exactly the
      prefix scoring above the bound. */
  lemma {:induction false} AboveIsCut(xs: seq<Scored>, bound: real)
    requires NonIncreasing(xs)
    ensures CutAt(xs, bound, Above(xs, bound))
  {
    if xs != [] {
      var tail := xs[1..];
      assert NonIncreasing(tail);
      AboveIsCut(tail, bound);
      var rest := Above(tail, bound);
      if xs[0].score > bound {
        assert xs[..|rest| + 1] == [xs[0]] + tail[..|rest|];
      } else {
        assert forall i :: 0 <= i < |tail| ==> tail[i].score <= bound;
        assert |rest| == 0;
        assert xs[..0] == [];
      }
    }
  }

  /** Which of the three strategies of `search` produced the result. */
  datatype Branch = Strong | Keyword | Weak

  datatype Retrieval = Retrieval(branch: Branch, entries: seq<KbEntry>)

  /** The strong-match test: the best ranked score reaches the threshold. */
  predicate StrongTop(ranked: seq<Scored>, threshold: real) {
    |ranked| > 0 && ranked[0].score >= threshold
  }

  /** `search(query, top_k)` with the cosine similarities `scores` (one per
      entry) and the argsort permutation `order` given.
      Strong branch: the best ranked score reaches `threshold`; the answer is
      the ranked entries scoring above 0.15, and keywords are not consulted.
      Keyword branch: otherwise, the keyword match if it found an entry;
      on an empty knowledge base this step raises.
      Weak branch: otherwise, the ranked entries scoring above `minSimilarity`
      (possibly none). */
  function Search(kb: seq<KbEntry>, query: string, scores: seq<real>, order: seq<int>,
                  topK: int, threshold: real, minSimilarity: real): (r: Result<Retrieval, RagError>)
    requires |scores| == |kb| && IsArgsort(scores, order)
    ensures var ranked := Ranked(kb, scores, order, topK);
            (r.Success? && r.value.branch == Strong) <==> StrongTop(ranked, threshold)
    ensures var ranked := Ranked(kb, scores, order, topK);
            r.Success? && r.value.branch == Strong ==> CutAt(ranked, StrongFloor, r.value.entries)
    ensures r.Failure? <==> !StrongTop(Ranked(kb, scores, order, topK), threshold) && kb == []
    ensures r.Failure? ==> r.error == EmptyMax
    ensures (r.Success? && r.value.branch == Keyword) <==>
              && !StrongTop(Ranked(kb, scores, order, topK), threshold)
              && KeywordMatch(kb, Lower(query)).Success?
              && KeywordMatch(kb, Lower(query)).value != []
    ensures r.Success? && r.value.branch == Keyword ==>
              r.value.entries == KeywordMatch(kb, Lower(query)).value && |r.value.entries| == 1
    ensures r.Success? && r.value.branch == Weak ==>
              CutAt(Ranked(kb, scores, order, topK), minSimilarity, r.value.entries)
    ensures r.Success? ==> forall e :: e in r.value.entries ==> e in kb
  {
    var ranked := Ranked(kb, scores, order, topK);
    AboveIsCut(ranked, StrongFloor);
    AboveIsCut(ranked, minSimilarity);
    if StrongTop(ranked, threshold) then
      Success(Retrieval(Strong, Above(ranked, StrongFloor)))
    else
      match KeywordMatch(kb, Lower(query))
      case Failure(e) => Failure(e)
      case Success(found) =>
        if found != [] then Success(Retrieval(Keyword, found))
        else Success(Retrieval(Weak, Above(ranked, minSimilarity)))
  }

  /** The strong branch fires exactly when some entry's score reaches the
      threshold, provided the ranking selected anything: the first ranked
      entry is the best of the whole knowledge base. */
  lemma StrongIffSomeScoreReaches(kb: seq<KbEntry>, scores: seq<real>, order: seq<int>,
                                  topK: int, threshold: real)
    requires |scores| == |kb| && IsArgsort(scores, order)
    requires |Ranked(kb, scores, order, topK)| > 0
    ensures StrongTop(Ranked(kb, scores, order, topK), threshold) <==>
            exists j :: 0 <= j < |scores| && scores[j] >= threshold
  {
    TopIsGlobalMax(scores, order, topK);
    var t := TopIndices(scores, order, topK);
    assert 0 <= t[0] < |scores|;
  }

  /** Lowering the similarity threshold never turns a strong match off, and
      the strong answer does not depend on the threshold. */
  lemma ThresholdMonotone(kb: seq<KbEntry>, query: string, scores: seq<real>, order: seq<int>,
                          topK: int, threshold: real, lower: real, minSimilarity: real)
    requires |scores| == |kb| && IsArgsort(scores, order)
    requires lower <= threshold
    requires var r := Search(kb, query, scores, order, topK, threshold, minSimilarity);
             r.Success? && r.value.branch == Strong
    ensures Search(kb, query, scores, order, topK, lower, minSimilarity)
            == Search(kb, query, scores, order, topK, threshold, minSimilarity)
  {
  }

  /** A strong match does not look at the query text at all. */
  lemma StrongIgnoresQuery(kb: seq<KbEntry>, q1: string, q2: string, scores: seq<real>,
                           order: seq<int>, topK: int, threshold: real, minSimilarity: real)
    requires |scores| == |kb| && IsArgsort(scores, order)
    requires StrongTop(Ranked(kb, scores, order, topK), threshold)
    ensures Search(kb, q1, scores, order, topK, threshold, minSimilarity)
            == Search(kb, q2, scores, order, topK, threshold, minSimilarity)
  {
  }
}
