/** Worked examples of `RAGSystem.search` on a two-service knowledge base,
    following the branches of `core/rag_system.py` one at a time. */
module Scenarios {
  import opened Wrappers
  import opened Text
  import opened Services
  import opened Ranking
  import opened Rag

  function Plain(nameFr: string, keywords: Option<seq<string>>): Service {
    Service(nameFr, nameFr, Some(nameFr), None, None, None, None, None, None, keywords)
  }

  const Passport: KbEntry :=
    KbEntry("passport", "passport", Plain("Passeport", Some(["passport", "travel document"])))
  const Water: KbEntry := KbEntry("water", "water", Plain("Eau", None))

  /** The question, lower-cased, contains the keyword "travel document". */
  lemma TravelQueryHasKeyword()
    ensures Contains(Lower("I need a travel document"), Lower("travel document"))
  {
    var text := "I need a travel document";
    var q := Lower(text);
    var kw := "travel document";
    assert text[9..24] == kw;
    LowerSlice(text, 9, 24);
    LowerKeepsSmall(kw);
    assert OccursAt(q, kw, 9);
    ContainsIffOccurs(q, "travel document");
  }

  /** Only the first service has a matching keyword, so it is the keyword
      match. */
  lemma TravelKeywordMatch()
    ensures KeywordMatch([Passport, Water], Lower("I need a travel document")) == Success([Passport])
  {
    var q := Lower("I need a travel document");
    TravelScores();
    var c := KeywordScores([Passport, Water], q);
    var b := FirstArgMax(c);
    assert b == 0;
  }

  /** The keyword counts for that question: at least one for the first
      service, none for the second, which has no keywords. */
  lemma TravelScores()
    ensures var c := KeywordScores([Passport, Water], Lower("I need a travel document"));
            c[0] >= 1 && c[1] == 0
  {
    var q := Lower("I need a travel document");
    TravelQueryHasKeyword();
    var kws := ["passport", "travel document"];
    assert kws[..1] == ["passport"];
    assert MatchCount(kws, q) >= 1;
    assert KeywordsOf(Water.svc) == [];
  }

  /** Both similarities stay under the threshold, but a keyword of the first
      service occurs in the question: the keyword branch answers with that
      service alone. */
  lemma KeywordFallbackExample()
    ensures IsArgsort([0.1, 0.2], [0, 1])
    ensures IsArgsort([0.1, 0.2], [0, 1]) &&
            Search([Passport, Water], "I need a travel document", [0.1, 0.2], [0, 1],
                   DefaultTopK, DefaultThreshold, DefaultMinSimilarity)
            == Success(Retrieval(Keyword, [Passport]))
  {
    TwoRanked([Passport, Water], 0.1, 0.2);
    TravelKeywordMatch();
  }

  /** No similarity reaches the threshold and no service has keywords: the
      weak branch keeps only entries above the minimum similarity, here
      none. */
  lemma WeakEmptyExample()
    ensures IsArgsort([0.01, 0.02], [0, 1])
    ensures IsArgsort([0.01, 0.02], [0, 1]) &&
            Search([Passport.(svc := Plain("Passeport", None)), Water], "bonjour", [0.01, 0.02], [0, 1],
                   DefaultTopK, DefaultThreshold, DefaultMinSimilarity)
            == Success(Retrieval(Weak, []))
  {
    var kb := [Passport.(svc := Plain("Passeport", None)), Water];
    WeakRanking(kb);
    var c := KeywordScores(kb, Lower("bonjour"));
    assert c[0] == 0 && c[1] == 0;
  }

  /** The ranking of two low similarities: both entries, best first, and
      neither reaches the threshold. */
  lemma WeakRanking(kb: seq<KbEntry>)
    requires |kb| == 2
    ensures IsArgsort([0.01, 0.02], [0, 1])
    ensures var ranked := Ranked(kb, [0.01, 0.02], [0, 1], DefaultTopK);
            && ranked == [Scored(kb[1], 0.02), Scored(kb[0], 0.01)]
            && !StrongTop(ranked, DefaultThreshold)
  {
    TwoRanked(kb, 0.01, 0.02);
  }

  /** Two services in ascending score order: both are kept, the second
      first. */
  lemma TwoRanked(kb: seq<KbEntry>, a: real, b: real)
    requires |kb| == 2 && a <= b
    ensures IsArgsort([a, b], [0, 1])
    ensures Ranked(kb, [a, b], [0, 1], DefaultTopK) == [Scored(kb[1], b), Scored(kb[0], a)]
  {
    TwoTop(a, b);
    var ranked := Ranked(kb, [a, b], [0, 1], DefaultTopK);
    assert ranked[0] == Scored(kb[1], b);
    assert ranked[1] == Scored(kb[0], a);
  }

  /** Both indices are selected, the higher score first. */
  lemma TwoTop(a: real, b: real)
    requires a <= b
    ensures IsArgsort([a, b], [0, 1])
    ensures TopIndices([a, b], [0, 1], DefaultTopK) == [1, 0]
  {
    TwoArgsort(a, b);
    assert SliceStart(2, DefaultTopK) == 0;
    assert [0, 1][0..] == [0, 1];
    ReverseTwo();
  }

  lemma TwoArgsort(a: real, b: real)
    requires a <= b
    ensures IsArgsort([a, b], [0, 1])
  {
    assert Range(2) == [0, 1];
  }

  lemma ReverseTwo()
    ensures Reverse([0, 1]) == [1, 0]
  {
    assert Reverse([1]) == [1] by { assert [1][1..] == []; }
    assert [0, 1][1..] == [1];
  }
}
