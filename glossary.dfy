/**
 * `generate_glossary`: the whole pipeline, from the request's texts to the
 * ranked, truncated list of glossary entries.
 */
module Glossary {
  import opened Wrappers
  import opened Strings
  import opened GlossaryText
  import opened GlossaryGraph
  import opened GlossaryRank
  import opened GlossaryPhrases
  import Seqs

  datatype GlossaryRequest = GlossaryRequest(
    texts: seq<string>,
    topK: int := 30,
    windowSize: int := 4,
    minTermLength: int := 2,
    stopwords: Option<seq<string>> := None)

  datatype GlossaryEntry = GlossaryEntry(term: string, score: real)

  datatype GlossaryResult = GlossaryResult(entries: seq<GlossaryEntry>)

  /** `GlossaryError`, the one failure: no input text. */
  datatype GlossaryError = GlossaryError(message: string)

  const EmptyInputMessage := "Glossary generation requires at least one text input."

  // ---------------------------------------------------------------------------
  // Ranking: `sorted(..., key=score, reverse=True)`, which is stable
  // ---------------------------------------------------------------------------

  ghost predicate SortedByScore(xs: seq<GlossaryEntry>)
  {
    forall i, j :: 0 <= i < j < |xs| ==> xs[i].score >= xs[j].score
  }

  /** Puts `x` in front of the first entry that does not score higher. */
  function Insert(x: GlossaryEntry, ys: seq<GlossaryEntry>): seq<GlossaryEntry>
    decreases |ys|
  {
    if ys == [] then [x]
    else if ys[0].score <= x.score then [x] + ys
    else [ys[0]] + Insert(x, ys[1..])
  }

  /** The entries by descending score; entries with equal scores keep their relative order. */
  function SortByScore(xs: seq<GlossaryEntry>): seq<GlossaryEntry>
    decreases |xs|
  {
    if xs == [] then [] else Insert(xs[0], SortByScore(xs[1..]))
  }

  /** The entries scoring exactly `v`, in order. */
  function WithScore(xs: seq<GlossaryEntry>, v: real): seq<GlossaryEntry>
    decreases |xs|
  {
    if xs == [] then [] else (if xs[0].score == v then [xs[0]] else []) + WithScore(xs[1..], v)
  }

  lemma {:induction false} InsertSorted(x: GlossaryEntry, ys: seq<GlossaryEntry>)
    requires SortedByScore(ys)
    ensures SortedByScore(Insert(x, ys))
    ensures multiset(Insert(x, ys)) == multiset(ys) + multiset{x}
    decreases |ys|
  {
    InsertPermutes(x, ys);
    if ys != [] && ys[0].score > x.score {
      var y := ys[0];
      var rest := Insert(x, ys[1..]);
      InsertSorted(x, ys[1..]);
      InsertPermutes(x, ys[1..]);
      forall k | 0 <= k < |rest|
        ensures rest[k].score <= y.score
      {
        assert rest[k] in multiset(ys[1..]) + multiset{x};
        if rest[k] != x {
          assert rest[k] in ys[1..];
        }
      }
      ConsSorted(y, rest);
    }
  }

  /** `Insert` adds `x` and loses nothing. */
  lemma {:induction false} InsertPermutes(x: GlossaryEntry, ys: seq<GlossaryEntry>)
    ensures multiset(Insert(x, ys)) == multiset(ys) + multiset{x}
    decreases |ys|
  {
    if ys != [] && ys[0].score > x.score {
      InsertPermutes(x, ys[1..]);
      assert ys == [ys[0]] + ys[1..];
    }
  }

  lemma ConsSorted(y: GlossaryEntry, rest: seq<GlossaryEntry>)
    requires SortedByScore(rest)
    requires forall k :: 0 <= k < |rest| ==> rest[k].score <= y.score
    ensures SortedByScore([y] + rest)
  {
    var r := [y] + rest;
    forall i, j | 0 <= i < j < |r| ensures r[i].score >= r[j].score {
      assert r[j] == rest[j - 1];
      if i > 0 {
        assert r[i] == rest[i - 1];
      }
    }
  }

  /** The ranking is sorted by descending score and a permutation of its input. */
  lemma SortByScoreSpec(xs: seq<GlossaryEntry>)
    ensures SortedByScore(SortByScore(xs))
    ensures multiset(SortByScore(xs)) == multiset(xs)
  {
    SortByScoreSorted(xs);
    SortByScorePermutes(xs);
  }

  lemma {:induction false} SortByScoreSorted(xs: seq<GlossaryEntry>)
    ensures SortedByScore(SortByScore(xs))
    decreases |xs|
  {
    if xs != [] {
      SortByScoreSorted(xs[1..]);
      InsertSorted(xs[0], SortByScore(xs[1..]));
    }
  }

  lemma {:induction false} SortByScorePermutes(xs: seq<GlossaryEntry>)
    ensures multiset(SortByScore(xs)) == multiset(xs)
    decreases |xs|
  {
    if xs != [] {
      var rest := SortByScore(xs[1..]);
      SortByScorePermutes(xs[1..]);
      InsertPermutes(xs[0], rest);
      assert SortByScore(xs) == Insert(xs[0], rest);
      assert xs == [xs[0]] + xs[1..];
      assert multiset(xs) == multiset(xs[1..]) + multiset{xs[0]};
    }
  }

  lemma {:induction false} InsertStable(x: GlossaryEntry, ys: seq<GlossaryEntry>, v: real)
    ensures WithScore(Insert(x, ys), v) == (if x.score == v then [x] else []) + WithScore(ys, v)
    decreases |ys|
  {
    if ys == [] {
      WithScoreCons(x, [], v);
    } else if ys[0].score <= x.score {
      WithScoreCons(x, ys, v);
    } else {
      var y := ys[0];
      InsertStable(x, ys[1..], v);
      WithScoreCons(y, Insert(x, ys[1..]), v);
      WithScoreCons(y, ys[1..], v);
      assert ys == [y] + ys[1..];
      if y.score == v {
        assert x.score != v;
      }
    }
  }

  lemma WithScoreCons(y: GlossaryEntry, rest: seq<GlossaryEntry>, v: real)
    ensures WithScore([y] + rest, v) == (if y.score == v then [y] else []) + WithScore(rest, v)
  {
    assert ([y] + rest)[1..] == rest;
  }

  /** Stability: among entries of equal score the ranking keeps the input order. */
  lemma {:induction false} SortByScoreStable(xs: seq<GlossaryEntry>, v: real)
    ensures WithScore(SortByScore(xs), v) == WithScore(xs, v)
    decreases |xs|
  {
    if xs != [] {
      SortByScoreStable(xs[1..], v);
      InsertStable(xs[0], SortByScore(xs[1..]), v);
      WithScoreCons(xs[0], xs[1..], v);
      assert xs == [xs[0]] + xs[1..];
    }
  }

  /** `xs[:k]`: a prefix of `xs`; a negative `k` drops `-k` entries from the end. */
  function SliceTo<T>(xs: seq<T>, k: int): (r: seq<T>)
    ensures |r| <= |xs| && r == xs[..|r|]
    ensures k >= 0 ==> |r| == (if k < |xs| then k else |xs|)
    ensures k < 0 ==> |r| == (if |xs| + k > 0 then |xs| + k else 0)
  {
    var stop := if k >= 0 then (if k < |xs| then k else |xs|) else if |xs| + k > 0 then |xs| + k else 0;
    xs[..stop]
  }

  /** `[GlossaryEntry(term, score) for term, score in phrases.items()]`, in insertion order. */
  function Entries(p: PhraseMap): (r: seq<GlossaryEntry>)
    requires forall t :: t in p.order ==> t in p.score
    ensures |r| == |p.order|
    ensures forall i :: 0 <= i < |r| ==> r[i].term == p.order[i] && r[i].score == p.score[p.order[i]]
  {
    seq(|p.order|, i requires 0 <= i < |p.order| => GlossaryEntry(p.order[i], p.score[p.order[i]]))
  }

  // ---------------------------------------------------------------------------
  // The pipeline
  // ---------------------------------------------------------------------------

  /** The token list of each sentence. */
  function TokenizedOf(sentences: seq<string>, stopwords: set<string>): (r: seq<seq<string>>)
    ensures |r| == |sentences|
    ensures forall k :: 0 <= k < |r| ==> r[k] == TokensOf(sentences[k], stopwords)
  {
    seq(|sentences|, k requires 0 <= k < |sentences| => TokensOf(sentences[k], stopwords))
  }

  /** `[_tokenize(sentence, stopwords) for sentence in sentences]`. */
  method TokenizeAll(sentences: seq<string>, stopwords: set<string>) returns (tokenized: seq<seq<string>>)
    ensures tokenized == TokenizedOf(sentences, stopwords)
  {
    tokenized := [];
    var k := 0;
    while k < |sentences|
      invariant 0 <= k <= |sentences|
      invariant tokenized == TokenizedOf(sentences[..k], stopwords)
    {
      var tokens := Tokenize(sentences[k], stopwords);
      tokenized := tokenized + [tokens];
      k := k + 1;
    }
    assert sentences[..k] == sentences;
  }

  /** The entries for a non-empty graph: PageRank, phrase extraction, the stable ranking and the `[:top_k]` slice. */
  ghost function RankedOf(sentences: seq<string>, stopwords: set<string>, graph: Graph, topK: int, minTermLength: int): seq<GlossaryEntry>
    requires Closed(graph)
  {
    var scores := PageRankOf(graph, Damping, Steps);
    PhrasesOfOrder(sentences, scores, stopwords, minTermLength);
    SliceTo(SortByScore(Entries(PhrasesOf(sentences, scores, stopwords, minTermLength))), topK)
  }

  /** The properties of the ranked entries: sorted, at most `topK` of them, long enough terms, non-negative scores. */
  lemma RankedOfSpec(sentences: seq<string>, stopwords: set<string>, graph: Graph, topK: int, minTermLength: int)
    requires Closed(graph)
    ensures SortedByScore(RankedOf(sentences, stopwords, graph, topK, minTermLength))
    ensures topK >= 0 ==> |RankedOf(sentences, stopwords, graph, topK, minTermLength)| <= topK
    ensures forall i :: 0 <= i < |RankedOf(sentences, stopwords, graph, topK, minTermLength)| ==>
              |RankedOf(sentences, stopwords, graph, topK, minTermLength)[i].term| >= minTermLength &&
              RankedOf(sentences, stopwords, graph, topK, minTermLength)[i].score >= 0.0
  {
    var scores := PageRankOf(graph, Damping, Steps);
    var phrases := PhrasesOf(sentences, scores, stopwords, minTermLength);
    PhrasesOfOrder(sentences, scores, stopwords, minTermLength);
    PhraseKeysAreGoodTerms(sentences, scores, stopwords, minTermLength);
    FoldScoreAttained(AllRuns(sentences, stopwords), scores, minTermLength);
    RankedEntries(phrases, topK, minTermLength);
  }

  /** Lines 115-123 of `generate_glossary`: rank the graph's nodes, extract and score phrases, sort and truncate. */
  method RankGraph(sentences: seq<string>, stopwords: set<string>, graph: Graph, topK: int, minTermLength: int)
    returns (entries: seq<GlossaryEntry>)
    requires Closed(graph)
    ensures entries == RankedOf(sentences, stopwords, graph, topK, minTermLength)
  {
    var scores := PageRank(graph, Damping, Steps);
    var phrases := ExtractPhrases(sentences, scores, stopwords, minTermLength);
    entries := SliceTo(SortByScore(Entries(phrases)), topK);
  }

  /** The result of `generate_glossary(request)`, stage by stage. */
  ghost function GlossaryOf(request: GlossaryRequest): Result<GlossaryResult, GlossaryError>
  {
    if request.texts == [] then Failure(GlossaryError(EmptyInputMessage))
    else
      var stopwords := StopwordSet(request.stopwords);
      var sentences := SplitSentences(Join(request.texts, "\n"));
      var tokenized := TokenizedOf(sentences, stopwords);
      var graph := GraphOf(tokenized, request.windowSize);
      if graph == map[] then Success(GlossaryResult([]))
      else
        GraphOfClosed(tokenized, request.windowSize);
        Success(GlossaryResult(RankedOf(sentences, stopwords, graph, request.topK, request.minTermLength)))
  }

  /** The ranked prefix keeps the properties of the phrase map it was built from. */
  lemma RankedEntries(p: PhraseMap, topK: int, minTermLength: int)
    requires Valid(p)
    requires forall t :: t in p.score ==> |t| >= minTermLength && p.score[t] >= 0.0
    ensures var r := SliceTo(SortByScore(Entries(p)), topK);
            SortedByScore(r) &&
            (topK >= 0 ==> |r| <= topK) &&
            forall i :: 0 <= i < |r| ==> r[i].term in p.score && r[i].score == p.score[r[i].term] &&
                                         |r[i].term| >= minTermLength && r[i].score >= 0.0
  {
    var es := Entries(p);
    var sorted := SortByScore(es);
    SortByScoreSpec(es);
    var r := SliceTo(sorted, topK);
    forall i | 0 <= i < |r|
      ensures r[i].term in p.score && r[i].score == p.score[r[i].term]
    {
      assert r[i] == sorted[i];
      assert r[i] in multiset(es);
    }
  }

  /** The properties of a glossary result: the error case, order, length bound and window degeneracy. */
  lemma GlossaryOfSpec(request: GlossaryRequest)
    ensures GlossaryOf(request).Failure? <==> request.texts == []
    ensures GlossaryOf(request).Failure? ==> GlossaryOf(request).error.message == EmptyInputMessage
    ensures GlossaryOf(request).Success? ==> SortedByScore(GlossaryOf(request).value.entries)
    ensures GlossaryOf(request).Success? && request.topK >= 0 ==> |GlossaryOf(request).value.entries| <= request.topK
    ensures GlossaryOf(request).Success? && 0 <= request.windowSize <= 1 ==> GlossaryOf(request).value.entries == []
    ensures GlossaryOf(request).Success? ==> forall i :: 0 <= i < |GlossaryOf(request).value.entries| ==>
              |GlossaryOf(request).value.entries[i].term| >= request.minTermLength &&
              GlossaryOf(request).value.entries[i].score >= 0.0
  {
    if request.texts != [] {
      var stopwords := StopwordSet(request.stopwords);
      var sentences := SplitSentences(Join(request.texts, "\n"));
      var tokenized := TokenizedOf(sentences, stopwords);
      var graph := GraphOf(tokenized, request.windowSize);
      if graph == map[] {
        assert GlossaryOf(request) == Success(GlossaryResult([]));
      } else {
        GraphOfClosed(tokenized, request.windowSize);
        var entries := RankedOf(sentences, stopwords, graph, request.topK, request.minTermLength);
        assert GlossaryOf(request) == Success(GlossaryResult(entries));
        RankedOfSpec(sentences, stopwords, graph, request.topK, request.minTermLength);
        if 0 <= request.windowSize <= 1 {
          NarrowWindowEmptyGraph(tokenized, request.windowSize);
        }
      }
    }
  }

  /**
   * `generate_glossary`: an empty text list is the one error; otherwise the
   * texts are joined with newlines and run through sentence splitting,
   * tokenization, the co-occurrence graph (an empty graph gives no entries),
   * PageRank, phrase extraction, ranking and truncation to `topK`.
   */
  method GenerateGlossary(request: GlossaryRequest) returns (r: Result<GlossaryResult, GlossaryError>)
    ensures r == GlossaryOf(request)
    ensures r.Failure? <==> request.texts == []
    ensures r.Failure? ==> r.error.message == EmptyInputMessage
    ensures r.Success? ==> SortedByScore(r.value.entries)
    ensures r.Success? && request.topK >= 0 ==> |r.value.entries| <= request.topK
    ensures r.Success? && 0 <= request.windowSize <= 1 ==> r.value.entries == []
    ensures r.Success? ==> forall i :: 0 <= i < |r.value.entries| ==>
              |r.value.entries[i].term| >= request.minTermLength && r.value.entries[i].score >= 0.0
  {
    if request.texts == [] {
      GlossaryOfSpec(request);
      return Failure(GlossaryError(EmptyInputMessage));
    }
    var stopwords := BuildStopwords(request.stopwords);
    var sentences := SplitSentences(Join(request.texts, "\n"));
    var tokenized := TokenizeAll(sentences, stopwords);
    var graph := BuildGraph(tokenized, request.windowSize);
    if graph == map[] {
      r := Success(GlossaryResult([]));
      assert r == GlossaryOf(request);
      GlossaryOfSpec(request);
      return;
    }
    GraphOfClosed(tokenized, request.windowSize);
    var entries := RankGraph(sentences, stopwords, graph, request.topK, request.minTermLength);
    r := Success(GlossaryResult(entries));
    assert r == GlossaryOf(request);
    GlossaryOfSpec(request);
  }
}
