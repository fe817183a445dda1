/**
 * `_extract_phrases` and `_update_phrase`: candidate phrases are the maximal
 * runs of non-stopword tokens within a sentence; each run long enough becomes
 * a term whose score is the sum of its tokens' PageRank scores, and a term
 * seen several times keeps its best score.
 */
module GlossaryPhrases {
  import opened Strings
  import opened GlossaryText
  import Seqs

  /**
   * The `phrases` dict: its scores, and its keys in first-insertion order
   * (a Python dict iterates in that order, and the final sort is stable).
   */
  datatype PhraseMap = PhraseMap(order: seq<string>, score: map<string, real>)

  const EmptyPhrases := PhraseMap([], map[])

  /** The order lists each key exactly once. */
  ghost predicate Valid(p: PhraseMap)
  {
    Seqs.NoDuplicates(p.order) && forall t :: t in p.score <==> t in p.order
  }

  /** `" ".join(tokens).strip()`. */
  function Term(tokens: seq<string>): string
  {
    Strip(Join(tokens, " "))
  }

  /** `scores.get(token, 0.0)`. */
  function ScoreOf(scores: map<string, real>, token: string): real
  {
    if token in scores then scores[token] else 0.0
  }

  /** `sum(scores.get(token, 0.0) for token in tokens)`; a repeated token counts every time. */
  function TokenScore(scores: map<string, real>, tokens: seq<string>): real
    decreases |tokens|
  {
    if tokens == [] then 0.0 else ScoreOf(scores, tokens[0]) + TokenScore(scores, tokens[1..])
  }

  ghost predicate NonNegative(scores: map<string, real>)
  {
    forall n :: n in scores ==> scores[n] >= 0.0
  }

  lemma {:induction false} TokenScoreNonNegative(scores: map<string, real>, tokens: seq<string>)
    requires NonNegative(scores)
    ensures TokenScore(scores, tokens) >= 0.0
    decreases |tokens|
  {
    if tokens != [] {
      TokenScoreNonNegative(scores, tokens[1..]);
    }
  }

  /**
   * `phrases[term] = max(score, phrases.get(term, 0.0))`: the term's entry
   * becomes the larger of `score` and its previous value (0.0 when absent),
   * a new term goes to the end of the order, and no other entry changes.
   */
  function MergeMax(p: PhraseMap, term: string, score: real): (r: PhraseMap)
    ensures r.score.Keys == p.score.Keys + {term}
    ensures r.score[term] >= score && r.score[term] >= ScoreOf(p.score, term)
    ensures r.score[term] == score || r.score[term] == ScoreOf(p.score, term)
    ensures r.order == if term in p.score then p.order else p.order + [term]
  {
    var previous := ScoreOf(p.score, term);
    var best := if score > previous then score else previous;
    var order := if term in p.score then p.order else p.order + [term];
    PhraseMap(order, p.score[term := best])
  }

  /** `MergeMax` leaves every other entry as it was and lowers none. */
  lemma MergeMaxKeepsOthers(p: PhraseMap, term: string, score: real)
    ensures forall t :: t in p.score && t != term ==> MergeMax(p, term, score).score[t] == p.score[t]
    ensures forall t :: t in p.score ==> MergeMax(p, term, score).score[t] >= p.score[t]
  {
  }

  /**
   * `_update_phrase`: a term shorter than `minTermLength` changes nothing;
   * otherwise the term's entry becomes the larger of its new score and its
   * previous one (0.0 when absent), a new term goes to the end of the order,
   * and no other entry changes.
   */
  function UpdatePhrase(p: PhraseMap, tokens: seq<string>, scores: map<string, real>, minTermLength: int): (r: PhraseMap)
    ensures |Term(tokens)| < minTermLength ==> r == p
    ensures |Term(tokens)| >= minTermLength ==> r == MergeMax(p, Term(tokens), TokenScore(scores, tokens))
  {
    var term := Term(tokens);
    if |term| < minTermLength then p else MergeMax(p, term, TokenScore(scores, tokens))
  }

  /** `_update_phrase` keeps each key listed exactly once. */
  lemma UpdatePhraseValid(p: PhraseMap, tokens: seq<string>, scores: map<string, real>, minTermLength: int)
    requires Valid(p)
    ensures Valid(UpdatePhrase(p, tokens, scores, minTermLength))
  {
    if |Term(tokens)| >= minTermLength {
      MergeMaxValid(p, Term(tokens), TokenScore(scores, tokens));
    }
  }

  lemma MergeMaxValid(p: PhraseMap, term: string, score: real)
    requires Valid(p)
    ensures Valid(MergeMax(p, term, score))
  {
    var r := MergeMax(p, term, score);
    if term in p.score {
      forall t ensures t in r.score <==> t in r.order {
        assert t in r.score <==> t in p.score;
      }
    } else {
      Seqs.AppendFreshNoDuplicates(p.order, term);
      forall t ensures t in r.score <==> t in r.order {
        assert t in r.order <==> t in p.order || t == term;
      }
    }
  }

  /** `_update_phrase` applied to each run in turn. */
  function Fold(p: PhraseMap, runs: seq<seq<string>>, scores: map<string, real>, minTermLength: int): PhraseMap
    decreases |runs|
  {
    if runs == [] then p else Fold(UpdatePhrase(p, runs[0], scores, minTermLength), runs[1..], scores, minTermLength)
  }

  lemma {:induction false} FoldAppend(p: PhraseMap, a: seq<seq<string>>, b: seq<seq<string>>, scores: map<string, real>, minTermLength: int)
    ensures Fold(p, a + b, scores, minTermLength) == Fold(Fold(p, a, scores, minTermLength), b, scores, minTermLength)
    decreases |a|
  {
    if a == [] {
      assert a + b == b;
    } else {
      assert (a + b)[1..] == a[1..] + b;
      FoldAppend(UpdatePhrase(p, a[0], scores, minTermLength), a[1..], b, scores, minTermLength);
    }
  }

  lemma FoldSnoc(p: PhraseMap, runs: seq<seq<string>>, scores: map<string, real>, minTermLength: int)
    requires runs != []
    ensures Fold(p, runs, scores, minTermLength) ==
            UpdatePhrase(Fold(p, runs[..|runs| - 1], scores, minTermLength), runs[|runs| - 1], scores, minTermLength)
  {
    var init := runs[..|runs| - 1];
    var last := runs[|runs| - 1];
    assert runs == init + [last];
    FoldAppend(p, init, [last], scores, minTermLength);
    var q := Fold(p, init, scores, minTermLength);
    assert Fold(q, [last], scores, minTermLength) == Fold(UpdatePhrase(q, last, scores, minTermLength), [], scores, minTermLength);
  }

  // ---------------------------------------------------------------------------
  // Candidate runs
  // ---------------------------------------------------------------------------

  /**
   * The phrases the scan emits from the token run `cur` collected so far and
   * the matches `ms` still to read: a stopword closes the current run, and
   * the run still open at the end of the sentence is emitted too.
   */
  function RunsFrom(cur: seq<string>, ms: seq<string>, stopwords: set<string>): seq<seq<string>>
    decreases |ms|
  {
    if ms == [] then (if cur == [] then [] else [cur])
    else if ms[0] in stopwords then (if cur == [] then [] else [cur]) + RunsFrom([], ms[1..], stopwords)
    else RunsFrom(cur + [ms[0]], ms[1..], stopwords)
  }

  /** The runs of one sentence. */
  function SentenceRuns(sentence: string, stopwords: set<string>): seq<seq<string>>
  {
    RunsFrom([], WordRuns(LowerStr(sentence)), stopwords)
  }

  /** The runs of all sentences, in order. */
  function AllRuns(sentences: seq<string>, stopwords: set<string>): seq<seq<string>>
    decreases |sentences|
  {
    if sentences == [] then [] else SentenceRuns(sentences[0], stopwords) + AllRuns(sentences[1..], stopwords)
  }

  /** The runs laid end to end. */
  function Flatten(runs: seq<seq<string>>): seq<string>
    decreases |runs|
  {
    if runs == [] then [] else runs[0] + Flatten(runs[1..])
  }

  lemma {:induction false} FlattenAppend(a: seq<seq<string>>, b: seq<seq<string>>)
    ensures Flatten(a + b) == Flatten(a) + Flatten(b)
    decreases |a|
  {
    if a == [] {
      assert a + b == b;
    } else {
      assert (a + b)[1..] == a[1..] + b;
      FlattenAppend(a[1..], b);
    }
  }

  lemma {:induction false} FilterOutAppend(a: seq<string>, b: seq<string>, stopwords: set<string>)
    ensures FilterOut(a + b, stopwords) == FilterOut(a, stopwords) + FilterOut(b, stopwords)
    decreases |b|
  {
    if b == [] {
      assert a + b == a;
    } else {
      var init := b[..|b| - 1];
      var last := b[|b| - 1];
      assert (a + b)[..|a + b| - 1] == a + init;
      assert (a + b)[|a + b| - 1] == last;
      FilterOutAppend(a, init, stopwords);
    }
  }

  /** Put together, the runs of a sentence are the tokens `_tokenize` gives it: the two scans agree. */
  lemma {:induction false} RunsFromKeepTokens(cur: seq<string>, ms: seq<string>, stopwords: set<string>)
    ensures Flatten(RunsFrom(cur, ms, stopwords)) == cur + FilterOut(ms, stopwords)
    decreases |ms|
  {
    if ms == [] {
      assert cur + [] == cur;
      if cur != [] {
        assert Flatten([cur]) == cur + Flatten([]);
      }
    } else {
      var x := ms[0];
      assert ms == [x] + ms[1..];
      FilterOutAppend([x], ms[1..], stopwords);
      assert FilterOut([x], stopwords) == FilterOut([], stopwords) + (if x in stopwords then [] else [x]);
      if x in stopwords {
        RunsFromKeepTokens([], ms[1..], stopwords);
        var rest := RunsFrom([], ms[1..], stopwords);
        if cur == [] {
          assert [] + rest == rest;
        } else {
          FlattenAppend([cur], rest);
          assert Flatten([cur]) == cur + Flatten([]);
        }
      } else {
        RunsFromKeepTokens(cur + [x], ms[1..], stopwords);
      }
    }
  }

  lemma SentenceRunsAreTokens(sentence: string, stopwords: set<string>)
    ensures Flatten(SentenceRuns(sentence, stopwords)) == TokensOf(sentence, stopwords)
  {
    RunsFromKeepTokens([], WordRuns(LowerStr(sentence)), stopwords);
    assert [] + TokensOf(sentence, stopwords) == TokensOf(sentence, stopwords);
  }

  /** A well-formed run: non-empty, made of word runs none of which is a stopword. */
  ghost predicate GoodRun(run: seq<string>, stopwords: set<string>)
  {
    run != [] && forall k :: 0 <= k < |run| ==> IsWordRun(run[k]) && run[k] !in stopwords
  }

  lemma {:induction false} RunsFromAreGood(cur: seq<string>, ms: seq<string>, stopwords: set<string>)
    requires forall k :: 0 <= k < |cur| ==> IsWordRun(cur[k]) && cur[k] !in stopwords
    requires forall k :: 0 <= k < |ms| ==> IsWordRun(ms[k])
    ensures forall k :: 0 <= k < |RunsFrom(cur, ms, stopwords)| ==> GoodRun(RunsFrom(cur, ms, stopwords)[k], stopwords)
    decreases |ms|
  {
    if ms != [] {
      if ms[0] in stopwords {
        RunsFromAreGood([], ms[1..], stopwords);
      } else {
        RunsFromAreGood(cur + [ms[0]], ms[1..], stopwords);
      }
    }
  }

  lemma {:induction false} AllRunsAreGood(sentences: seq<string>, stopwords: set<string>)
    ensures forall k :: 0 <= k < |AllRuns(sentences, stopwords)| ==> GoodRun(AllRuns(sentences, stopwords)[k], stopwords)
    decreases |sentences|
  {
    if sentences != [] {
      RunsFromAreGood([], WordRuns(LowerStr(sentences[0])), stopwords);
      AllRunsAreGood(sentences[1..], stopwords);
    }
  }

  /** The term of a good run reads back, word for word, as that run: it holds no stopword. */
  lemma GoodRunTerm(run: seq<string>, stopwords: set<string>)
    requires GoodRun(run, stopwords)
    ensures Term(run) == Join(run, " ")
    ensures WordRuns(Term(run)) == run
  {
    var s := Join(run, " ");
    JoinOfWordRunsEnds(run);
    StripUnchanged(s);
    WordRunsOfJoin(run);
  }

  /** Joining word runs with spaces starts and ends with a word character. */
  lemma {:induction false} JoinOfWordRunsEnds(run: seq<string>)
    requires run != [] && forall k :: 0 <= k < |run| ==> IsWordRun(run[k])
    ensures var s := Join(run, " "); s != [] && IsWordChar(s[0]) && IsWordChar(s[|s| - 1])
    decreases |run|
  {
    if |run| > 1 {
      JoinOfWordRunsEnds(run[1..]);
      var rest := Join(run[1..], " ");
      assert Join(run, " ") == run[0] + " " + rest;
    }
  }

  // ---------------------------------------------------------------------------
  // The phrase map
  // ---------------------------------------------------------------------------

  /** The terms long enough to be kept, one per run, in order (repeats included). */
  function LongTerms(runs: seq<seq<string>>, minTermLength: int): seq<string>
    decreases |runs|
  {
    if runs == [] then []
    else
      var t := Term(runs[|runs| - 1]);
      LongTerms(runs[..|runs| - 1], minTermLength) + (if |t| >= minTermLength then [t] else [])
  }

  /** The phrase map `_extract_phrases` returns. */
  function PhrasesOf(sentences: seq<string>, scores: map<string, real>, stopwords: set<string>, minTermLength: int): PhraseMap
  {
    Fold(EmptyPhrases, AllRuns(sentences, stopwords), scores, minTermLength)
  }

  /**
   * The keys are exactly the long-enough terms, listed once each in the order
   * they first occur.
   */
  lemma {:induction false} FoldOrder(runs: seq<seq<string>>, scores: map<string, real>, minTermLength: int)
    ensures Valid(Fold(EmptyPhrases, runs, scores, minTermLength))
    ensures Fold(EmptyPhrases, runs, scores, minTermLength).order == Seqs.Dedupe(LongTerms(runs, minTermLength))
    decreases |runs|
  {
    if runs != [] {
      var init := runs[..|runs| - 1];
      var last := runs[|runs| - 1];
      FoldOrder(init, scores, minTermLength);
      FoldSnoc(EmptyPhrases, runs, scores, minTermLength);
      UpdatePhraseValid(Fold(EmptyPhrases, init, scores, minTermLength), last, scores, minTermLength);
      var q := Fold(EmptyPhrases, init, scores, minTermLength);
      var lt := LongTerms(init, minTermLength);
      var t := Term(last);
      if |t| >= minTermLength {
        var all := lt + [t];
        assert LongTerms(runs, minTermLength) == all;
        assert all[..|all| - 1] == lt;
        assert (t in q.score) == (t in lt);
      } else {
        assert LongTerms(runs, minTermLength) == lt + [];
        assert lt + [] == lt;
      }
    }
  }

  /** `_update_phrase` never lowers or removes an entry, and leaves the run's term scoring at least the run. */
  lemma UpdatePhraseGrows(p: PhraseMap, run: seq<string>, scores: map<string, real>, minTermLength: int)
    ensures forall t :: t in p.score ==>
              t in UpdatePhrase(p, run, scores, minTermLength).score &&
              UpdatePhrase(p, run, scores, minTermLength).score[t] >= p.score[t]
    ensures |Term(run)| >= minTermLength ==>
              Term(run) in UpdatePhrase(p, run, scores, minTermLength).score &&
              UpdatePhrase(p, run, scores, minTermLength).score[Term(run)] >= TokenScore(scores, run)
  {
  }

  /** The runs whose long-enough terms are keys of `p` scoring at least the run. */
  ghost predicate RunsBounded(p: PhraseMap, runs: seq<seq<string>>, scores: map<string, real>, minTermLength: int)
  {
    forall k :: 0 <= k < |runs| && |Term(runs[k])| >= minTermLength ==>
      Term(runs[k]) in p.score && p.score[Term(runs[k])] >= TokenScore(scores, runs[k])
  }

  /** Every run's long-enough term is present with at least that run's score. */
  lemma {:induction false} FoldBoundsRuns(runs: seq<seq<string>>, scores: map<string, real>, minTermLength: int)
    ensures RunsBounded(Fold(EmptyPhrases, runs, scores, minTermLength), runs, scores, minTermLength)
    decreases |runs|
  {
    if runs != [] {
      var init := runs[..|runs| - 1];
      var last := runs[|runs| - 1];
      FoldBoundsRuns(init, scores, minTermLength);
      FoldSnoc(EmptyPhrases, runs, scores, minTermLength);
      var q := Fold(EmptyPhrases, init, scores, minTermLength);
      UpdatePhraseGrows(q, last, scores, minTermLength);
      RunsBoundedStep(q, UpdatePhrase(q, last, scores, minTermLength), runs, scores, minTermLength);
    }
  }

  /** A map that keeps every entry of `q` at least as high, and bounds the last run, bounds all the runs `q` bounded plus the last. */
  lemma RunsBoundedStep(q: PhraseMap, r: PhraseMap, runs: seq<seq<string>>, scores: map<string, real>, minTermLength: int)
    requires runs != []
    requires RunsBounded(q, runs[..|runs| - 1], scores, minTermLength)
    requires forall t :: t in q.score ==> t in r.score && r.score[t] >= q.score[t]
    requires |Term(runs[|runs| - 1])| >= minTermLength ==>
               Term(runs[|runs| - 1]) in r.score && r.score[Term(runs[|runs| - 1])] >= TokenScore(scores, runs[|runs| - 1])
    ensures RunsBounded(r, runs, scores, minTermLength)
  {
    var init := runs[..|runs| - 1];
    forall k | 0 <= k < |runs| && |Term(runs[k])| >= minTermLength
      ensures Term(runs[k]) in r.score && r.score[Term(runs[k])] >= TokenScore(scores, runs[k])
    {
      if k < |runs| - 1 {
        assert runs[k] == init[k];
      }
    }
  }

  /** Every key is the long-enough term of one of the runs. */
  lemma {:induction false} FoldKeysFromRuns(runs: seq<seq<string>>, scores: map<string, real>, minTermLength: int)
    ensures forall t :: t in Fold(EmptyPhrases, runs, scores, minTermLength).score ==>
              exists k :: 0 <= k < |runs| && Term(runs[k]) == t && |t| >= minTermLength
    decreases |runs|
  {
    if runs != [] {
      var init := runs[..|runs| - 1];
      FoldKeysFromRuns(init, scores, minTermLength);
      FoldSnoc(EmptyPhrases, runs, scores, minTermLength);
      var q := Fold(EmptyPhrases, init, scores, minTermLength);
      forall t | t in Fold(EmptyPhrases, runs, scores, minTermLength).score
        ensures exists k :: 0 <= k < |runs| && Term(runs[k]) == t && |t| >= minTermLength
      {
        if t in q.score {
          var k :| 0 <= k < |init| && Term(init[k]) == t && |t| >= minTermLength;
          assert runs[k] == init[k];
        } else {
          assert Term(runs[|runs| - 1]) == t;
        }
      }
    }
  }

  /**
   * Every score is non-negative and, unless it is the 0.0 default, it is the
   * score of one of the runs that produced the term.
   */
  lemma {:induction false} FoldScoreAttained(runs: seq<seq<string>>, scores: map<string, real>, minTermLength: int)
    ensures forall t :: t in Fold(EmptyPhrases, runs, scores, minTermLength).score ==>
              var v := Fold(EmptyPhrases, runs, scores, minTermLength).score[t];
              v >= 0.0 && (v == 0.0 || exists k :: 0 <= k < |runs| && Term(runs[k]) == t && v == TokenScore(scores, runs[k]))
    decreases |runs|
  {
    if runs != [] {
      var init := runs[..|runs| - 1];
      FoldScoreAttained(init, scores, minTermLength);
      FoldSnoc(EmptyPhrases, runs, scores, minTermLength);
      var q := Fold(EmptyPhrases, init, scores, minTermLength);
      var r := Fold(EmptyPhrases, runs, scores, minTermLength);
      forall t | t in r.score
        ensures r.score[t] >= 0.0 &&
                (r.score[t] == 0.0 || exists k :: 0 <= k < |runs| && Term(runs[k]) == t && r.score[t] == TokenScore(scores, runs[k]))
      {
        if t in q.score && r.score[t] == q.score[t] {
          if q.score[t] != 0.0 {
            var k :| 0 <= k < |init| && Term(init[k]) == t && q.score[t] == TokenScore(scores, init[k]);
            assert runs[k] == init[k];
          }
        } else {
          assert Term(runs[|runs| - 1]) == t;
        }
      }
    }
  }

  /** The phrase map lists each key once, in the order its term first occurs. */
  lemma PhrasesOfOrder(sentences: seq<string>, scores: map<string, real>, stopwords: set<string>, minTermLength: int)
    ensures Valid(PhrasesOf(sentences, scores, stopwords, minTermLength))
    ensures PhrasesOf(sentences, scores, stopwords, minTermLength).order ==
            Seqs.Dedupe(LongTerms(AllRuns(sentences, stopwords), minTermLength))
  {
    FoldOrder(AllRuns(sentences, stopwords), scores, minTermLength);
  }

  /**
   * Every key of the phrase map is a term at least `minTermLength` long
   * that re-tokenizes into the non-stopword tokens of the run it came from.
   */
  lemma PhraseKeysAreGoodTerms(sentences: seq<string>, scores: map<string, real>, stopwords: set<string>, minTermLength: int)
    ensures forall t :: t in PhrasesOf(sentences, scores, stopwords, minTermLength).score ==>
              |t| >= minTermLength && WordRuns(t) != [] &&
              forall k :: 0 <= k < |WordRuns(t)| ==> WordRuns(t)[k] !in stopwords
  {
    var p := PhrasesOf(sentences, scores, stopwords, minTermLength);
    var runs := AllRuns(sentences, stopwords);
    FoldKeysFromRuns(runs, scores, minTermLength);
    AllRunsAreGood(sentences, stopwords);
    forall t | t in p.score
      ensures |t| >= minTermLength && WordRuns(t) != [] &&
              forall k :: 0 <= k < |WordRuns(t)| ==> WordRuns(t)[k] !in stopwords
    {
      var k :| 0 <= k < |runs| && Term(runs[k]) == t && |t| >= minTermLength;
      GoodRunTerm(runs[k], stopwords);
    }
  }

  /** With non-negative token scores the 0.0 default never wins: every score is that of a run. */
  lemma FoldScoreIsRunScore(runs: seq<seq<string>>, scores: map<string, real>, minTermLength: int)
    requires NonNegative(scores)
    ensures forall t :: t in Fold(EmptyPhrases, runs, scores, minTermLength).score ==>
              exists k :: 0 <= k < |runs| && Term(runs[k]) == t &&
                          Fold(EmptyPhrases, runs, scores, minTermLength).score[t] == TokenScore(scores, runs[k])
  {
    var p := Fold(EmptyPhrases, runs, scores, minTermLength);
    FoldBoundsRuns(runs, scores, minTermLength);
    FoldScoreAttained(runs, scores, minTermLength);
    FoldKeysFromRuns(runs, scores, minTermLength);
    ZeroScoreIsRunScore(p, runs, scores, minTermLength);
  }

  /** A key whose score is the 0.0 default comes from a run, and with non-negative scores that run scores 0.0 too. */
  lemma ZeroScoreIsRunScore(p: PhraseMap, runs: seq<seq<string>>, scores: map<string, real>, minTermLength: int)
    requires NonNegative(scores)
    requires RunsBounded(p, runs, scores, minTermLength)
    requires forall t :: t in p.score ==> exists k :: 0 <= k < |runs| && Term(runs[k]) == t && |t| >= minTermLength
    requires forall t :: t in p.score ==>
               p.score[t] == 0.0 || exists k :: 0 <= k < |runs| && Term(runs[k]) == t && p.score[t] == TokenScore(scores, runs[k])
    ensures forall t :: t in p.score ==>
              exists k :: 0 <= k < |runs| && Term(runs[k]) == t && p.score[t] == TokenScore(scores, runs[k])
  {
    forall t | t in p.score && p.score[t] == 0.0
      ensures exists k :: 0 <= k < |runs| && Term(runs[k]) == t && p.score[t] == TokenScore(scores, runs[k])
    {
      var k :| 0 <= k < |runs| && Term(runs[k]) == t && |t| >= minTermLength;
      assert p.score[t] >= TokenScore(scores, runs[k]);
      TokenScoreNonNegative(scores, runs[k]);
    }
  }

  /**
   * With non-negative token scores, each term's score is the best score of
   * the runs that produced it: at least every one of them, and equal to one.
   */
  lemma PhraseScoresAreBest(sentences: seq<string>, scores: map<string, real>, stopwords: set<string>, minTermLength: int)
    requires NonNegative(scores)
    ensures forall k :: 0 <= k < |AllRuns(sentences, stopwords)| && |Term(AllRuns(sentences, stopwords)[k])| >= minTermLength ==>
              Term(AllRuns(sentences, stopwords)[k]) in PhrasesOf(sentences, scores, stopwords, minTermLength).score &&
              PhrasesOf(sentences, scores, stopwords, minTermLength).score[Term(AllRuns(sentences, stopwords)[k])]
                >= TokenScore(scores, AllRuns(sentences, stopwords)[k])
    ensures forall t :: t in PhrasesOf(sentences, scores, stopwords, minTermLength).score ==>
              exists k :: 0 <= k < |AllRuns(sentences, stopwords)| && Term(AllRuns(sentences, stopwords)[k]) == t &&
                          PhrasesOf(sentences, scores, stopwords, minTermLength).score[t] == TokenScore(scores, AllRuns(sentences, stopwords)[k])
  {
    FoldBoundsRuns(AllRuns(sentences, stopwords), scores, minTermLength);
    FoldScoreIsRunScore(AllRuns(sentences, stopwords), scores, minTermLength);
  }

  /**
   * The body of the sentence loop of `_extract_phrases`: scans one sentence's
   * matches, closing the current run at every stopword and at the end and
   * passing each closed run to `_update_phrase`.
   */
  method ScanSentence(phrases: PhraseMap, sentence: string, scores: map<string, real>, stopwords: set<string>, minTermLength: int)
    returns (updated: PhraseMap)
    ensures updated == Fold(phrases, SentenceRuns(sentence, stopwords), scores, minTermLength)
  {
    var matches := WordRuns(LowerStr(sentence));
    ghost var target := Fold(phrases, SentenceRuns(sentence, stopwords), scores, minTermLength);
    updated := phrases;
    var tokens: seq<string> := [];
    var j := 0;
    while j < |matches|
      invariant 0 <= j <= |matches|
      invariant Fold(updated, RunsFrom(tokens, matches[j..], stopwords), scores, minTermLength) == target
    {
      var token := matches[j];
      assert matches[j..][1..] == matches[j + 1..];
      ScanStep(updated, tokens, matches[j..], scores, stopwords, minTermLength);
      if token in stopwords {
        if tokens != [] {
          updated := UpdatePhrase(updated, tokens, scores, minTermLength);
          tokens := [];
        }
      } else {
        tokens := tokens + [token];
      }
      j := j + 1;
    }
    assert matches[j..] == [];
    ScanEnd(updated, tokens, scores, stopwords, minTermLength);
    if tokens != [] {
      updated := UpdatePhrase(updated, tokens, scores, minTermLength);
    }
  }

  /** One match of the scan: a stopword flushes the open run, any other token extends it. */
  lemma ScanStep(p: PhraseMap, cur: seq<string>, ms: seq<string>, scores: map<string, real>, stopwords: set<string>, minTermLength: int)
    requires ms != []
    ensures ms[0] in stopwords && cur != [] ==>
              Fold(p, RunsFrom(cur, ms, stopwords), scores, minTermLength) ==
              Fold(UpdatePhrase(p, cur, scores, minTermLength), RunsFrom([], ms[1..], stopwords), scores, minTermLength)
    ensures ms[0] in stopwords && cur == [] ==> RunsFrom(cur, ms, stopwords) == RunsFrom([], ms[1..], stopwords)
    ensures ms[0] !in stopwords ==> RunsFrom(cur, ms, stopwords) == RunsFrom(cur + [ms[0]], ms[1..], stopwords)
  {
    var later := RunsFrom([], ms[1..], stopwords);
    if ms[0] in stopwords {
      if cur != [] {
        assert ([cur] + later)[1..] == later;
      } else {
        assert [] + later == later;
      }
    }
  }

  /** The end of the sentence flushes the open run, if any. */
  lemma ScanEnd(p: PhraseMap, cur: seq<string>, scores: map<string, real>, stopwords: set<string>, minTermLength: int)
    ensures cur == [] ==> Fold(p, RunsFrom(cur, [], stopwords), scores, minTermLength) == p
    ensures cur != [] ==> Fold(p, RunsFrom(cur, [], stopwords), scores, minTermLength) == UpdatePhrase(p, cur, scores, minTermLength)
  {
    if cur != [] {
      assert [cur][1..] == [];
    }
  }

  /** `_extract_phrases`: every sentence's runs, in order, folded into an initially empty phrase map. */
  method ExtractPhrases(sentences: seq<string>, scores: map<string, real>, stopwords: set<string>, minTermLength: int)
    returns (phrases: PhraseMap)
    ensures phrases == PhrasesOf(sentences, scores, stopwords, minTermLength)
    ensures Valid(phrases)
  {
    ghost var target := PhrasesOf(sentences, scores, stopwords, minTermLength);
    phrases := EmptyPhrases;
    var i := 0;
    while i < |sentences|
      invariant 0 <= i <= |sentences|
      invariant Fold(phrases, AllRuns(sentences[i..], stopwords), scores, minTermLength) == target
    {
      assert sentences[i..][1..] == sentences[i + 1..];
      FoldAppend(phrases, SentenceRuns(sentences[i], stopwords), AllRuns(sentences[i + 1..], stopwords), scores, minTermLength);
      phrases := ScanSentence(phrases, sentences[i], scores, stopwords, minTermLength);
      i := i + 1;
    }
    assert sentences[i..] == [];
    PhrasesOfOrder(sentences, scores, stopwords, minTermLength);
  }
}
