/**
 * `_pagerank`: a fixed number of synchronous PageRank rounds over the
 * co-occurrence graph, then division of every score by the largest one.
 * Scores are exact reals; floating-point rounding is not modelled.
 */
module GlossaryRank {
  import opened GlossaryGraph

  const Damping: real := 0.85
  const Steps: int := 30

  type Scores = map<string, real>

  /** Every neighbour is itself a key, so `graph[neighbor]` and `scores[neighbor]` are defined. */
  ghost predicate Closed(g: Graph)
  {
    forall a, b :: a in g && b in g[a] ==> b in g
  }

  /** The graph `_build_graph` produces is closed: every neighbour is linked back, so it is a key. */
  lemma GraphOfClosed(tokenized: seq<seq<string>>, w: int)
    ensures Closed(GraphOf(tokenized, w))
  {
    var g := GraphOf(tokenized, w);
    var vocab := Vocabulary(tokenized);
    forall a, b | a in g && b in g[a]
      ensures b in g
    {
      LinkedSymmetric(tokenized, w, a, b);
      LinkedInVocabulary(tokenized, w, a, b);
    }
  }

  /** `len(graph[m]) or 1`. */
  function Degree(g: Graph, m: string): (d: real)
    requires m in g
    ensures d >= 1.0
  {
    if |g[m]| == 0 then 1.0 else |g[m]| as real
  }

  /** `sum(scores[m] / degree(m) for m in ms)`; the order of the terms does not matter over the reals. */
  ghost function Contribution(g: Graph, s: Scores, ms: set<string>): real
    requires ms <= g.Keys && ms <= s.Keys
    decreases ms
  {
    if ms == {} then 0.0
    else
      var m :| m in ms;
      s[m] / Degree(g, m) + Contribution(g, s, ms - {m})
  }

  /** Any element can be taken out of the sum first. */
  lemma {:induction false} ContributionPick(g: Graph, s: Scores, ms: set<string>, x: string)
    requires ms <= g.Keys && ms <= s.Keys && x in ms
    ensures Contribution(g, s, ms) == s[x] / Degree(g, x) + Contribution(g, s, ms - {x})
    decreases ms
  {
    var m :| m in ms && Contribution(g, s, ms) == s[m] / Degree(g, m) + Contribution(g, s, ms - {m});
    if m != x {
      ContributionPick(g, s, ms - {m}, x);
      ContributionPick(g, s, ms - {x}, m);
      assert ms - {m} - {x} == ms - {x} - {m};
    }
  }

  lemma {:induction false} ContributionNonNegative(g: Graph, s: Scores, ms: set<string>)
    requires ms <= g.Keys && ms <= s.Keys
    requires forall n :: n in s ==> s[n] >= 0.0
    ensures Contribution(g, s, ms) >= 0.0
    decreases ms
  {
    if ms != {} {
      var m :| m in ms && Contribution(g, s, ms) == s[m] / Degree(g, m) + Contribution(g, s, ms - {m});
      ContributionNonNegative(g, s, ms - {m});
      assert s[m] / Degree(g, m) >= 0.0;
    }
  }

  /** One node's score in the next round, computed from the previous round's scores `s` only. */
  ghost function NodeScore(g: Graph, s: Scores, d: real, n: string): real
    requires Closed(g) && s.Keys == g.Keys && n in g
  {
    if g[n] == {} then 1.0 - d else (1.0 - d) + d * Contribution(g, s, g[n])
  }

  /** One synchronous round: every node's new score reads the old map only. */
  ghost function Round(g: Graph, s: Scores, d: real): (r: Scores)
    requires Closed(g) && s.Keys == g.Keys
    ensures r.Keys == g.Keys
  {
    map n | n in g :: NodeScore(g, s, d, n)
  }

  /** The scores after `t` rounds, starting from 1.0 everywhere. */
  ghost function Iterate(g: Graph, d: real, t: nat): (r: Scores)
    requires Closed(g)
    ensures r.Keys == g.Keys
    decreases t
  {
    if t == 0 then map n | n in g :: 1.0 else Round(g, Iterate(g, d, t - 1), d)
  }

  lemma NodeScoreAtLeastBase(g: Graph, s: Scores, d: real, n: string)
    requires Closed(g) && s.Keys == g.Keys && n in g && 0.0 <= d
    requires forall m :: m in s ==> s[m] >= 0.0
    ensures NodeScore(g, s, d, n) >= 1.0 - d
  {
    if g[n] != {} {
      ContributionNonNegative(g, s, g[n]);
      assert d * Contribution(g, s, g[n]) >= 0.0;
    }
  }

  /** With a damping factor in [0, 1) every raw score stays at least `1 - d`, so it is positive. */
  lemma {:induction false} IterateAtLeastBase(g: Graph, d: real, t: nat)
    requires Closed(g) && 0.0 <= d < 1.0
    ensures forall n :: n in Iterate(g, d, t) ==> Iterate(g, d, t)[n] >= 1.0 - d
    decreases t
  {
    if t > 0 {
      IterateAtLeastBase(g, d, t - 1);
      var s := Iterate(g, d, t - 1);
      var r := Iterate(g, d, t);
      assert r == Round(g, s, d);
      forall n | n in r
        ensures r[n] >= 1.0 - d
      {
        NodeScoreAtLeastBase(g, s, d, n);
      }
    }
  }

  /** `m` is the largest value of `s`. */
  ghost predicate IsMax(s: Scores, m: real)
  {
    (exists n :: n in s && s[n] == m) && forall n :: n in s ==> s[n] <= m
  }

  lemma {:induction false} MaxExists(s: Scores)
    requires s != map[]
    ensures exists m :: IsMax(s, m)
    decreases |s|
  {
    var k :| k in s;
    var rest := s - {k};
    assert rest.Keys == s.Keys - {k};
    assert forall n :: n in s ==> n == k || (n in rest && rest[n] == s[n]);
    if rest == map[] {
      assert IsMax(s, s[k]);
    } else {
      assert |rest| < |s|;
      MaxExists(rest);
      var m :| IsMax(rest, m);
      if s[k] <= m {
        assert IsMax(s, m);
      } else {
        assert IsMax(s, s[k]);
      }
    }
  }

  /** `max(scores.values(), default=1.0)`. */
  ghost function MaxValue(s: Scores): (m: real)
    ensures s == map[] ==> m == 1.0
    ensures s != map[] ==> IsMax(s, m)
  {
    if s == map[] then 1.0 else MaxExists(s); var m :| IsMax(s, m); m
  }

  /** Every score is positive. */
  ghost predicate AllPositive(s: Scores)
  {
    forall n :: n in s ==> s[n] > 0.0
  }

  /** The maximum of positive scores is positive. */
  lemma MaxValuePositive(s: Scores)
    requires AllPositive(s)
    ensures MaxValue(s) > 0.0
  {
    if s != map[] {
      var n :| n in s && s[n] == MaxValue(s);
    }
  }

  /** `{n: score / max_score for n, score in scores.items()}`. */
  function Normalise(s: Scores, top: real): (r: Scores)
    requires top != 0.0
    ensures r.Keys == s.Keys
  {
    map n | n in s :: s[n] / top
  }

  /** Dividing positive scores by their maximum puts them in (0, 1]. */
  lemma NormaliseInRange(s: Scores, top: real)
    requires AllPositive(s) && top > 0.0
    requires forall n :: n in s ==> s[n] <= top
    ensures forall n :: n in Normalise(s, top) ==> 0.0 < Normalise(s, top)[n] <= 1.0
  {
    forall n | n in Normalise(s, top)
      ensures 0.0 < Normalise(s, top)[n] <= 1.0
    {
      DivideByMax(s[n], top);
    }
  }

  /** The node holding the maximum is normalised to exactly 1. */
  lemma NormaliseHitsOne(s: Scores, top: real, m: string)
    requires top > 0.0 && m in s && s[m] == top
    ensures m in Normalise(s, top) && Normalise(s, top)[m] == 1.0
  {
  }

  lemma NormaliseBounds(s: Scores, top: real)
    requires AllPositive(s) && IsMax(s, top) && top > 0.0
    ensures forall n :: n in Normalise(s, top) ==> 0.0 < Normalise(s, top)[n] <= 1.0
    ensures exists n :: n in Normalise(s, top) && Normalise(s, top)[n] == 1.0
  {
    NormaliseInRange(s, top);
    var m :| m in s && s[m] == top;
    NormaliseHitsOne(s, top, m);
  }

  lemma {:induction false} IteratePositive(g: Graph, d: real, t: nat)
    requires Closed(g) && 0.0 <= d < 1.0
    ensures AllPositive(Iterate(g, d, t))
  {
    IterateAtLeastBase(g, d, t);
  }

  /** The score map of `_pagerank(g, d, steps)`: `steps` rounds (none for a negative count), each score divided by the maximum. */
  ghost function PageRankOf(g: Graph, d: real, steps: int): (r: Scores)
    requires Closed(g) && 0.0 <= d < 1.0
    ensures r.Keys == g.Keys
  {
    var raw := Iterate(g, d, if steps < 0 then 0 else steps);
    IteratePositive(g, d, if steps < 0 then 0 else steps);
    Normalise(raw, MaxValue(raw))
  }

  lemma DivideByMax(x: real, top: real)
    requires 0.0 < x <= top
    ensures 0.0 < x / top <= 1.0
  {
  }

  /** `sum(scores[m] / deg(m) for m in neighbours)`. */
  method NeighbourSum(g: Graph, scores: Scores, neighbours: set<string>) returns (total: real)
    requires neighbours <= g.Keys && neighbours <= scores.Keys
    ensures total == Contribution(g, scores, neighbours)
  {
    total := 0.0;
    var rest := neighbours;
    while rest != {}
      invariant rest <= neighbours
      invariant total + Contribution(g, scores, rest) == Contribution(g, scores, neighbours)
      decreases rest
    {
      var neighbour :| neighbour in rest;
      ContributionPick(g, scores, rest, neighbour);
      total := total + scores[neighbour] / Degree(g, neighbour);
      rest := rest - {neighbour};
    }
  }

  /** One round of the loop body of `_pagerank`, filling `next` from the previous `scores`. */
  method RoundScores(g: Graph, scores: Scores, d: real) returns (next: Scores)
    requires Closed(g) && scores.Keys == g.Keys
    ensures next == Round(g, scores, d)
  {
    next := map[];
    var todo := g.Keys;
    while todo != {}
      invariant todo <= g.Keys
      invariant next.Keys == g.Keys - todo
      invariant forall n :: n in next ==> next[n] == NodeScore(g, scores, d, n)
      decreases todo
    {
      var node :| node in todo;
      var neighbours := g[node];
      if neighbours == {} {
        next := next[node := 1.0 - d];
      } else {
        var neighbourSum := NeighbourSum(g, scores, neighbours);
        next := next[node := (1.0 - d) + d * neighbourSum];
      }
      todo := todo - {node};
    }
  }

  /** `max(scores.values(), default=1.0)`. */
  method MaxScore(scores: Scores) returns (top: real)
    ensures top == MaxValue(scores)
  {
    top := 1.0;
    if scores != map[] {
      var first :| first in scores;
      top := scores[first];
      ghost var argmax := first;
      var todo := scores.Keys - {first};
      while todo != {}
        invariant todo <= scores.Keys
        invariant argmax in scores && scores[argmax] == top
        invariant forall n :: n in scores && n !in todo ==> scores[n] <= top
        decreases todo
      {
        var n :| n in todo;
        if scores[n] > top {
          top := scores[n];
          argmax := n;
        }
        todo := todo - {n};
      }
      assert IsMax(scores, top);
      MaxUnique(scores, top, MaxValue(scores));
    }
  }

  lemma MaxUnique(s: Scores, m1: real, m2: real)
    requires IsMax(s, m1) && IsMax(s, m2)
    ensures m1 == m2
  {
  }

  /** The normalised scores lie in (0, 1] and the node holding the maximum scores exactly 1. */
  lemma {:induction false} PageRankBounds(g: Graph, d: real, steps: int)
    requires Closed(g) && 0.0 <= d < 1.0
    ensures forall n :: n in PageRankOf(g, d, steps) ==> 0.0 < PageRankOf(g, d, steps)[n] <= 1.0
    ensures g != map[] ==> exists n :: n in PageRankOf(g, d, steps) && PageRankOf(g, d, steps)[n] == 1.0
  {
    var t := if steps < 0 then 0 else steps;
    var raw := Iterate(g, d, t);
    IteratePositive(g, d, t);
    if raw == map[] {
      assert PageRankOf(g, d, steps) == map[];
    } else {
      NormaliseBounds(raw, MaxValue(raw));
      assert PageRankOf(g, d, steps) == Normalise(raw, MaxValue(raw));
    }
  }

  /**
   * `_pagerank`: `steps` rounds of `next[n] = (1 - d) + d * sum(scores[m] / deg(m))`
   * (or `1 - d` for a node without neighbours), each reading only the
   * previous round, then normalisation by the maximum. The result has the
   * graph's keys, every score lies in (0, 1], and the top score is exactly 1.
   */
  method PageRank(g: Graph, damping: real, steps: int) returns (scores: Scores)
    requires Closed(g)
    requires 0.0 <= damping < 1.0
    ensures scores.Keys == g.Keys
    ensures scores == PageRankOf(g, damping, steps)
    ensures forall n :: n in scores ==> 0.0 < scores[n] <= 1.0
    ensures g != map[] ==> exists n :: n in scores && scores[n] == 1.0
  {
    scores := map n | n in g :: 1.0;
    var t := 0;
    while t < steps
      invariant 0 <= t && (t <= steps || t == 0)
      invariant scores == Iterate(g, damping, t)
    {
      scores := RoundScores(g, scores, damping);
      t := t + 1;
    }
    assert t == if steps < 0 then 0 else steps;
    IteratePositive(g, damping, t);
    var maxScore := MaxScore(scores);
    MaxValuePositive(scores);
    scores := Normalise(scores, maxScore);
    PageRankBounds(g, damping, steps);
  }
}
