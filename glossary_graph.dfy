/**
 * `_build_graph`: the undirected co-occurrence graph over a sliding window of
 * the filtered tokens of every sentence.
 */
module GlossaryGraph {

  /** The co-occurrence graph: each token to the set of tokens it shares a window with. */
  type Graph = map<string, set<string>>

  /** `graph[a]` of a `defaultdict(set)`: the stored set, or an empty set for a missing key. */
  function Neighbours(g: Graph, a: string): set<string>
  {
    if a in g then g[a] else {}
  }

  ghost predicate Edge(g: Graph, a: string, b: string)
  {
    a in g && b in g[a]
  }

  /** `graph[a].add(b)`: creates the key `a` if needed and adds `b` to its set. */
  function AddNeighbour(g: Graph, a: string, b: string): (r: Graph)
    ensures r.Keys == g.Keys + {a}
    ensures forall p, q :: Edge(r, p, q) <==> Edge(g, p, q) || (p == a && q == b)
    ensures forall p :: p in g && g[p] != {} ==> r[p] != {}
    ensures r[a] != {}
  {
    g[a := Neighbours(g, a) + {b}]
  }

  /**
   * The stop index of the slice `tokens[i + 1 : min(i + w, n)]` once Python
   * has normalised it: a negative stop counts from the end, and the result is
   * clamped to `[0, n]`.
   */
  function WindowEnd(i: int, w: int, n: nat): (e: int)
    ensures 0 <= e <= n
    ensures i + w >= 0 ==> e <= i + w
  {
    var stop := if i + w < n then i + w else n;
    if stop >= 0 then stop else if stop + n >= 0 then stop + n else 0
  }

  /** Positions `i < j` of one token list that `_build_graph` links, and `(a, b)` is that link read in either direction. */
  ghost predicate LinksAt(ts: seq<string>, w: int, i: int, j: int, a: string, b: string)
  {
    0 <= i < |ts| && i + 1 <= j < WindowEnd(i, w, |ts|) && ts[i] != ts[j]
    && ((a == ts[i] && b == ts[j]) || (a == ts[j] && b == ts[i]))
  }

  /** Linked through position `i` and a neighbour before `jEnd`. */
  ghost predicate RowLinks(ts: seq<string>, w: int, i: int, jEnd: int, a: string, b: string)
  {
    exists j :: j < jEnd && LinksAt(ts, w, i, j, a, b)
  }

  /** Linked through some position before `iEnd` of one token list. */
  ghost predicate SentenceLinks(ts: seq<string>, w: int, iEnd: int, a: string, b: string)
  {
    exists i :: 0 <= i < iEnd && RowLinks(ts, w, i, |ts|, a, b)
  }

  /** Linked in one of the first `kEnd` token lists. */
  ghost predicate LinksBefore(tokenized: seq<seq<string>>, w: int, kEnd: int, a: string, b: string)
  {
    exists k :: 0 <= k < kEnd && k < |tokenized| && SentenceLinks(tokenized[k], w, |tokenized[k]|, a, b)
  }

  /**
   * `a` and `b` are different tokens that occur in one token list at positions
   * `i < j` with `j` inside the window after `i` (in either order).
   */
  ghost predicate Linked(tokenized: seq<seq<string>>, w: int, a: string, b: string)
  {
    LinksBefore(tokenized, w, |tokenized|, a, b)
  }

  lemma RowLinksStep(ts: seq<string>, w: int, i: int, j: int, a: string, b: string)
    requires 0 <= i < |ts| && i + 1 <= j < WindowEnd(i, w, |ts|)
    ensures RowLinks(ts, w, i, j + 1, a, b) <==> RowLinks(ts, w, i, j, a, b) || LinksAt(ts, w, i, j, a, b)
  {
    if RowLinks(ts, w, i, j + 1, a, b) {
      var j' :| j' < j + 1 && LinksAt(ts, w, i, j', a, b);
      if j' < j {
        assert RowLinks(ts, w, i, j, a, b);
      }
    }
  }

  lemma RowLinksSaturate(ts: seq<string>, w: int, i: int, jEnd: int, a: string, b: string)
    requires jEnd >= WindowEnd(i, w, |ts|)
    ensures RowLinks(ts, w, i, jEnd, a, b) <==> RowLinks(ts, w, i, |ts|, a, b)
  {
  }

  lemma SentenceLinksStep(ts: seq<string>, w: int, i: int, a: string, b: string)
    requires 0 <= i
    ensures SentenceLinks(ts, w, i + 1, a, b) <==> SentenceLinks(ts, w, i, a, b) || RowLinks(ts, w, i, |ts|, a, b)
  {
    if SentenceLinks(ts, w, i + 1, a, b) {
      var i' :| 0 <= i' < i + 1 && RowLinks(ts, w, i', |ts|, a, b);
      if i' < i {
        assert SentenceLinks(ts, w, i, a, b);
      }
    }
  }

  lemma LinksBeforeStep(tokenized: seq<seq<string>>, w: int, k: int, a: string, b: string)
    requires 0 <= k < |tokenized|
    ensures LinksBefore(tokenized, w, k + 1, a, b)
            <==> LinksBefore(tokenized, w, k, a, b) || SentenceLinks(tokenized[k], w, |tokenized[k]|, a, b)
  {
    if LinksBefore(tokenized, w, k + 1, a, b) {
      var k' :| 0 <= k' < k + 1 && k' < |tokenized| && SentenceLinks(tokenized[k'], w, |tokenized[k']|, a, b);
      if k' < k {
        assert LinksBefore(tokenized, w, k, a, b);
      }
    }
  }

  /** The link relation is symmetric and never links a token with itself. */
  lemma LinkedSymmetric(tokenized: seq<seq<string>>, w: int, a: string, b: string)
    requires Linked(tokenized, w, a, b)
    ensures Linked(tokenized, w, b, a) && a != b
  {
    var k :| 0 <= k < |tokenized| && SentenceLinks(tokenized[k], w, |tokenized[k]|, a, b);
    var ts := tokenized[k];
    var i :| 0 <= i < |ts| && RowLinks(ts, w, i, |ts|, a, b);
    var j :| j < |ts| && LinksAt(ts, w, i, j, a, b);
    assert LinksAt(ts, w, i, j, b, a);
    assert RowLinks(ts, w, i, |ts|, b, a);
    assert SentenceLinks(ts, w, |ts|, b, a);
  }

  /** A window of width 0 or 1 never reaches past the token itself, so nothing is linked. */
  lemma NarrowWindowLinksNothing(tokenized: seq<seq<string>>, w: int, a: string, b: string)
    requires 0 <= w <= 1
    ensures !Linked(tokenized, w, a, b)
  {
  }

  /** A window of width 0 or 1 gives the empty graph. */
  lemma NarrowWindowEmptyGraph(tokenized: seq<seq<string>>, w: int)
    requires 0 <= w <= 1
    ensures GraphOf(tokenized, w) == map[]
  {
    var g := GraphOf(tokenized, w);
    if g != map[] {
      var a :| a in g;
      var b :| b in Vocabulary(tokenized) && Linked(tokenized, w, a, b);
      NarrowWindowLinksNothing(tokenized, w, a, b);
      assert false;
    }
  }

  /**
   * With a negative window the slice stop wraps around from the end of the
   * list, so links do appear: `["x", "y", "z"]` with window `-1` links x and y.
   */
  lemma NegativeWindowLinks()
    ensures Linked([["x", "y", "z"]], -1, "x", "y")
  {
    var ts := ["x", "y", "z"];
    assert WindowEnd(0, -1, 3) == 2;
    assert LinksAt(ts, -1, 0, 1, "x", "y");
    assert RowLinks(ts, -1, 0, |ts|, "x", "y");
    assert SentenceLinks(ts, -1, |ts|, "x", "y");
    assert [["x", "y", "z"]][0] == ts;
  }

  /** Every token of every token list. */
  ghost function Vocabulary(tokenized: seq<seq<string>>): set<string>
  {
    set k, i | 0 <= k < |tokenized| && 0 <= i < |tokenized[k]| :: tokenized[k][i]
  }

  lemma LinkedInVocabulary(tokenized: seq<seq<string>>, w: int, a: string, b: string)
    requires Linked(tokenized, w, a, b)
    ensures a in Vocabulary(tokenized) && b in Vocabulary(tokenized)
  {
    var k :| 0 <= k < |tokenized| && SentenceLinks(tokenized[k], w, |tokenized[k]|, a, b);
    var ts := tokenized[k];
    var i :| 0 <= i < |ts| && RowLinks(ts, w, i, |ts|, a, b);
    var j :| j < |ts| && LinksAt(ts, w, i, j, a, b);
    assert tokenized[k][i] in Vocabulary(tokenized);
    assert tokenized[k][j] in Vocabulary(tokenized);
  }

  /** The graph as a value: each linked token to the set of tokens it is linked with. */
  ghost function GraphOf(tokenized: seq<seq<string>>, w: int): Graph
  {
    var vocab := Vocabulary(tokenized);
    map a | a in vocab && (exists b :: b in vocab && Linked(tokenized, w, a, b))
      :: set b | b in vocab && Linked(tokenized, w, a, b)
  }

  /** A graph whose edges are exactly the links and whose keys all have neighbours is `GraphOf`. */
  lemma GraphOfUnique(g: Graph, tokenized: seq<seq<string>>, w: int)
    requires forall a, b :: Edge(g, a, b) <==> Linked(tokenized, w, a, b)
    requires forall a :: a in g ==> g[a] != {}
    ensures g == GraphOf(tokenized, w)
  {
    var spec := GraphOf(tokenized, w);
    forall a | a in g
      ensures a in spec && g[a] == spec[a]
    {
      GraphOfRow(g, tokenized, w, a);
    }
    forall a | a in spec
      ensures a in g
    {
      GraphOfKey(g, tokenized, w, a);
    }
    SameGraph(g, spec);
  }

  lemma SameGraph(g: Graph, h: Graph)
    requires forall a :: a in g ==> a in h && g[a] == h[a]
    requires forall a :: a in h ==> a in g
    ensures g == h
  {
    assert g.Keys == h.Keys;
  }

  lemma GraphOfRow(g: Graph, tokenized: seq<seq<string>>, w: int, a: string)
    requires forall a, b :: Edge(g, a, b) <==> Linked(tokenized, w, a, b)
    requires a in g && g[a] != {}
    ensures a in GraphOf(tokenized, w) && g[a] == GraphOf(tokenized, w)[a]
  {
    var vocab := Vocabulary(tokenized);
    var b :| b in g[a];
    LinkedInVocabulary(tokenized, w, a, b);
    forall c | c in g[a] ensures c in vocab { LinkedInVocabulary(tokenized, w, a, c); }
  }

  lemma GraphOfKey(g: Graph, tokenized: seq<seq<string>>, w: int, a: string)
    requires forall a, b :: Edge(g, a, b) <==> Linked(tokenized, w, a, b)
    requires a in GraphOf(tokenized, w)
    ensures a in g
  {
    var vocab := Vocabulary(tokenized);
    var b :| b in vocab && Linked(tokenized, w, a, b);
    assert Edge(g, a, b);
  }

  /**
   * `_build_graph`: for every token list and every position, link the token
   * with each later token of the slice `tokens[i + 1 : min(i + w, n)]`
   * unless they are equal, inserting the link in both directions.
   */
  method BuildGraph(tokenized: seq<seq<string>>, windowSize: int) returns (g: Graph)
    ensures forall a, b :: Edge(g, a, b) <==> Linked(tokenized, windowSize, a, b)
    ensures forall a :: a in g ==> g[a] != {}
    ensures forall a, b :: Edge(g, a, b) ==> Edge(g, b, a) && a != b
    ensures 0 <= windowSize <= 1 ==> g == map[]
    ensures g == GraphOf(tokenized, windowSize)
  {
    var w := windowSize;
    g := map[];
    var k := 0;
    while k < |tokenized|
      invariant 0 <= k <= |tokenized|
      invariant forall a :: a in g ==> g[a] != {}
      invariant forall a, b :: Edge(g, a, b) <==> LinksBefore(tokenized, w, k, a, b)
    {
      var tokens := tokenized[k];
      var index := 0;
      while index < |tokens|
        invariant 0 <= index <= |tokens|
        invariant forall a :: a in g ==> g[a] != {}
        invariant forall a, b :: Edge(g, a, b) <==>
                    LinksBefore(tokenized, w, k, a, b) || SentenceLinks(tokens, w, index, a, b)
      {
        var token := tokens[index];
        var windowEnd := WindowEnd(index, w, |tokens|);
        var j := index + 1;
        while j < windowEnd
          invariant index + 1 <= j
          invariant forall a :: a in g ==> g[a] != {}
          invariant forall a, b :: Edge(g, a, b) <==>
                      LinksBefore(tokenized, w, k, a, b) || SentenceLinks(tokens, w, index, a, b)
                      || RowLinks(tokens, w, index, j, a, b)
        {
          var neighbour := tokens[j];
          forall a, b
            ensures RowLinks(tokens, w, index, j + 1, a, b) <==>
                      RowLinks(tokens, w, index, j, a, b) || LinksAt(tokens, w, index, j, a, b)
          {
            RowLinksStep(tokens, w, index, j, a, b);
          }
          if token != neighbour {
            g := AddNeighbour(g, token, neighbour);
            g := AddNeighbour(g, neighbour, token);
          }
          j := j + 1;
        }
        forall a, b
          ensures SentenceLinks(tokens, w, index + 1, a, b) <==>
                    SentenceLinks(tokens, w, index, a, b) || RowLinks(tokens, w, index, |tokens|, a, b)
          ensures RowLinks(tokens, w, index, j, a, b) <==> RowLinks(tokens, w, index, |tokens|, a, b)
        {
          SentenceLinksStep(tokens, w, index, a, b);
          RowLinksSaturate(tokens, w, index, j, a, b);
        }
        index := index + 1;
      }
      forall a, b
        ensures LinksBefore(tokenized, w, k + 1, a, b) <==>
                  LinksBefore(tokenized, w, k, a, b) || SentenceLinks(tokens, w, |tokens|, a, b)
      {
        LinksBeforeStep(tokenized, w, k, a, b);
      }
      k := k + 1;
    }
    forall a, b | Edge(g, a, b)
      ensures Edge(g, b, a) && a != b
    {
      LinkedSymmetric(tokenized, w, a, b);
    }
    if 0 <= w <= 1 {
      forall a | a in g
        ensures false
      {
        var b :| b in g[a];
        NarrowWindowLinksNothing(tokenized, w, a, b);
      }
    }
    GraphOfUnique(g, tokenized, w);
  }
}
