/**
 * The text stages of glossary extraction: the stopword set, the sentence
 * splitter (`SENTENCE_SPLIT_RE`) and the tokenizer (`TOKEN_RE`).
 */
module GlossaryText {
  import opened Wrappers
  import opened Strings
  import Seqs

  /** A character of the class `[.!?。！？\n]` that ends a sentence. */
  predicate IsSep(c: char)
  {
    c == '.' || c == '!' || c == '?' || c == '\U{3002}' || c == '\U{FF01}' || c == '\U{FF1F}' || c == '\n'
  }

  /**
   * A character of the class `[\w一-鿿]`: ASCII letters and digits,
   * the underscore, and the CJK unified ideographs.
   */
  predicate IsWordChar(c: char)
  {
    ('a' <= c <= 'z') || ('A' <= c <= 'Z') || ('0' <= c <= '9') || c == '_' || ('\U{4E00}' <= c <= '\U{9FFF}')
  }

  predicate NotSep(c: char) { !IsSep(c) }

  /** The characters that can belong to a word; a phrase's tokens are joined with a space, which is not one. */
  lemma WordCharsAreVisible(c: char)
    requires IsWordChar(c)
    ensures !IsSpace(c) && !IsSep(c) && IsWordChar(LowerChar(c))
  {
  }

  const EnStopwords: set<string> := {
    "a", "an", "and", "are", "as", "at", "be", "but", "by", "for", "from", "has", "have",
    "he", "in", "is", "it", "its", "of", "on", "or", "she", "that", "the", "their", "they",
    "this", "to", "was", "we", "were", "with", "you"
  }

  const ZhStopwords: set<string> := {
    "的", "了", "在", "是", "我", "有", "和", "就", "不", "人", "都", "一", "一个", "上", "也",
    "很", "到", "说", "要", "去", "你", "会", "着", "没有", "看", "好", "自己", "这"
  }

  /** `{w.lower() for w in ws}`. */
  function LowerAll(ws: set<string>): set<string>
  {
    set w | w in ws :: LowerStr(w)
  }

  /** The lower-cased words of a sequence, as a set. */
  function LowerEach(ws: seq<string>): (r: set<string>)
    ensures forall i :: 0 <= i < |ws| ==> LowerStr(ws[i]) in r
    ensures forall w :: w in r ==> exists i :: 0 <= i < |ws| && w == LowerStr(ws[i])
    decreases |ws|
  {
    if ws == [] then {} else LowerEach(ws[..|ws| - 1]) + {LowerStr(ws[|ws| - 1])}
  }

  /** The stopword set of one request: the lower-cased English list, the Chinese list and the lower-cased extras. */
  function StopwordSet(extra: Option<seq<string>>): set<string>
  {
    LowerAll(EnStopwords) + ZhStopwords + (if extra.Some? then LowerEach(extra.value) else {})
  }

  /** The stopword set holds both baseline lists and every extra word, lower-cased. */
  lemma StopwordSetHolds(extra: Option<seq<string>>)
    ensures ZhStopwords <= StopwordSet(extra) && LowerAll(EnStopwords) <= StopwordSet(extra)
    ensures extra.Some? ==> forall i :: 0 <= i < |extra.value| ==> LowerStr(extra.value[i]) in StopwordSet(extra)
  {
  }

  /** `stopwords.update(word.lower() for word in extra)`: add each word, lower-cased. */
  method AddLowered(stopwords: set<string>, words: seq<string>) returns (updated: set<string>)
    ensures updated == stopwords + LowerEach(words)
    ensures stopwords <= updated
    ensures forall i :: 0 <= i < |words| ==> LowerStr(words[i]) in updated
  {
    updated := stopwords;
    var i := 0;
    while i < |words|
      invariant 0 <= i <= |words|
      invariant updated == stopwords + LowerEach(words[..i])
    {
      assert words[..i + 1][..i] == words[..i];
      updated := updated + {LowerStr(words[i])};
      i := i + 1;
    }
    assert words[..i] == words;
  }

  /** `_build_stopwords`: start from the baseline and add each extra word, lower-cased. */
  method BuildStopwords(extra: Option<seq<string>>) returns (stopwords: set<string>)
    ensures stopwords == StopwordSet(extra)
    ensures ZhStopwords <= stopwords && LowerAll(EnStopwords) <= stopwords
    ensures extra.Some? ==> forall i :: 0 <= i < |extra.value| ==> LowerStr(extra.value[i]) in stopwords
  {
    stopwords := LowerAll(EnStopwords) + ZhStopwords;
    if extra.Some? && extra.value != [] {
      stopwords := AddLowered(stopwords, extra.value);
    }
    StopwordSetHolds(extra);
  }

  // ---------------------------------------------------------------------------
  // Sentence splitting
  // ---------------------------------------------------------------------------

  ghost predicate NoSep(p: string)
  {
    forall i :: 0 <= i < |p| ==> !IsSep(p[i])
  }

  /** The index of the first separator at or after `i`, or `|s|`. */
  function NextSep(s: string, i: nat): (k: nat)
    requires i <= |s|
    ensures i <= k <= |s|
    ensures k < |s| ==> IsSep(s[k])
    ensures forall m :: i <= m < k ==> !IsSep(s[m])
    decreases |s| - i
  {
    if i == |s| || IsSep(s[i]) then i else NextSep(s, i + 1)
  }

  /** The end of the run of separators that begins at `i`. */
  function SepRunEnd(s: string, i: nat): (k: nat)
    requires i <= |s|
    ensures i <= k <= |s|
    ensures k < |s| ==> !IsSep(s[k])
    ensures forall m :: i <= m < k ==> IsSep(s[m])
    decreases |s| - i
  {
    if i == |s| || !IsSep(s[i]) then i else SepRunEnd(s, i + 1)
  }

  /**
   * `SENTENCE_SPLIT_RE.split(s)`: the pieces between maximal runs of
   * separators, with an empty piece first (last) when `s` starts (ends) with one.
   */
  function SplitOnSeps(s: string): (parts: seq<string>)
    ensures |parts| >= 1
    ensures forall k :: 0 <= k < |parts| ==> NoSep(parts[k])
    decreases |s|
  {
    var i := NextSep(s, 0);
    if i == |s| then [s]
    else
      var j := SepRunEnd(s, i);
      [s[..i]] + SplitOnSeps(s[j..])
  }

  /** The characters of `s` that satisfy `keep`, in order. */
  function Filter(s: string, keep: char -> bool): (r: string)
    ensures |r| <= |s|
    ensures forall i :: 0 <= i < |r| ==> keep(r[i])
    decreases |s|
  {
    if s == [] then [] else (if keep(s[0]) then [s[0]] else []) + Filter(s[1..], keep)
  }

  lemma {:induction false} FilterAppend(a: string, b: string, keep: char -> bool)
    ensures Filter(a + b, keep) == Filter(a, keep) + Filter(b, keep)
    decreases |a|
  {
    if a != [] {
      assert (a + b)[0] == a[0];
      assert (a + b)[1..] == a[1..] + b;
      FilterAppend(a[1..], b, keep);
      calc {
        Filter(a + b, keep);
        (if keep(a[0]) then [a[0]] else []) + Filter(a[1..] + b, keep);
        (if keep(a[0]) then [a[0]] else []) + (Filter(a[1..], keep) + Filter(b, keep));
        Filter(a, keep) + Filter(b, keep);
      }
    } else {
      assert a + b == b;
    }
  }

  lemma {:induction false} FilterAll(s: string, keep: char -> bool)
    requires forall i :: 0 <= i < |s| ==> keep(s[i])
    ensures Filter(s, keep) == s
    decreases |s|
  {
    if s != [] {
      FilterAll(s[1..], keep);
    }
  }

  lemma {:induction false} FilterNone(s: string, keep: char -> bool)
    requires forall i :: 0 <= i < |s| ==> !keep(s[i])
    ensures Filter(s, keep) == []
    decreases |s|
  {
    if s != [] {
      FilterNone(s[1..], keep);
    }
  }

  function Concat(parts: seq<string>): string
    decreases |parts|
  {
    if parts == [] then [] else parts[0] + Concat(parts[1..])
  }

  /** Splitting loses exactly the separator characters: the pieces put together are the text without them. */
  lemma {:induction false} SplitOnSepsKeepsText(s: string)
    ensures Concat(SplitOnSeps(s)) == Filter(s, NotSep)
    decreases |s|
  {
    var i := NextSep(s, 0);
    if i == |s| {
      FilterAll(s, NotSep);
      assert Concat([s]) == s + Concat([]);
    } else {
      var j := SepRunEnd(s, i);
      var head, seps, tail := s[..i], s[i..j], s[j..];
      assert s == head + (seps + tail);
      assert forall m :: 0 <= m < |head| ==> NotSep(head[m]);
      assert forall m :: 0 <= m < |seps| ==> !NotSep(seps[m]);
      FilterPiece(head, seps, tail);
      SplitOnSepsKeepsText(tail);
      var parts := [head] + SplitOnSeps(tail);
      assert SplitOnSeps(s) == parts;
      assert parts[1..] == SplitOnSeps(tail);
      assert Concat(parts) == head + Concat(SplitOnSeps(tail));
    }
  }

  /** A piece free of separators followed by a run of separators: the filter keeps the piece and drops the run. */
  lemma FilterPiece(head: string, seps: string, tail: string)
    requires forall m :: 0 <= m < |head| ==> NotSep(head[m])
    requires forall m :: 0 <= m < |seps| ==> !NotSep(seps[m])
    ensures Filter(head + (seps + tail), NotSep) == head + Filter(tail, NotSep)
  {
    FilterAll(head, NotSep);
    FilterNone(seps, NotSep);
    FilterAppend(seps, tail, NotSep);
    FilterAppend(head, seps + tail, NotSep);
    assert [] + Filter(tail, NotSep) == Filter(tail, NotSep);
  }

  /** `outer[0] + inner[0] + outer[1] + … + inner[k - 1] + outer[k]`. */
  function Interleave(outer: seq<string>, inner: seq<string>): string
    requires |outer| == |inner| + 1
    decreases |inner|
  {
    if inner == [] then outer[0] else outer[0] + inner[0] + Interleave(outer[1..], inner[1..])
  }

  /** Text put in front of the first outer piece ends up in front of the whole. */
  lemma {:induction false} InterleavePrepend(c: string, outer: seq<string>, inner: seq<string>)
    requires |outer| == |inner| + 1
    ensures Interleave([c + outer[0]] + outer[1..], inner) == c + Interleave(outer, inner)
  {
    var outer' := [c + outer[0]] + outer[1..];
    assert outer'[0] == c + outer[0];
    assert outer'[1..] == outer[1..];
  }

  ghost predicate IsSepRun(r: string)
  {
    r != [] && forall i :: 0 <= i < |r| ==> IsSep(r[i])
  }

  /**
   * `s` is `parts[0]`, a run of separators, `parts[1]`, …, a run of
   * separators, `parts[k]`, where no part holds a separator and no part but
   * the first and the last is empty: each run is a maximal one, so `s`
   * determines the parts.
   */
  ghost predicate SepLayout(s: string, parts: seq<string>, runs: seq<string>)
  {
    |parts| == |runs| + 1 &&
    (forall k :: 0 <= k < |parts| ==> NoSep(parts[k])) &&
    (forall k :: 0 <= k < |runs| ==> IsSepRun(runs[k])) &&
    (forall k :: 0 < k < |parts| - 1 ==> parts[k] != []) &&
    Interleave(parts, runs) == s
  }

  lemma InterleaveCons(o: string, i: string, outer: seq<string>, inner: seq<string>)
    requires |outer| == |inner| + 1
    ensures Interleave([o] + outer, [i] + inner) == o + i + Interleave(outer, inner)
  {
    assert ([o] + outer)[1..] == outer;
    assert ([i] + inner)[1..] == inner;
  }

  /** A text that does not start with a separator has a non-empty first part when it has a separator at all. */
  lemma SplitFirstPart(t: string)
    requires t == [] || !IsSep(t[0])
    ensures |SplitOnSeps(t)| >= 2 ==> SplitOnSeps(t)[0] != []
  {
    var n := NextSep(t, 0);
    if n < |t| {
      assert SplitOnSeps(t)[0] == t[..n];
    }
  }

  /** A part and a separator run in front of a layout give a layout, provided the old first part is non-empty when it is not the last. */
  lemma SepLayoutCons(head: string, seps: string, tail: string, rest: seq<string>, runs: seq<string>)
    requires SepLayout(tail, rest, runs) && NoSep(head) && IsSepRun(seps)
    requires |rest| >= 2 ==> rest[0] != []
    ensures SepLayout(head + seps + tail, [head] + rest, [seps] + runs)
  {
    var parts := [head] + rest;
    InterleaveCons(head, seps, rest, runs);
    forall k | 0 < k < |parts|
      ensures parts[k] == rest[k - 1]
    {
    }
    forall k | 0 <= k < |[seps] + runs|
      ensures IsSepRun(([seps] + runs)[k])
    {
      if k > 0 {
        assert ([seps] + runs)[k] == runs[k - 1];
      }
    }
  }

  /** The split cuts the text at every maximal run of separators and nowhere else. */
  lemma {:induction false} SplitOnSepsCutsAtRuns(s: string)
    ensures exists runs :: SepLayout(s, SplitOnSeps(s), runs)
    decreases |s|
  {
    var parts := SplitOnSeps(s);
    var i := NextSep(s, 0);
    if i == |s| {
      assert parts == [s] && NoSep(s);
      assert SepLayout(s, parts, []);
    } else {
      var j := SepRunEnd(s, i);
      var head, seps, tail := s[..i], s[i..j], s[j..];
      SplitPieces(s, i, j);
      assert parts == [head] + SplitOnSeps(tail);
      SplitOnSepsCutsAtRuns(tail);
      var runs' :| SepLayout(tail, SplitOnSeps(tail), runs');
      SplitFirstPart(tail);
      SepLayoutCons(head, seps, tail, SplitOnSeps(tail), runs');
    }
  }

  /** A text cut before and after a maximal run of separators `s[i..j]` that has none before it. */
  lemma SplitPieces(s: string, i: nat, j: nat)
    requires i < j <= |s|
    requires forall m :: 0 <= m < i ==> !IsSep(s[m])
    requires forall m :: i <= m < j ==> IsSep(s[m])
    requires j < |s| ==> !IsSep(s[j])
    ensures NoSep(s[..i]) && IsSepRun(s[i..j]) && s[..i] + s[i..j] + s[j..] == s
    ensures s[j..] == [] || !IsSep(s[j..][0])
  {
    forall m | 0 <= m < i
      ensures !IsSep(s[..i][m])
    {
      assert s[..i][m] == s[m];
    }
    forall m | 0 <= m < j - i
      ensures IsSep(s[i..j][m])
    {
      assert s[i..j][m] == s[i + m];
    }
    assert s[..i] + s[i..j] == s[..j];
    assert s[..j] + s[j..] == s;
    if j < |s| {
      assert s[j..][0] == s[j];
    }
  }

  /** In a separator-free piece followed by a separator run, the first separator is where the run starts. */
  lemma FirstSepAt(x: string, y: string, z: string)
    requires NoSep(x) && IsSepRun(y)
    ensures NextSep(x + y + z, 0) == |x|
  {
    var s := x + y + z;
    assert s[|x|] == y[0];
    forall m | 0 <= m < |x|
      ensures !IsSep(s[m])
    {
      assert s[m] == x[m];
    }
  }

  /** A separator run followed by a non-separator, or by nothing, ends where the run ends. */
  lemma SepRunEndAt(x: string, y: string, z: string)
    requires IsSepRun(y) && (z == [] || !IsSep(z[0]))
    ensures SepRunEnd(x + y + z, |x|) == |x| + |y|
  {
    var s := x + y + z;
    forall m | |x| <= m < |x| + |y|
      ensures IsSep(s[m])
    {
      assert s[m] == y[m - |x|];
    }
    if z != [] {
      assert s[|x| + |y|] == z[0];
    }
  }

  /** The first part and run of a layout are where `NextSep` and `SepRunEnd` find them, and the rest is a layout of what follows. */
  lemma SepLayoutHead(s: string, parts: seq<string>, runs: seq<string>)
    requires SepLayout(s, parts, runs) && runs != []
    ensures NextSep(s, 0) == |parts[0]| < |s|
    ensures SepRunEnd(s, |parts[0]|) == |parts[0]| + |runs[0]|
    ensures SepLayout(s[|parts[0]| + |runs[0]|..], parts[1..], runs[1..])
  {
    var x, y := parts[0], runs[0];
    var z := Interleave(parts[1..], runs[1..]);
    assert s == x + y + z;
    assert NoSep(x) && IsSepRun(y) && NoSep(parts[1]);
    if runs[1..] != [] {
      assert parts[1] != [];
      assert z == parts[1] + runs[1] + Interleave(parts[2..], runs[2..]);
      assert z[0] == parts[1][0];
    } else {
      assert z == parts[1];
    }
    FirstSepAt(x, y, z);
    SepRunEndAt(x, y, z);
    assert s[|x| + |y|..] == z;
    forall k | 0 <= k < |parts| - 1
      ensures parts[1..][k] == parts[k + 1]
    {
    }
    forall k | 0 <= k < |runs| - 1
      ensures runs[1..][k] == runs[k + 1]
    {
    }
  }

  /** Conversely, a layout of `s` is its split: the text determines the parts. */
  lemma {:induction false} SepLayoutIsSplit(s: string, parts: seq<string>, runs: seq<string>)
    requires SepLayout(s, parts, runs)
    ensures parts == SplitOnSeps(s)
    decreases |runs|
  {
    if runs == [] {
      SepLayoutNoRuns(s, parts);
    } else {
      SepLayoutHead(s, parts, runs);
      var i, j := |parts[0]|, |parts[0]| + |runs[0]|;
      SepLayoutIsSplit(s[j..], parts[1..], runs[1..]);
      SplitOnSepsUnfold(s, i, j);
      assert s[..i] == Interleave(parts, runs)[..i] == parts[0];
      assert parts == [parts[0]] + parts[1..];
    }
  }

  lemma SepLayoutNoRuns(s: string, parts: seq<string>)
    requires SepLayout(s, parts, [])
    ensures parts == SplitOnSeps(s)
  {
    assert parts == [s] && NoSep(s);
    var i := NextSep(s, 0);
  }

  lemma SplitOnSepsUnfold(s: string, i: nat, j: nat)
    requires i < |s| && NextSep(s, 0) == i && j <= |s| && SepRunEnd(s, i) == j
    ensures SplitOnSeps(s) == [s[..i]] + SplitOnSeps(s[j..])
  {
  }

  /** A sentence as `_split_sentences` returns it: non-empty, stripped, and free of separators. */
  ghost predicate IsSentence(x: string)
  {
    x != [] && !IsSpace(x[0]) && !IsSpace(x[|x| - 1]) && NoSep(x)
  }

  /** A slice of a separator-free string is separator-free. */
  lemma SliceNoSep(p: string, a: nat, b: nat)
    requires NoSep(p) && a <= b <= |p|
    ensures NoSep(p[a..b])
  {
    forall i | 0 <= i < b - a ensures !IsSep(p[a..b][i]) {
      assert p[a..b][i] == p[a + i];
    }
  }

  /** Stripping a piece without separators gives a sentence unless it is blank. */
  lemma StripIsSentence(p: string)
    requires NoSep(p) && Strip(p) != []
    ensures IsSentence(Strip(p))
  {
    var r := Strip(p);
    var k := LeadingSpaces(p);
    SliceNoSep(p, k, k + |r|);
  }

  /** `[part.strip() for part in parts]` with the empty results dropped. */
  function StrippedNonEmpty(parts: seq<string>): (r: seq<string>)
    ensures |r| <= |parts|
    decreases |parts|
  {
    if parts == [] then []
    else
      var p := Strip(parts[0]);
      (if p != [] then [p] else []) + StrippedNonEmpty(parts[1..])
  }

  lemma {:induction false} StrippedNonEmptyAreSentences(parts: seq<string>)
    requires forall k :: 0 <= k < |parts| ==> NoSep(parts[k])
    ensures forall k :: 0 <= k < |StrippedNonEmpty(parts)| ==> IsSentence(StrippedNonEmpty(parts)[k])
    decreases |parts|
  {
    if parts != [] {
      var p := Strip(parts[0]);
      var rest := StrippedNonEmpty(parts[1..]);
      assert forall k :: 0 <= k < |parts[1..]| ==> NoSep(parts[1..][k]) by {
        forall k | 0 <= k < |parts[1..]| ensures NoSep(parts[1..][k]) {
          assert parts[1..][k] == parts[k + 1];
        }
      }
      StrippedNonEmptyAreSentences(parts[1..]);
      if p != [] {
        assert NoSep(parts[0]);
        StripIsSentence(parts[0]);
        var r := [p] + rest;
        assert StrippedNonEmpty(parts) == r;
        forall k | 0 <= k < |r| ensures IsSentence(r[k]) {
          if k > 0 {
            assert r[k] == rest[k - 1];
          }
        }
      } else {
        assert StrippedNonEmpty(parts) == rest;
      }
    }
  }

  /** `_split_sentences(text)`. */
  function SplitSentences(text: string): seq<string>
  {
    StrippedNonEmpty(SplitOnSeps(text))
  }

  predicate Visible(c: char) { !IsSpace(c) && !IsSep(c) }

  /** Dropping leading whitespace loses no visible character. */
  lemma {:induction false} StripLeftKeepsVisible(s: string)
    ensures Filter(StripLeft(s), Visible) == Filter(s, Visible)
    decreases |s|
  {
    if s != [] && IsSpace(s[0]) {
      StripLeftKeepsVisible(s[1..]);
    }
  }

  /** Dropping trailing whitespace loses no visible character. */
  lemma {:induction false} StripRightKeepsVisible(s: string)
    ensures Filter(StripRight(s), Visible) == Filter(s, Visible)
    decreases |s|
  {
    if s != [] && IsSpace(s[|s| - 1]) {
      var init := s[..|s| - 1];
      StripRightKeepsVisible(init);
      assert s == init + [s[|s| - 1]];
      FilterAppend(init, [s[|s| - 1]], Visible);
      assert Filter([s[|s| - 1]], Visible) == [];
      assert Filter(init, Visible) + [] == Filter(init, Visible);
    }
  }

  /** Stripping loses only whitespace. */
  lemma StripKeepsVisible(s: string)
    ensures Filter(Strip(s), Visible) == Filter(s, Visible)
  {
    StripLeftKeepsVisible(s);
    StripRightKeepsVisible(StripLeft(s));
  }

  lemma {:induction false} StrippedNonEmptyKeepsVisible(parts: seq<string>)
    ensures Filter(Concat(StrippedNonEmpty(parts)), Visible) == Filter(Concat(parts), Visible)
    decreases |parts|
  {
    if parts != [] {
      var p := Strip(parts[0]);
      var rest := StrippedNonEmpty(parts[1..]);
      StrippedNonEmptyKeepsVisible(parts[1..]);
      StripKeepsVisible(parts[0]);
      assert Concat(parts) == parts[0] + Concat(parts[1..]);
      FilterAppend(parts[0], Concat(parts[1..]), Visible);
      if p != [] {
        assert StrippedNonEmpty(parts) == [p] + rest;
        assert ([p] + rest)[1..] == rest;
        assert Concat([p] + rest) == p + Concat(rest);
        FilterAppend(p, Concat(rest), Visible);
      } else {
        assert StrippedNonEmpty(parts) == rest;
        assert Filter(p, Visible) == [];
      }
    }
  }

  lemma {:induction false} FilterVisibleOfNotSep(s: string)
    ensures Filter(Filter(s, NotSep), Visible) == Filter(s, Visible)
    decreases |s|
  {
    if s != [] {
      FilterVisibleOfNotSep(s[1..]);
      var rest := Filter(s[1..], NotSep);
      if NotSep(s[0]) {
        assert Filter(s, NotSep) == [s[0]] + rest;
        assert ([s[0]] + rest)[0] == s[0];
        assert ([s[0]] + rest)[1..] == rest;
      } else {
        assert Filter(s, NotSep) == [] + rest;
        assert [] + rest == rest;
        assert !Visible(s[0]);
      }
    }
  }

  /**
   * Every sentence is non-empty, stripped and holds no separator,
   * together the sentences hold exactly the visible (non-space,
   * non-separator) characters of the text, in order, and they are the
   * non-blank pieces between the maximal separator runs, stripped, in order.
   */
  lemma SplitSentencesSpec(text: string)
    ensures forall k :: 0 <= k < |SplitSentences(text)| ==> IsSentence(SplitSentences(text)[k])
    ensures Filter(Concat(SplitSentences(text)), Visible) == Filter(text, Visible)
    ensures exists parts, runs :: SepLayout(text, parts, runs) && SplitSentences(text) == StrippedNonEmpty(parts)
  {
    SplitOnSepsCutsAtRuns(text);
    var runs :| SepLayout(text, SplitOnSeps(text), runs);
    StrippedNonEmptyAreSentences(SplitOnSeps(text));
    StrippedNonEmptyKeepsVisible(SplitOnSeps(text));
    SplitOnSepsKeepsText(text);
    FilterVisibleOfNotSep(text);
  }

  // ---------------------------------------------------------------------------
  // Tokenization
  // ---------------------------------------------------------------------------

  /** A match of `TOKEN_RE`: a non-empty run of word characters. */
  ghost predicate IsWordRun(t: string)
  {
    t != [] && forall i :: 0 <= i < |t| ==> IsWordChar(t[i])
  }

  /** The end of the run of word characters that begins at `i`. */
  function WordEnd(s: string, i: nat): (k: nat)
    requires i <= |s|
    ensures i <= k <= |s|
    ensures k < |s| ==> !IsWordChar(s[k])
    ensures forall m :: i <= m < k ==> IsWordChar(s[m])
    decreases |s| - i
  {
    if i == |s| || !IsWordChar(s[i]) then i else WordEnd(s, i + 1)
  }

  /** `[m.group(0) for m in TOKEN_RE.finditer(s)]`: the maximal runs of word characters, left to right. */
  function WordRuns(s: string): (r: seq<string>)
    ensures forall k :: 0 <= k < |r| ==> IsWordRun(r[k])
    decreases |s|
  {
    if s == [] then []
    else if !IsWordChar(s[0]) then WordRuns(s[1..])
    else
      var j := WordEnd(s, 0);
      [s[..j]] + WordRuns(s[j..])
  }

  /** The matches of a lower-cased string are lower case. */
  lemma {:induction false} WordRunsLowered(s: string)
    requires IsLowered(s)
    ensures forall k :: 0 <= k < |WordRuns(s)| ==> IsLowered(WordRuns(s)[k])
    decreases |s|
  {
    if s != [] {
      if !IsWordChar(s[0]) {
        WordRunsLowered(s[1..]);
      } else {
        var j := WordEnd(s, 0);
        WordRunsLowered(s[j..]);
        var r := WordRuns(s);
        assert r[1..] == WordRuns(s[j..]);
      }
    }
  }

  /** No word character is skipped: the matches put together are the text's word characters. */
  lemma {:induction false} WordRunsKeepWordChars(s: string)
    ensures Concat(WordRuns(s)) == Filter(s, IsWordChar)
    decreases |s|
  {
    if s != [] {
      if !IsWordChar(s[0]) {
        WordRunsKeepWordChars(s[1..]);
      } else {
        var j := WordEnd(s, 0);
        assert s == s[..j] + s[j..];
        FilterAppend(s[..j], s[j..], IsWordChar);
        FilterAll(s[..j], IsWordChar);
        WordRunsKeepWordChars(s[j..]);
        var r := WordRuns(s);
        assert r[1..] == WordRuns(s[j..]);
      }
    }
  }

  ghost predicate NoWordChar(g: string)
  {
    forall i :: 0 <= i < |g| ==> !IsWordChar(g[i])
  }

  /**
   * `s` is `gaps[0]`, `runs[0]`, `gaps[1]`, …, `runs[k - 1]`, `gaps[k]`, where
   * no gap holds a word character and every gap between two matches is
   * non-empty; the first gap is non-empty when `s` starts with a non-word
   * character.
   */
  ghost predicate WordLayout(s: string, gaps: seq<string>, runs: seq<string>)
  {
    |gaps| == |runs| + 1 &&
    (forall k :: 0 <= k < |gaps| ==> NoWordChar(gaps[k])) &&
    (forall k :: 0 < k < |gaps| - 1 ==> gaps[k] != []) &&
    (s != [] && !IsWordChar(s[0]) ==> gaps[0] != []) &&
    Interleave(gaps, runs) == s
  }

  /** A non-word character in front of a layout joins its first gap. */
  lemma WordLayoutGap(c: char, t: string, gaps: seq<string>, runs: seq<string>)
    requires !IsWordChar(c) && WordLayout(t, gaps, runs)
    ensures WordLayout([c] + t, [[c] + gaps[0]] + gaps[1..], runs)
  {
    var gaps' := [[c] + gaps[0]] + gaps[1..];
    InterleavePrepend([c], gaps, runs);
    forall k | 0 < k < |gaps'|
      ensures gaps'[k] == gaps[k]
    {
    }
  }

  /** A match in front of a layout that starts with a non-word character, or has no match, comes after an empty gap. */
  lemma WordLayoutMatch(m: string, t: string, gaps: seq<string>, runs: seq<string>)
    requires runs == [] || (t != [] && !IsWordChar(t[0]))
    requires m != [] && IsWordChar(m[0]) && WordLayout(t, gaps, runs)
    ensures WordLayout(m + t, [[]] + gaps, [m] + runs)
  {
    var gaps' := [[]] + gaps;
    InterleaveCons([], m, gaps, runs);
    assert [] + m + t == m + t;
    forall k | 0 < k < |gaps'|
      ensures gaps'[k] == gaps[k - 1]
    {
    }
  }

  /** The matches are the maximal runs: the text between two consecutive matches holds at least one character, and no word character. */
  lemma {:induction false} WordRunsAreMaximal(s: string)
    ensures exists gaps :: WordLayout(s, gaps, WordRuns(s))
    decreases |s|
  {
    if s == [] {
      assert WordLayout(s, [[]], WordRuns(s));
    } else if !IsWordChar(s[0]) {
      var t := s[1..];
      WordRunsAreMaximal(t);
      var gaps :| WordLayout(t, gaps, WordRuns(t));
      WordLayoutGap(s[0], t, gaps, WordRuns(t));
      assert [s[0]] + t == s;
      assert WordRuns(s) == WordRuns(t);
    } else {
      var j := WordEnd(s, 0);
      var t := s[j..];
      WordRunsAreMaximal(t);
      var gaps :| WordLayout(t, gaps, WordRuns(t));
      WordLayoutMatch(s[..j], t, gaps, WordRuns(t));
      assert s[..j] + t == s;
      assert WordRuns(s) == [s[..j]] + WordRuns(t);
    }
  }


  /** A layout of a text that starts with a non-word character loses that character from its first gap. */
  lemma WordLayoutDropGap(s: string, gaps: seq<string>, runs: seq<string>)
    requires WordLayout(s, gaps, runs) && s != [] && !IsWordChar(s[0])
    requires forall k :: 0 <= k < |runs| ==> IsWordRun(runs[k])
    ensures WordLayout(s[1..], [gaps[0][1..]] + gaps[1..], runs)
  {
    var g := gaps[0];
    var gaps' := [g[1..]] + gaps[1..];
    assert g != [] && g == [g[0]] + g[1..];
    assert gaps == [[g[0]] + gaps'[0]] + gaps'[1..];
    InterleavePrepend([g[0]], gaps', runs);
    assert s == [g[0]] + Interleave(gaps', runs);
    assert s[1..] == Interleave(gaps', runs);
    forall k | 0 <= k < |gaps'|
      ensures NoWordChar(gaps'[k])
    {
      if k > 0 {
        assert gaps'[k] == gaps[k];
      }
    }
    forall k | 0 < k < |gaps'| - 1
      ensures gaps'[k] != []
    {
      assert gaps'[k] == gaps[k];
    }
  }

  /** A layout of a text that starts with a word character starts with a match that `WordEnd` finds, after an empty gap. */
  lemma WordLayoutHead(s: string, gaps: seq<string>, runs: seq<string>)
    requires WordLayout(s, gaps, runs) && s != [] && IsWordChar(s[0])
    requires forall k :: 0 <= k < |runs| ==> IsWordRun(runs[k])
    ensures runs != [] && gaps[0] == []
    ensures WordEnd(s, 0) == |runs[0]|
    ensures WordLayout(s[|runs[0]|..], gaps[1..], runs[1..])
  {
    var m := runs[0];
    var z := Interleave(gaps[1..], runs[1..]);
    assert s == [] + m + z && IsWordRun(m);
    if runs[1..] != [] {
      assert gaps[1] != [];
      assert z == gaps[1] + runs[1] + Interleave(gaps[2..], runs[2..]);
      assert NoWordChar(gaps[1]) && z[0] == gaps[1][0];
    } else {
      assert z == gaps[1] && NoWordChar(z);
      assert z != [] ==> !IsWordChar(z[0]);
    }
    forall i | 0 <= i < |m|
      ensures s[i] == m[i] && IsWordChar(s[i])
    {
    }
    if |m| < |s| {
      assert s[|m|] == z[0];
    }
    var k := WordEnd(s, 0);
    assert s[|m|..] == z;
    forall k | 0 <= k < |gaps| - 1
      ensures gaps[1..][k] == gaps[k + 1]
    {
    }
  }

  /** Conversely, word runs laid out between gaps as above are the matches of the text. */
  lemma {:induction false} WordLayoutIsWordRuns(s: string, gaps: seq<string>, runs: seq<string>)
    requires WordLayout(s, gaps, runs)
    requires forall k :: 0 <= k < |runs| ==> IsWordRun(runs[k])
    ensures runs == WordRuns(s)
    decreases |s|
  {
    if s == [] {
    } else if !IsWordChar(s[0]) {
      WordLayoutDropGap(s, gaps, runs);
      WordLayoutIsWordRuns(s[1..], [gaps[0][1..]] + gaps[1..], runs);
    } else {
      WordLayoutHead(s, gaps, runs);
      var j := |runs[0]|;
      forall k | 0 <= k < |runs| - 1
        ensures IsWordRun(runs[1..][k])
      {
        assert runs[1..][k] == runs[k + 1];
      }
      WordLayoutIsWordRuns(s[j..], gaps[1..], runs[1..]);
      assert s[..j] == runs[0];
      assert runs == [runs[0]] + runs[1..];
    }
  }

  /** Re-tokenizing tokens joined by single spaces gives the same tokens: the boundaries round-trip. */
  lemma {:induction false} WordRunsOfJoin(ts: seq<string>)
    requires forall k :: 0 <= k < |ts| ==> IsWordRun(ts[k])
    ensures WordRuns(Join(ts, " ")) == ts
    decreases |ts|
  {
    if |ts| == 1 {
      var t := ts[0];
      assert Join(ts, " ") == t;
      assert WordEnd(t, 0) == |t|;
      assert t[..|t|] == t && t[|t|..] == [];
    } else if |ts| > 1 {
      var t := ts[0];
      var rest := Join(ts[1..], " ");
      var s := t + " " + rest;
      assert Join(ts, " ") == s;
      var j := WordEnd(s, 0);
      assert s[|t|] == ' ';
      assert j == |t|;
      assert s[..j] == t;
      assert s[j..] == " " + rest;
      assert (" " + rest)[1..] == rest;
      WordRunsOfJoin(ts[1..]);
      assert [t] + ts[1..] == ts;
    }
  }

  /** `xs` without the stopwords, in order (the filter in `_tokenize`). */
  function FilterOut(xs: seq<string>, stopwords: set<string>): (r: seq<string>)
    ensures |r| <= |xs|
    ensures forall k :: 0 <= k < |r| ==> r[k] !in stopwords
    decreases |xs|
  {
    if xs == [] then []
    else
      var last := xs[|xs| - 1];
      FilterOut(xs[..|xs| - 1], stopwords) + (if last in stopwords then [] else [last])
  }

  /** A token survives the filter exactly when it occurs and is not a stopword. */
  lemma {:induction false} FilterOutMembers(xs: seq<string>, stopwords: set<string>)
    ensures forall t :: t in FilterOut(xs, stopwords) <==> t in xs && t !in stopwords
    decreases |xs|
  {
    if xs != [] {
      var init := xs[..|xs| - 1];
      var last := xs[|xs| - 1];
      FilterOutMembers(init, stopwords);
      assert xs == init + [last];
    }
  }

  /** The stopword filter keeps the order of the matches. */
  lemma {:induction false} FilterOutIsSubsequence(xs: seq<string>, stopwords: set<string>)
    ensures Seqs.IsSubsequence(FilterOut(xs, stopwords), xs)
    decreases |xs|
  {
    if xs != [] {
      var init := xs[..|xs| - 1];
      var last := xs[|xs| - 1];
      var front := FilterOut(init, stopwords);
      FilterOutIsSubsequence(init, stopwords);
      if last in stopwords {
        assert FilterOut(xs, stopwords) == front + [];
        assert front + [] == front;
        Seqs.SubsequenceExtend(front, init, last);
        assert init + [last] == xs;
      } else {
        var r := front + [last];
        assert FilterOut(xs, stopwords) == r;
        assert r[..|r| - 1] == front;
      }
    }
  }

  /** The tokens `_tokenize` returns for a sentence. */
  function TokensOf(sentence: string, stopwords: set<string>): seq<string>
  {
    FilterOut(WordRuns(LowerStr(sentence)), stopwords)
  }

  /**
   * `_tokenize`: the matches over the lower-cased sentence, left to right,
   * with the stopwords left out. Every token is a lower-case word run, so a
   * word whose lower-case form is a stopword never survives, whatever its case.
   */
  method Tokenize(sentence: string, stopwords: set<string>) returns (tokens: seq<string>)
    ensures tokens == TokensOf(sentence, stopwords)
    ensures Seqs.IsSubsequence(tokens, WordRuns(LowerStr(sentence)))
    ensures forall k :: 0 <= k < |tokens| ==>
              IsWordRun(tokens[k]) && IsLowered(tokens[k]) && tokens[k] !in stopwords
  {
    var matches := WordRuns(LowerStr(sentence));
    tokens := [];
    var i := 0;
    while i < |matches|
      invariant 0 <= i <= |matches|
      invariant tokens == FilterOut(matches[..i], stopwords)
    {
      var token := matches[i];
      assert matches[..i + 1] == matches[..i] + [token];
      assert matches[..i + 1][..i] == matches[..i];
      if token !in stopwords {
        tokens := tokens + [token];
      }
      i := i + 1;
    }
    assert matches[..i] == matches;
    FilterOutIsSubsequence(matches, stopwords);
    FilterOutMembers(matches, stopwords);
    LowerStrIsLowered(sentence);
    WordRunsLowered(LowerStr(sentence));
    assert forall k :: 0 <= k < |tokens| ==> tokens[k] in matches;
  }
}
