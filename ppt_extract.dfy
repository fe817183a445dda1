/**
 * Slide-text post-processing for PowerPoint extraction: the per-slide
 * deduplication of text lines, slide numbering, and the plain-text rendering
 * of a result.
 *
 * Reading the file and pulling text out of shapes (text frames, tables,
 * OCR of pictures) is done by libraries; here a presentation is given as
 * the lines each shape yields, slide by slide.
 */
module PptExtract {
  import opened Wrappers
  import opened Strings
  import Seqs

  datatype SlideText = SlideText(slideNumber: int, lines: seq<string>)

  datatype PptExtractError = PptExtractError(message: string)

  /** The header line of a slide: `f"Slide {slide_number}"`. */
  function Header(slideNumber: int): (h: string)
    ensures |h| > 6 && h[..6] == "Slide "
  {
    "Slide " + IntToString(slideNumber)
  }

  /** A header never contains a line break. */
  lemma HeaderHasNoNewline(slideNumber: int)
    ensures '\n' !in Header(slideNumber)
  {
    var d := IntToString(slideNumber);
    if slideNumber < 0 {
      assert d == "-" + NatToString(-slideNumber);
    }
    assert Header(slideNumber) == "Slide " + d;
  }

  /** The `sections` list `to_text` builds: for each slide, its header and then its lines. */
  function Sections(slides: seq<SlideText>): seq<string>
    decreases |slides|
  {
    if slides == [] then []
    else
      var last := slides[|slides| - 1];
      Sections(slides[..|slides| - 1]) + [Header(last.slideNumber)] + last.lines
  }

  /** The number of lines over all slides. */
  function LineCount(slides: seq<SlideText>): nat
    decreases |slides|
  {
    if slides == [] then 0 else LineCount(slides[..|slides| - 1]) + |slides[|slides| - 1].lines|
  }

  /** There is one section per slide header and one per line. */
  lemma {:induction false} SectionsCount(slides: seq<SlideText>)
    ensures |Sections(slides)| == |slides| + LineCount(slides)
    decreases |slides|
  {
    if slides != [] {
      SectionsCount(slides[..|slides| - 1]);
    }
  }

  /** A slide's sections: its header, then its lines. */
  lemma SectionsOfOne(slide: SlideText)
    ensures Sections([slide]) == [Header(slide.slideNumber)] + slide.lines
  {
    assert [slide][..0] == [];
  }

  /** No string of `xs` contains a line break. */
  ghost predicate NoNewlines(xs: seq<string>)
  {
    forall k :: 0 <= k < |xs| ==> '\n' !in xs[k]
  }

  /** No line of any slide contains a line break. */
  ghost predicate LinesHaveNoNewline(slides: seq<SlideText>)
  {
    forall i :: 0 <= i < |slides| ==> NoNewlines(slides[i].lines)
  }

  /** No section contains a line break when no line does. */
  lemma {:induction false} SectionsHaveNoNewline(slides: seq<SlideText>)
    requires LinesHaveNoNewline(slides)
    ensures NoNewlines(Sections(slides))
    decreases |slides|
  {
    if slides != [] {
      var init := slides[..|slides| - 1];
      var last := slides[|slides| - 1];
      assert LinesHaveNoNewline(init) by {
        forall i | 0 <= i < |init| ensures NoNewlines(init[i].lines) {
          assert init[i] == slides[i];
        }
      }
      SectionsHaveNoNewline(init);
      HeaderHasNoNewline(last.slideNumber);
      assert NoNewlines(last.lines);
      NoNewlinesAppend(Sections(init) + [Header(last.slideNumber)], last.lines);
      NoNewlinesAppend(Sections(init), [Header(last.slideNumber)]);
    }
  }

  lemma NoNewlinesAppend(a: seq<string>, b: seq<string>)
    requires NoNewlines(a) && NoNewlines(b)
    ensures NoNewlines(a + b)
  {
    forall k | 0 <= k < |a + b| ensures '\n' !in (a + b)[k] {
      if k >= |a| {
        assert (a + b)[k] == b[k - |a|];
      }
    }
  }

  datatype PptExtractResult = PptExtractResult(slides: seq<SlideText>)
  {
    /** `to_text`: the slides' sections joined with newlines. */
    method ToText() returns (text: string)
      ensures text == Join(Sections(slides), "\n")
    {
      var sections: seq<string> := [];
      var i := 0;
      while i < |slides|
        invariant 0 <= i <= |slides|
        invariant sections == Sections(slides[..i])
      {
        var slide := slides[i];
        assert slides[..i + 1][..i] == slides[..i];
        sections := sections + [Header(slide.slideNumber)];
        sections := sections + slide.lines;
        i := i + 1;
      }
      assert slides[..i] == slides;
      text := Join(sections, "\n");
    }
  }

  /**
   * The rendered text splits back, at its line breaks, into the slide
   * headers and lines: the layout is unambiguous when no line contains a
   * line break and there is at least one slide.
   */
  lemma ToTextLayout(result: PptExtractResult)
    requires |result.slides| >= 1
    requires LinesHaveNoNewline(result.slides)
    ensures Split(Join(Sections(result.slides), "\n"), '\n') == Sections(result.slides)
    ensures |Split(Join(Sections(result.slides), "\n"), '\n')| == |result.slides| + LineCount(result.slides)
  {
    var s := Sections(result.slides);
    SectionsHaveNoNewline(result.slides);
    SectionsCount(result.slides);
    assert |s| >= 1;
    SplitJoin(s, '\n');
  }

  /**
   * `_dedupe_lines`: each line at its first occurrence, in order, tracking
   * the lines already seen in a set.
   */
  method DedupeLines(lines: seq<string>) returns (output: seq<string>)
    ensures output == Seqs.Dedupe(lines)
    ensures Seqs.NoDuplicates(output)
    ensures forall x :: x in output <==> x in lines
    ensures Seqs.IsSubsequence(output, lines)
  {
    var seen: set<string> := {};
    output := [];
    var i := 0;
    while i < |lines|
      invariant 0 <= i <= |lines|
      invariant output == Seqs.Dedupe(lines[..i])
      invariant seen == set k | 0 <= k < i :: lines[k]
    {
      var line := lines[i];
      assert lines[..i + 1][..i] == lines[..i];
      assert line in seen <==> line in lines[..i];
      if line !in seen {
        seen := seen + {line};
        output := output + [line];
      }
      i := i + 1;
    }
    assert lines[..i] == lines;
    Seqs.DedupeIsSubsequence(lines);
  }

  /** The lines of all a slide's shapes, in shape order. */
  function ShapeLines(shapes: seq<seq<string>>): seq<string>
    decreases |shapes|
  {
    if shapes == [] then [] else ShapeLines(shapes[..|shapes| - 1]) + shapes[|shapes| - 1]
  }

  /** The slides of a presentation, numbered from `first` on. */
  function SlidesOf(presentation: seq<seq<seq<string>>>, first: int): (r: seq<SlideText>)
    ensures |r| == |presentation|
    ensures forall i :: 0 <= i < |r| ==>
              r[i].slideNumber == first + i && r[i].lines == Seqs.Dedupe(ShapeLines(presentation[i]))
  {
    seq(|presentation|, i requires 0 <= i < |presentation| =>
      SlideText(first + i, Seqs.Dedupe(ShapeLines(presentation[i]))))
  }

  /**
   * `extract_ppt_text` once the file has been opened or not: `fileExists`
   * is what `input_path.exists()` answers, and `presentation` is None when
   * the pptx reader raised, or else, per slide, the lines each shape yields.
   */
  function ExtractOf(path: string, fileExists: bool, presentation: Option<seq<seq<seq<string>>>>): Result<PptExtractResult, PptExtractError>
  {
    if !fileExists then Failure(PptExtractError("Input file not found: " + path))
    else if presentation.None? then Failure(PptExtractError("Failed to read PPTX: " + path))
    else Success(PptExtractResult(SlidesOf(presentation.value, 1)))
  }

  /**
   * `extract_ppt_text`: a missing file and an unreadable file are the two
   * errors; otherwise one slide per slide of the presentation, numbered
   * consecutively from 1, each with its shapes' lines deduplicated.
   */
  method ExtractPptText(path: string, fileExists: bool, presentation: Option<seq<seq<seq<string>>>>)
    returns (r: Result<PptExtractResult, PptExtractError>)
    ensures r == ExtractOf(path, fileExists, presentation)
    ensures r.Failure? <==> !fileExists || presentation.None?
    ensures !fileExists ==> r == Failure(PptExtractError("Input file not found: " + path))
    ensures r.Success? ==>
              |r.value.slides| == |presentation.value| &&
              forall i :: 0 <= i < |r.value.slides| ==>
                r.value.slides[i].slideNumber == i + 1 &&
                Seqs.NoDuplicates(r.value.slides[i].lines) &&
                (forall x :: x in r.value.slides[i].lines <==> x in ShapeLines(presentation.value[i]))
  {
    if !fileExists {
      return Failure(PptExtractError("Input file not found: " + path));
    }
    if presentation.None? {
      return Failure(PptExtractError("Failed to read PPTX: " + path));
    }
    var deck := presentation.value;
    var slides: seq<SlideText> := [];
    var index := 0;
    while index < |deck|
      invariant 0 <= index <= |deck|
      invariant slides == SlidesOf(deck[..index], 1)
    {
      var shapes := deck[index];
      var lines: seq<string> := [];
      var s := 0;
      while s < |shapes|
        invariant 0 <= s <= |shapes|
        invariant lines == ShapeLines(shapes[..s])
      {
        assert shapes[..s + 1][..s] == shapes[..s];
        lines := lines + shapes[s];
        s := s + 1;
      }
      assert shapes[..s] == shapes;
      var unique := DedupeLines(lines);
      slides := slides + [SlideText(index + 1, unique)];
      index := index + 1;
    }
    assert deck[..index] == deck;
    r := Success(PptExtractResult(slides));
  }
}
