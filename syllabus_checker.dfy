/// `check_syllabus(file_path, query)`: the course header read off the file
/// name, the content analysis of the document text, and, when a query is
/// given, the sentence that answers it best. The outside world enters as
/// parameters: whether the path names a file, the text of each PDF page, the
/// fuzzy matcher, the relevance model (its probability, sigmoid included)
/// and the two-decimal formatting of a probability.
module SyllabusChecker {
  import opened Text
  import opened Filename
  import opened PageText
  import opened ContentCheck
  import opened Segmenter
  import opened BestMatch

  /** The exceptions `check_syllabus` lets escape. `UnboundParts` is the
      `UnboundLocalError` at the use of `parts` when the existence or the
      extension check failed; its argument is the line printed before. */
  datatype Fault = UnboundParts(printed: string) | CourseNumberIndexError | NoSentences

  datatype Outcome = Report(text: string) | Raised(fault: Fault)

  const MissingFileMessage: string := "Error: The file does not exist."
  const NotPdfMessage: string := "Error: Only PDF files are accepted."
  const WarningLine: string := "Warning: Unexpected filename format."
  const NoQueryTail: string := "\nNo query entered."

  /** An f-string of an optional field: `None` prints as "None". */
  function Show(field: Option<string>): string {
    if field.None? then "None" else field.value
  }

  /** The header block. */
  function HeaderLines(h: Header): (lines: seq<string>)
    ensures |lines| >= 3
  {
    (if h.warned then [WarningLine] else [])
    + ["Course: " + Show(h.course), "Instructor: " + Show(h.instructor),
       "Semester: " + Show(h.semester) + "\n"]
  }

  function ScoreLine(score: nat): string {
    "\nOverall score: " + NatToString(score) + "\n"
  }

  /** The content block: title, one line per required section, the score. */
  function ContentLines(cleanText: string, ratio: (string, string) -> real): (lines: seq<string>)
    ensures |lines| == |RequiredSections| + 2
  {
    ["--- Content Analysis Report ---"]
    + StatusLines(RequiredSections, cleanText, ratio)
    + [ScoreLine(PointsPerSection * CountAtLeast(RequiredSections, cleanText, ratio, FoundThreshold))]
  }

  /** `list(zip(sentences, probs))`. */
  function ScoreSentences(query: string, sentences: seq<string>,
                          relevance: (string, string) -> real): (scored: seq<Scored>)
    ensures |scored| == |sentences|
  {
    seq(|sentences|, i requires 0 <= i < |sentences| =>
        Scored(sentences[i], relevance(Lower(query), Lower(sentences[i]))))
  }

  function Verdict(found: bool): string {
    if found then "Found!" else "Missing!"
  }

  /** The query block, for the best match `best`. */
  function QueryLines(query: string, best: Scored, fmt: real -> string): seq<string> {
    var found := best.prob >= MatchThreshold;
    ["\n--- Syllabus Checker Report ---", "Query: " + query,
     "Result: " + Verdict(found) + " (score = " + fmt(best.prob) + ")"]
    + (if found then ["\nExample match:\n" + Trim(best.sentence)] else [])
  }

  /** What `check_syllabus` returns or raises. */
  function Analyze(path: string, query: string, isFile: bool, pages: seq<Option<string>>,
                   ratio: (string, string) -> real, relevance: (string, string) -> real,
                   fmt: real -> string): Outcome
  {
    if !isFile then Raised(UnboundParts(MissingFileMessage))
    else if !IsPdfPath(path) then Raised(UnboundParts(NotPdfMessage))
    else match ParseStem(Stem(path))
      case EmptyCourseNumber => Raised(CourseNumberIndexError)
      case Parsed(h) =>
        var allText := Concat(PageChunks(pages));
        var outputs := HeaderLines(h) + ContentLines(Lower(allText), ratio);
        if query == "" then Report(Join(outputs, "\n") + NoQueryTail)
        else
          var scored := ScoreSentences(query, Sentences(allText), relevance);
          if |scored| == 0 then Raised(NoSentences)
          else Report(Join(outputs + QueryLines(query, scored[FirstBest(scored)], fmt), "\n"))
  }

  /** The function itself: the report is built line by line in `outputs`,
      the pages are assembled, the sections scored and the scored sentences
      sorted in place. */
  method CheckSyllabus(path: string, query: string, isFile: bool, pages: seq<Option<string>>,
                       ratio: (string, string) -> real, relevance: (string, string) -> real,
                       fmt: real -> string)
    returns (r: Outcome)
    ensures r == Analyze(path, query, isFile, pages, ratio, relevance, fmt)
  {
    if !isFile {
      return Raised(UnboundParts(MissingFileMessage));
    } else if !IsPdfPath(path) {
      return Raised(UnboundParts(NotPdfMessage));
    }
    var parsed, outputs := ReadFileName(path);
    if parsed.EmptyCourseNumber? {
      return Raised(CourseNumberIndexError);
    }
    var allText := AssemblePages(pages);
    var content := ContentReport(Lower(allText), ratio);
    outputs := outputs + content;
    if query == "" {
      return Report(Join(outputs, "\n") + NoQueryTail);
    }
    var best := SelectBest(query, Sentences(allText), relevance);
    if best.None? {
      return Raised(NoSentences);
    }
    var found := best.value.prob >= MatchThreshold;
    var block := ["\n--- Syllabus Checker Report ---", "Query: " + query,
                  "Result: " + (if found then "Found!" else "Missing!")
                  + " (score = " + fmt(best.value.prob) + ")"];
    if found {
      block := block + ["\nExample match:\n" + Trim(best.value.sentence)];
    }
    assert block == QueryLines(query, best.value, fmt);
    outputs := outputs + block;
    r := Report(Join(outputs, "\n"));
  }

  /** The file-name part: the pattern chosen for the stem, and the header
      lines printed, after the warning line when no pattern fits. */
  method ReadFileName(path: string) returns (parsed: ParsedName, outputs: seq<string>)
    ensures parsed == ParseStem(Stem(path))
    ensures parsed.Parsed? ==> outputs == HeaderLines(parsed.header)
  {
    outputs := [];
    parsed := ParseStem(Stem(path));
    if parsed.EmptyCourseNumber? {
      return;
    }
    var h := parsed.header;
    if h.warned {
      outputs := outputs + [WarningLine];
    }
    outputs := outputs + ["Course: " + Show(h.course)];
    outputs := outputs + ["Instructor: " + Show(h.instructor)];
    outputs := outputs + ["Semester: " + Show(h.semester) + "\n"];
  }

  /** The content-analysis part: the title line, the section loop and the
      score line. */
  method ContentReport(cleanText: string, ratio: (string, string) -> real)
    returns (outputs: seq<string>)
    ensures outputs == ContentLines(cleanText, ratio)
  {
    outputs := ["--- Content Analysis Report ---"];
    var score, results, lines := ScoreSections(RequiredSections, cleanText, ratio);
    outputs := outputs + lines;
    outputs := outputs + [ScoreLine(score)];
  }

  /** The query part: the sentences are scored, sorted in place and the head
      taken; `results[0]` fails on an empty list. */
  method SelectBest(query: string, sentences: seq<string>, relevance: (string, string) -> real)
    returns (best: Option<Scored>)
    ensures var scored := ScoreSentences(query, sentences, relevance);
            if |scored| == 0 then best.None? else best == Some(scored[FirstBest(scored)])
  {
    var scored := ScoreSentences(query, sentences, relevance);
    var results := new Scored[|scored|](k requires 0 <= k < |scored| => scored[k]);
    assert results[..] == scored;
    SortByProbDescending(results);
    if results.Length == 0 {
      return None;
    }
    SortedHead(results[..], scored);
    best := Some(results[0]);
  }

  // ---------------------------------------------------------------------
  // properties of the outcome

  /** `check_syllabus` raises exactly when the path is not an existing file,
      does not end in ".pdf" (any case), names a file whose second of four or
      more tokens is empty, or when a query is given and no sentence passes
      the filter. */
  lemma RaisesExactly(path: string, query: string, isFile: bool, pages: seq<Option<string>>,
                      ratio: (string, string) -> real, relevance: (string, string) -> real,
                      fmt: real -> string)
    ensures Analyze(path, query, isFile, pages, ratio, relevance, fmt).Raised?
            <==> !isFile || !IsPdfPath(path) || ParseStem(Stem(path)) == EmptyCourseNumber
                 || (query != "" && Sentences(Concat(PageChunks(pages))) == [])
    ensures !isFile ==> Analyze(path, query, isFile, pages, ratio, relevance, fmt)
                        == Raised(UnboundParts(MissingFileMessage))
    ensures isFile && !IsPdfPath(path) ==>
              Analyze(path, query, isFile, pages, ratio, relevance, fmt) == Raised(UnboundParts(NotPdfMessage))
  {
  }

  /** The report is the header block, the content block and then either
      "No query entered." or the query block, joined by newlines. */
  lemma ReportLayout(path: string, query: string, isFile: bool, pages: seq<Option<string>>,
                     ratio: (string, string) -> real, relevance: (string, string) -> real,
                     fmt: real -> string)
    requires isFile && IsPdfPath(path) && ParseStem(Stem(path)).Parsed?
    ensures var h := ParseStem(Stem(path)).header;
            var allText := Concat(PageChunks(pages));
            var prefix := Join(HeaderLines(h), "\n") + "\n" + Join(ContentLines(Lower(allText), ratio), "\n");
            var scored := ScoreSentences(query, Sentences(allText), relevance);
            match Analyze(path, query, isFile, pages, ratio, relevance, fmt)
              case Report(r) =>
                if query == "" then r == prefix + NoQueryTail
                else |scored| > 0
                     && r == prefix + "\n" + Join(QueryLines(query, scored[FirstBest(scored)], fmt), "\n")
              case Raised(f) => query != "" && |scored| == 0 && f == NoSentences
  {
    var h := ParseStem(Stem(path)).header;
    var allText := Concat(PageChunks(pages));
    var head := HeaderLines(h);
    var content := ContentLines(Lower(allText), ratio);
    JoinAppend(head, content, "\n");
    var scored := ScoreSentences(query, Sentences(allText), relevance);
    if query != "" && |scored| > 0 {
      var tail := QueryLines(query, scored[FirstBest(scored)], fmt);
      JoinAppend(head + content, tail, "\n");
    }
  }

  /** The score line prints a multiple of ten between 0 and 100: ten points
      for each required section the matcher scores 70 or more. */
  lemma ScoreLineValue(cleanText: string, ratio: (string, string) -> real)
    ensures var lines := ContentLines(cleanText, ratio);
            var n := CountAtLeast(RequiredSections, cleanText, ratio, FoundThreshold);
            && lines[|lines| - 1] == "\nOverall score: " + NatToString(10 * n) + "\n"
            && ParseDecimal(NatToString(10 * n)) == 10 * n
            && 10 * n <= 100
            && (10 * n == 100 <==> forall i :: 0 <= i < |RequiredSections| ==>
                                     SectionFound(RequiredSections[i], cleanText, ratio))
  {
    var n := CountAtLeast(RequiredSections, cleanText, ratio, FoundThreshold);
    CountAtLeastBounds(RequiredSections, cleanText, ratio, FoundThreshold);
    ParseNatToString(10 * n);
  }

  /** The query block says "Found!" exactly when some sentence reaches 0.35
      and only then shows the example, which is the best match exactly as
      the filter kept it: the sentences are already stripped, so the second
      strip changes nothing. */
  lemma QueryVerdict(query: string, sentences: seq<string>, relevance: (string, string) -> real,
                     fmt: real -> string)
    requires |sentences| > 0
    requires forall s :: s in sentences ==> Trim(s) == s
    ensures var scored := ScoreSentences(query, sentences, relevance);
            var k := FirstBest(scored);
            var block := QueryLines(query, scored[k], fmt);
            var found := exists i :: 0 <= i < |sentences| &&
                           relevance(Lower(query), Lower(sentences[i])) >= MatchThreshold;
            && block[2] == "Result: " + Verdict(found) + " (score = " + fmt(scored[k].prob) + ")"
            && (found <==> |block| == 4)
            && (found ==> block[3] == "\nExample match:\n" + sentences[k])
  {
    var scored := ScoreSentences(query, sentences, relevance);
    var k := FirstBest(scored);
    assert sentences[k] in sentences;
    var found := exists i :: 0 <= i < |sentences| &&
                   relevance(Lower(query), Lower(sentences[i])) >= MatchThreshold;
    if found {
      var i :| 0 <= i < |sentences| && relevance(Lower(query), Lower(sentences[i])) >= MatchThreshold;
      assert scored[i].prob >= MatchThreshold;
    }
  }
}
