/// The course header that `check_syllabus` reads off the file name:
/// the stem is split on `_` and either the "DEPT_NUMBER_INSTRUCTOR_SEMESTER"
/// or the "COURSE_INSTRUCTOR_SEMESTER" pattern is chosen.
module Filename {
  import opened Text

  const PdfSuffix: string := ".pdf"

  /** `os.path.basename` on a POSIX path: what follows the last '/'. */
  function Basename(path: string): (name: string)
    ensures '/' !in name
    ensures EndsWith(path, name)
    ensures |name| == |path| || path[|path| - |name| - 1] == '/'
  {
    var parts := SplitOn(path, '/');
    SplitOnLastPiece(path, '/');
    parts[|parts| - 1]
  }

  /** Python's `s.replace(pat, "")`: occurrences are removed left to right,
      without overlap, in one pass. */
  function RemoveAll(s: string, pat: string): (r: string)
    requires |pat| > 0
    ensures |r| <= |s|
    decreases |s|
  {
    if |s| < |pat| then s
    else if s[..|pat|] == pat then RemoveAll(s[|pat|..], pat)
    else [s[0]] + RemoveAll(s[1..], pat)
  }

  /** The extension test of the checker: case-insensitive. */
  predicate IsPdfPath(path: string) {
    EndsWith(Lower(path), PdfSuffix)
  }

  /** The file-name stem: the base name with every ".pdf" removed
      (case-sensitively). */
  function Stem(path: string): string {
    RemoveAll(Basename(path), PdfSuffix)
  }

  datatype Header = Header(course: Option<string>, instructor: Option<string>,
                           semester: Option<string>, warned: bool)

  /** Either the header, or the `IndexError` that `parts[1][0]` raises when
      there are four or more tokens and the second one is empty. */
  datatype ParsedName = Parsed(header: Header) | EmptyCourseNumber

  function ParseParts(parts: seq<string>): ParsedName {
    if |parts| >= 4 && |parts[1]| == 0 then EmptyCourseNumber
    else if |parts| >= 4 && IsDigit(parts[1][0]) then
      Parsed(Header(Some(parts[0] + "." + parts[1]), Some(parts[2]), Some(parts[3]), false))
    else if |parts| >= 3 then
      Parsed(Header(Some(parts[0]), Some(parts[1]), Some(parts[2]), false))
    else
      Parsed(Header(None, None, None, true))
  }

  function ParseStem(stem: string): ParsedName {
    ParseParts(SplitOn(stem, '_'))
  }

  ghost predicate NoUnderscore(tokens: seq<string>) {
    forall t :: t in tokens ==> '_' !in t
  }

  /** Four or more tokens whose second one starts with a digit: the course is
      "DEPT.NUMBER", then instructor and semester; later tokens are ignored. */
  lemma DeptNumberPattern(tokens: seq<string>)
    requires |tokens| >= 4 && NoUnderscore(tokens)
    requires tokens[1] != "" && IsDigit(tokens[1][0])
    ensures ParseStem(Join(tokens, "_"))
            == Parsed(Header(Some(tokens[0] + "." + tokens[1]), Some(tokens[2]), Some(tokens[3]), false))
  {
    SplitOnJoin(tokens, '_');
  }

  /** Three tokens, or more whose second one does not start with a digit:
      the first three tokens are course, instructor and semester as they are. */
  lemma CourseInstructorSemesterPattern(tokens: seq<string>)
    requires |tokens| >= 3 && NoUnderscore(tokens)
    requires |tokens| >= 4 ==> tokens[1] != "" && !IsDigit(tokens[1][0])
    ensures ParseStem(Join(tokens, "_"))
            == Parsed(Header(Some(tokens[0]), Some(tokens[1]), Some(tokens[2]), false))
  {
    SplitOnJoin(tokens, '_');
  }

  /** With four or more tokens and an empty second one, `parts[1][0]` raises. */
  lemma EmptySecondTokenRaises(tokens: seq<string>)
    requires |tokens| >= 4 && NoUnderscore(tokens) && tokens[1] == ""
    ensures ParseStem(Join(tokens, "_")) == EmptyCourseNumber
  {
    SplitOnJoin(tokens, '_');
  }

  /** Fewer than three tokens: a warning and no course, instructor or semester. */
  lemma TooFewTokens(tokens: seq<string>)
    requires 1 <= |tokens| <= 2 && NoUnderscore(tokens)
    ensures ParseStem(Join(tokens, "_")) == Parsed(Header(None, None, None, true))
  {
    SplitOnJoin(tokens, '_');
  }

  lemma ExampleDeptNumber()
    ensures ParseStem("CMPSC_463_Smith_Fall2025")
            == Parsed(Header(Some("CMPSC.463"), Some("Smith"), Some("Fall2025"), false))
  {
    var tokens := ["CMPSC", "463", "Smith", "Fall2025"];
    JoinFour("CMPSC", "463", "Smith", "Fall2025");
    assert "CMPSC" + "_" + "463" + "_" + "Smith" + "_" + "Fall2025" == "CMPSC_463_Smith_Fall2025";
    NoUnderscoreInExample(tokens);
    assert tokens[1] != "" && IsDigit(tokens[1][0]);
    DeptNumberPattern(tokens);
    assert tokens[0] + "." + tokens[1] == "CMPSC.463";
  }

  lemma JoinFour(a: string, b: string, c: string, d: string)
    ensures Join([a, b, c, d], "_") == a + "_" + b + "_" + c + "_" + d
  {
    assert Join([d], "_") == d;
    assert [c, d][1..] == [d];
    assert Join([c, d], "_") == c + "_" + d;
    assert [b, c, d][1..] == [c, d];
    assert Join([b, c, d], "_") == b + "_" + (c + "_" + d);
    assert [a, b, c, d][1..] == [b, c, d];
  }

  lemma ExampleDottedCourse()
    ensures ParseStem("ENG.101_Doe_Spring2026")
            == Parsed(Header(Some("ENG.101"), Some("Doe"), Some("Spring2026"), false))
  {
    var tokens := ["ENG.101", "Doe", "Spring2026"];
    assert Join(tokens, "_") == "ENG.101_Doe_Spring2026" by {
      assert Join(tokens[2..], "_") == "Spring2026";
      assert Join(tokens[1..], "_") == "Doe_Spring2026";
    }
    NoUnderscoreInExample(tokens);
    CourseInstructorSemesterPattern(tokens);
  }

  lemma NoUnderscoreInExample(tokens: seq<string>)
    requires tokens == ["CMPSC", "463", "Smith", "Fall2025"] || tokens == ["ENG.101", "Doe", "Spring2026"]
    ensures NoUnderscore(tokens)
  {
  }

  // ---------------------------------------------------------------------
  // the stem

  lemma {:induction false} RemoveAllAbsent(s: string, pat: string)
    requires |pat| > 0
    requires forall i: nat :: !OccursAt(s, pat, i)
    ensures RemoveAll(s, pat) == s
    decreases |s|
  {
    if |s| >= |pat| {
      assert !OccursAt(s, pat, 0);
      forall i: nat ensures !OccursAt(s[1..], pat, i) {
        assert !OccursAt(s, pat, i + 1);
      }
      RemoveAllAbsent(s[1..], pat);
    }
  }

  /** `replace` removes the first occurrence of the pattern and carries on
      after it: when no occurrence starts inside `x`, the result for
      `x + pat + y` is `x` followed by the result for `y`. */
  lemma {:induction false} RemoveAllCut(x: string, pat: string, y: string)
    requires |pat| > 0
    requires forall i: nat :: i < |x| ==> !OccursAt(x + pat + y, pat, i)
    ensures RemoveAll(x + pat + y, pat) == x + RemoveAll(y, pat)
    decreases |x|
  {
    var s := x + pat + y;
    if |x| == 0 {
      assert s[..|pat|] == pat && s[|pat|..] == y;
    } else {
      var s' := x[1..] + pat + y;
      assert s[1..] == s';
      assert !OccursAt(s, pat, 0);
      assert |s| >= |pat| && s[..|pat|] != pat;
      assert RemoveAll(s, pat) == [x[0]] + RemoveAll(s', pat);
      forall i: nat | i < |x[1..]| ensures !OccursAt(s', pat, i) {
        assert !OccursAt(s, pat, i + 1);
        assert s[i + 1..i + 1 + |pat|] == s'[i..i + |pat|];
      }
      RemoveAllCut(x[1..], pat, y);
      assert [x[0]] + x[1..] == x;
    }
  }

  lemma RemoveTrailingPdf(name: string)
    requires forall i: nat :: i < |name| ==> !OccursAt(name + PdfSuffix, PdfSuffix, i)
    ensures RemoveAll(name + PdfSuffix, PdfSuffix) == name
  {
    assert name + PdfSuffix == name + PdfSuffix + "";
    RemoveAllCut(name, PdfSuffix, "");
  }

  /** ".pdf" in the middle of a name is removed too: "A.pdf_B.pdf" has the
      stem "A_B". */
  lemma RemoveInTheMiddle()
    ensures RemoveAll("A.pdf_B.pdf", PdfSuffix) == "A_B"
  {
    assert "A.pdf_B.pdf" == "A" + PdfSuffix + "_B.pdf";
    assert !OccursAt("A.pdf_B.pdf", PdfSuffix, 0) by { assert "A.pdf_B.pdf"[0] == 'A'; }
    RemoveAllCut("A", PdfSuffix, "_B.pdf");
    assert "_B.pdf" == "_B" + PdfSuffix + "";
    assert !OccursAt("_B.pdf", PdfSuffix, 0) by { assert "_B.pdf"[0] == '_'; }
    assert !OccursAt("_B.pdf", PdfSuffix, 1) by { assert "_B.pdf"[1] == 'B'; }
    RemoveAllCut("_B", PdfSuffix, "");
  }

  /** For "dir/NAME.pdf" where ".pdf" occurs only at the end, the stem is NAME
      and the extension test passes. */
  lemma StemOfPdfFile(dir: string, name: string)
    requires '/' !in name
    requires forall i: nat :: i < |name| ==> !OccursAt(name + PdfSuffix, PdfSuffix, i)
    ensures IsPdfPath(dir + "/" + name + PdfSuffix)
    ensures Stem(dir + "/" + name + PdfSuffix) == name
  {
    var path := dir + "/" + name + PdfSuffix;
    assert path == dir + ['/'] + (name + PdfSuffix);
    SplitOnLast(dir, '/', name + PdfSuffix);
    RemoveTrailingPdf(name);
    ExtensionTest(path);
    assert path[|path| - 4..] == PdfSuffix;
    LowerPdfVariants();
  }

  /** The extension test passes exactly when the last four characters,
      lower-cased, are ".pdf": any mix of cases is accepted. */
  lemma ExtensionTest(path: string)
    ensures IsPdfPath(path) <==> |path| >= 4 && Lower(path[|path| - 4..]) == PdfSuffix
  {
    if |path| >= 4 {
      assert Lower(path)[|path| - 4..] == Lower(path[|path| - 4..]);
    }
  }

  lemma LowerPdfVariants()
    ensures Lower(".pdf") == PdfSuffix && Lower(".PDF") == PdfSuffix && Lower(".Pdf") == PdfSuffix
  {
  }

  /** An upper-case extension passes the case-insensitive test but is not
      removed: "X_1_Y_Fall.PDF" keeps ".PDF" in its stem (and its semester). */
  lemma UpperCaseExtensionKept(name: string)
    requires '/' !in name
    requires forall i: nat :: !OccursAt(name + ".PDF", PdfSuffix, i)
    ensures IsPdfPath(name + ".PDF")
    ensures Stem(name + ".PDF") == name + ".PDF"
  {
    var path := name + ".PDF";
    SplitOnNoSep(path, '/');
    RemoveAllAbsent(path, PdfSuffix);
    ExtensionTest(path);
    assert path[|path| - 4..] == ".PDF";
    LowerPdfVariants();
  }
}
