/// The content analysis of `check_syllabus`: ten required section names, each
/// looked for in the lower-cased document text with a fuzzy partial-ratio
/// score; a section is found at 70 or more and is worth 10 points. The fuzzy
/// matcher is foreign code and enters as the function `ratio`.
module ContentCheck {
  import opened Text

  const RequiredSections: seq<string> :=
    ["email", "materials", "outcome", "office hours", "objective",
     "grading", "exams", "academic integrity", "counseling", "equity"]

  const FoundThreshold: real := 70.0
  const PointsPerSection: nat := 10

  predicate SectionFound(section: string, cleanText: string, ratio: (string, string) -> real) {
    ratio(section, cleanText) >= FoundThreshold
  }

  /** Python's `str.title()` on ASCII text: a letter is upper-cased when it
      follows a non-letter (or starts the string), lower-cased otherwise. */
  function Title(s: string): string {
    seq(|s|, i requires 0 <= i < |s| =>
      if i == 0 || !IsAsciiLetter(s[i - 1]) then UpperChar(s[i]) else LowerChar(s[i]))
  }

  /** Title-casing changes only the case of letters. */
  lemma TitleKeepsLetters(s: string)
    ensures |Title(s)| == |s| && Lower(Title(s)) == Lower(s)
  {
  }

  function StatusLine(section: string, found: bool): string {
    Title(section) + " : " + (if found then "Found" else "Missing")
  }

  /** How many of `sections` reach `threshold`. */
  function CountAtLeast(sections: seq<string>, cleanText: string,
                        ratio: (string, string) -> real, threshold: real): nat
    decreases |sections|
  {
    if |sections| == 0 then 0
    else CountAtLeast(sections[..|sections| - 1], cleanText, ratio, threshold)
         + (if ratio(sections[|sections| - 1], cleanText) >= threshold then 1 else 0)
  }

  lemma {:induction false} CountAtLeastBounds(sections: seq<string>, cleanText: string,
                                              ratio: (string, string) -> real, threshold: real)
    ensures CountAtLeast(sections, cleanText, ratio, threshold) <= |sections|
    ensures CountAtLeast(sections, cleanText, ratio, threshold) == |sections|
            <==> forall i :: 0 <= i < |sections| ==> ratio(sections[i], cleanText) >= threshold
    ensures CountAtLeast(sections, cleanText, ratio, threshold) == 0
            <==> forall i :: 0 <= i < |sections| ==> ratio(sections[i], cleanText) < threshold
    decreases |sections|
  {
    if |sections| > 0 {
      var init := sections[..|sections| - 1];
      CountAtLeastBounds(init, cleanText, ratio, threshold);
      assert forall i :: 0 <= i < |init| ==> init[i] == sections[i];
    }
  }

  /** Raising the threshold never makes more sections count as found. */
  lemma {:induction false} ThresholdMonotone(sections: seq<string>, cleanText: string,
                                             ratio: (string, string) -> real, low: real, high: real)
    requires low <= high
    ensures CountAtLeast(sections, cleanText, ratio, high) <= CountAtLeast(sections, cleanText, ratio, low)
    decreases |sections|
  {
    if |sections| > 0 {
      ThresholdMonotone(sections[..|sections| - 1], cleanText, ratio, low, high);
    }
  }

  /** The status lines of `sections`, in order. */
  function StatusLines(sections: seq<string>, cleanText: string, ratio: (string, string) -> real): (r: seq<string>)
    ensures |r| == |sections|
    decreases |sections|
  {
    if |sections| == 0 then []
    else StatusLines(sections[..|sections| - 1], cleanText, ratio)
         + [StatusLine(sections[|sections| - 1], SectionFound(sections[|sections| - 1], cleanText, ratio))]
  }

  /** The `results` dictionary after `sections`: each section mapped to its
      verdict, a later duplicate overwriting an earlier one. */
  function Verdicts(sections: seq<string>, cleanText: string, ratio: (string, string) -> real): map<string, bool>
    decreases |sections|
  {
    if |sections| == 0 then map[]
    else Verdicts(sections[..|sections| - 1], cleanText, ratio)
           [sections[|sections| - 1] := SectionFound(sections[|sections| - 1], cleanText, ratio)]
  }

  /** One status line per section, in the order of the list. */
  lemma {:induction false} StatusLinesSpec(sections: seq<string>, cleanText: string, ratio: (string, string) -> real)
    ensures forall i :: 0 <= i < |sections| ==>
              StatusLines(sections, cleanText, ratio)[i]
              == StatusLine(sections[i], SectionFound(sections[i], cleanText, ratio))
    decreases |sections|
  {
    if |sections| > 0 {
      var init := sections[..|sections| - 1];
      StatusLinesSpec(init, cleanText, ratio);
      assert forall i :: 0 <= i < |init| ==> init[i] == sections[i];
    }
  }

  /** `results` has exactly the listed sections as keys, each with its own
      verdict. */
  lemma {:induction false} VerdictsSpec(sections: seq<string>, cleanText: string, ratio: (string, string) -> real)
    ensures forall s :: s in Verdicts(sections, cleanText, ratio) <==> s in sections
    ensures forall s :: s in Verdicts(sections, cleanText, ratio) ==>
              Verdicts(sections, cleanText, ratio)[s] == SectionFound(s, cleanText, ratio)
    decreases |sections|
  {
    if |sections| > 0 {
      var init := sections[..|sections| - 1];
      VerdictsSpec(init, cleanText, ratio);
      assert sections == init + [sections[|sections| - 1]];
    }
  }

  /** The section loop: one "Found"/"Missing" line per section, in list
      order; `results` maps each section to its verdict; the score is 10 per
      found section. */
  method ScoreSections(sections: seq<string>, cleanText: string, ratio: (string, string) -> real)
    returns (score: nat, results: map<string, bool>, lines: seq<string>)
    ensures lines == StatusLines(sections, cleanText, ratio)
    ensures results == Verdicts(sections, cleanText, ratio)
    ensures score == PointsPerSection * CountAtLeast(sections, cleanText, ratio, FoundThreshold)
  {
    results := map[];
    lines := [];
    score := 0;
    var i := 0;
    while i < |sections|
      invariant 0 <= i <= |sections|
      invariant lines == StatusLines(sections[..i], cleanText, ratio)
      invariant results == Verdicts(sections[..i], cleanText, ratio)
      invariant score == PointsPerSection * CountAtLeast(sections[..i], cleanText, ratio, FoundThreshold)
    {
      var section := sections[i];
      var found := ratio(section, cleanText) >= FoundThreshold;
      results := results[section := found];
      var status := if found then "Found" else "Missing";
      lines := lines + [Title(section) + " : " + status];
      if found {
        score := score + 10;
      }
      SectionStep(sections, i, cleanText, ratio);
      i := i + 1;
    }
    assert sections[..i] == sections;
  }

  lemma SectionStep(sections: seq<string>, i: nat, cleanText: string, ratio: (string, string) -> real)
    requires i < |sections|
    ensures var found := SectionFound(sections[i], cleanText, ratio);
            && StatusLines(sections[..i + 1], cleanText, ratio)
               == StatusLines(sections[..i], cleanText, ratio) + [StatusLine(sections[i], found)]
            && Verdicts(sections[..i + 1], cleanText, ratio)
               == Verdicts(sections[..i], cleanText, ratio)[sections[i] := found]
            && CountAtLeast(sections[..i + 1], cleanText, ratio, FoundThreshold)
               == CountAtLeast(sections[..i], cleanText, ratio, FoundThreshold) + (if found then 1 else 0)
  {
    assert sections[..i + 1][..i] == sections[..i];
  }

  /** With the ten required sections the score is one of 0, 10, ..., 100. */
  lemma RequiredScoreRange(cleanText: string, ratio: (string, string) -> real)
    ensures var n := CountAtLeast(RequiredSections, cleanText, ratio, FoundThreshold);
            0 <= PointsPerSection * n <= 100
  {
    CountAtLeastBounds(RequiredSections, cleanText, ratio, FoundThreshold);
  }
}
