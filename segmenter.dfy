/// The sentence list of `check_syllabus`: the document text is cut by
/// `re.split(r'(?<=[.!?])\s+', text)`, and a fragment is kept, stripped,
/// when it has more than three white-space separated words and a run of three
/// ASCII letters.
module Segmenter {
  import opened Text

  predicate IsTerminal(c: char) { c == '.' || c == '!' || c == '?' }

  /** The separator `(?<=[.!?])\s+` can begin at index `i`. */
  predicate CutAt(t: string, i: nat) {
    0 < i < |t| && IsTerminal(t[i - 1]) && IsSpace(t[i])
  }

  /** The end of the white-space run that starts at `i` (greedy `\s+`). */
  function SpaceRunEnd(t: string, i: nat): (j: nat)
    requires i <= |t|
    ensures i <= j <= |t|
    ensures forall k :: i <= k < j ==> IsSpace(t[k])
    ensures j == |t| || !IsSpace(t[j])
    decreases |t| - i
  {
    if i < |t| && IsSpace(t[i]) then SpaceRunEnd(t, i + 1) else i
  }

  /** A fragment of the split and the separator that follows it in the text
      (empty after the last fragment). */
  datatype Piece = Piece(text: string, gap: string)

  /** The regular-expression split scanning from `i`, the current fragment
      having begun at `start`. */
  function SplitFrom(t: string, start: nat, i: nat): (ps: seq<Piece>)
    requires start <= i <= |t|
    ensures |ps| >= 1
    decreases |t| - i
  {
    if i == |t| then [Piece(t[start..], "")]
    else if CutAt(t, i) then
      var j := SpaceRunEnd(t, i);
      [Piece(t[start..i], t[i..j])] + SplitFrom(t, j, j)
    else SplitFrom(t, start, i + 1)
  }

  function Pieces(t: string): seq<Piece> {
    SplitFrom(t, 0, 0)
  }

  /** The fragments `re.split` returns. */
  function SplitSentences(t: string): (fragments: seq<string>)
    ensures |fragments| == |Pieces(t)|
  {
    var ps := Pieces(t);
    seq(|ps|, k requires 0 <= k < |ps| => ps[k].text)
  }

  function Rejoin(ps: seq<Piece>): string
    decreases |ps|
  {
    if |ps| == 0 then "" else ps[0].text + ps[0].gap + Rejoin(ps[1..])
  }

  ghost predicate NoCutInside(s: string) {
    forall k :: 0 < k < |s| ==> !(IsTerminal(s[k - 1]) && IsSpace(s[k]))
  }

  /** What a regular-expression split at maximal white-space runs after
      sentence punctuation looks like: every separator but the last is a
      non-empty white-space run that follows a fragment ending in '.', '!' or
      '?' and is followed by a fragment not starting with white space; no
      fragment contains a place where the separator could start. */
  ghost predicate WellSplit(ps: seq<Piece>) {
    && |ps| >= 1
    && ps[|ps| - 1].gap == ""
    && (forall n :: 0 <= n < |ps| ==> NoCutInside(ps[n].text))
    && (forall n :: 0 <= n < |ps| - 1 ==>
          && ps[n].gap != "" && AllSpace(ps[n].gap)
          && ps[n].text != "" && IsTerminal(ps[n].text[|ps[n].text| - 1]))
    && (forall n :: 0 < n < |ps| ==>
          if ps[n].text == "" then n == |ps| - 1 else !IsSpace(ps[n].text[0]))
  }

  lemma {:induction false} SplitFromRejoin(t: string, start: nat, i: nat)
    requires start <= i <= |t|
    ensures Rejoin(SplitFrom(t, start, i)) == t[start..]
    decreases |t| - i
  {
    var ps := SplitFrom(t, start, i);
    if i == |t| {
      assert Rejoin(ps[1..]) == "";
    } else if CutAt(t, i) {
      var j := SpaceRunEnd(t, i);
      SplitFromRejoin(t, j, j);
      assert ps[1..] == SplitFrom(t, j, j);
      assert t[start..] == t[start..i] + t[i..j] + t[j..];
    } else {
      SplitFromRejoin(t, start, i + 1);
    }
  }

  /** The first fragment runs from `start` to the first place the separator
      can begin (or to the end of the text). */
  lemma {:induction false} SplitFromFirst(t: string, start: nat, i: nat)
    requires start <= i <= |t|
    requires forall k :: start < k < i ==> !CutAt(t, k)
    ensures var ps := SplitFrom(t, start, i);
            var e := start + |ps[0].text|;
            && i <= e <= |t|
            && ps[0].text == t[start..e]
            && (forall k :: start < k < e ==> !CutAt(t, k))
            && (|ps| == 1 <==> e == |t|)
            && (|ps| > 1 ==> CutAt(t, e) && ps[0].gap == t[e..SpaceRunEnd(t, e)]
                             && ps[1..] == SplitFrom(t, SpaceRunEnd(t, e), SpaceRunEnd(t, e)))
            && (|ps| == 1 ==> ps[0].gap == "")
    decreases |t| - i
  {
    if i == |t| {
      assert SplitFrom(t, start, i) == [Piece(t[start..], "")];
    } else if CutAt(t, i) {
      var j := SpaceRunEnd(t, i);
      var ps := SplitFrom(t, start, i);
      assert ps == [Piece(t[start..i], t[i..j])] + SplitFrom(t, j, j);
      assert ps[1..] == SplitFrom(t, j, j);
    } else {
      SplitFromFirst(t, start, i + 1);
    }
  }

  lemma FirstPieceNoCut(t: string, start: nat, e: nat)
    requires start <= e <= |t|
    requires forall k :: start < k < e ==> !CutAt(t, k)
    ensures NoCutInside(t[start..e])
  {
    var text := t[start..e];
    forall k | 0 < k < |text| ensures !(IsTerminal(text[k - 1]) && IsSpace(text[k])) {
      assert !CutAt(t, start + k);
    }
  }

  /** Putting a well-formed first piece in front of a well-formed split. */
  lemma WellSplitCons(p: Piece, rest: seq<Piece>)
    requires WellSplit(rest)
    requires NoCutInside(p.text)
    requires p.gap != "" && AllSpace(p.gap) && p.text != "" && IsTerminal(p.text[|p.text| - 1])
    requires if rest[0].text == "" then |rest| == 1 else !IsSpace(rest[0].text[0])
    ensures WellSplit([p] + rest)
  {
    var ps := [p] + rest;
    assert forall n :: 0 < n < |ps| ==> ps[n] == rest[n - 1];
  }

  lemma {:induction false} SplitFromWell(t: string, start: nat, i: nat)
    requires start <= i <= |t|
    requires !CutAt(t, start)
    requires forall k :: start < k < i ==> !CutAt(t, k)
    ensures WellSplit(SplitFrom(t, start, i))
    decreases |t| - i
  {
    var ps := SplitFrom(t, start, i);
    SplitFromFirst(t, start, i);
    var e := start + |ps[0].text|;
    FirstPieceNoCut(t, start, e);
    if |ps| == 1 {
      WellSplitSingle(ps[0]);
    } else {
      var j := SpaceRunEnd(t, e);
      SpaceRunAfterCut(t, e);
      SplitFromWell(t, j, j);
      WellSplitStep(t, start, e, j, ps);
    }
  }

  /** After a cut at `e` the space run ends at `j > e`, where no cut starts. */
  lemma SpaceRunAfterCut(t: string, e: nat)
    requires CutAt(t, e)
    ensures SpaceRunEnd(t, e) > e && !CutAt(t, SpaceRunEnd(t, e))
  {
  }

  /** The recursive step of `SplitFromWell`, stated on the pieces alone. */
  lemma WellSplitStep(t: string, start: nat, e: nat, j: nat, ps: seq<Piece>)
    requires |ps| > 1 && start < e <= |t| && CutAt(t, e) && j == SpaceRunEnd(t, e)
    requires ps[0].text == t[start..e] && NoCutInside(ps[0].text) && ps[0].gap == t[e..j]
    requires ps[1..] == SplitFrom(t, j, j) && WellSplit(ps[1..])
    ensures WellSplit(ps)
  {
    var rest := ps[1..];
    SpaceRunAfterCut(t, e);
    SplitFromFirst(t, j, j);
    SeparatorFacts(t, e, j, rest[0].text);
    assert ps == [ps[0]] + rest;
    WellSplitCons(ps[0], rest);
  }

  lemma WellSplitSingle(p: Piece)
    requires NoCutInside(p.text) && p.gap == ""
    ensures WellSplit([p])
  {
  }

  /** The separator found at a cut `e` is a non-empty white-space run after a
      terminal character, and what follows it does not start with white space
      nor with another cut. */
  lemma SeparatorFacts(t: string, e: nat, j: nat, next: string)
    requires CutAt(t, e) && j == SpaceRunEnd(t, e)
    requires j + |next| <= |t| && next == t[j..j + |next|]
    requires next == "" ==> j + |next| == |t| || CutAt(t, j + |next|)
    ensures t[e..j] != "" && AllSpace(t[e..j]) && IsTerminal(t[e - 1])
    ensures next != "" ==> !IsSpace(next[0])
    ensures next == "" ==> j == |t|
  {
  }

  /** The split loses nothing: fragments and separators put back together give
      the text, and the pieces have the shape of a split at
      `(?<=[.!?])\s+`. */
  lemma SplitSentencesSpec(t: string)
    ensures Rejoin(Pieces(t)) == t
    ensures WellSplit(Pieces(t))
  {
    SplitFromRejoin(t, 0, 0);
    SplitFromWell(t, 0, 0);
  }

  // ---------------------------------------------------------------------
  // the filter

  /** Python's `len(s.split())`: the number of maximal non-white-space runs
      (counted at the character that ends each run). */
  function WordCount(s: string): nat
    decreases |s|
  {
    if |s| == 0 then 0
    else WordCount(s[1..]) + (if !IsSpace(s[0]) && (|s| == 1 || IsSpace(s[1])) then 1 else 0)
  }

  predicate LetterRunAt(s: string, i: nat) {
    i + 3 <= |s| && IsAsciiLetter(s[i]) && IsAsciiLetter(s[i + 1]) && IsAsciiLetter(s[i + 2])
  }

  /** `re.search(r"[A-Za-z]{3,}", s)` succeeds. */
  predicate HasLetterRun(s: string) {
    exists i :: 0 <= i < |s| && LetterRunAt(s, i)
  }

  /** The comprehension's condition: more than three words and three
      consecutive ASCII letters. */
  predicate Keep(s: string) {
    WordCount(s) > 3 && HasLetterRun(s)
  }

  /** `[s.strip() for s in fragments if Keep(s)]`. */
  function KeptSentences(fragments: seq<string>): seq<string>
    decreases |fragments|
  {
    if |fragments| == 0 then []
    else (if Keep(fragments[0]) then [Trim(fragments[0])] else []) + KeptSentences(fragments[1..])
  }

  /** The sentence list of the checker. */
  function Sentences(t: string): seq<string> {
    KeptSentences(SplitSentences(t))
  }

  lemma {:induction false} WordCountAllSpace(s: string)
    requires AllSpace(s)
    ensures WordCount(s) == 0
    decreases |s|
  {
    if |s| > 0 { WordCountAllSpace(s[1..]); }
  }

  lemma {:induction false} WordCountLeadingSpace(sp: string, x: string)
    requires AllSpace(sp)
    ensures WordCount(sp + x) == WordCount(x)
    decreases |sp|
  {
    if |sp| > 0 {
      assert (sp + x)[1..] == sp[1..] + x;
      WordCountLeadingSpace(sp[1..], x);
    } else {
      assert sp + x == x;
    }
  }

  lemma {:induction false} WordCountTrailingSpace(x: string, sp: string)
    requires AllSpace(sp)
    ensures WordCount(x + sp) == WordCount(x)
    decreases |x|
  {
    if |x| == 0 {
      assert x + sp == sp;
      WordCountAllSpace(sp);
    } else {
      assert (x + sp)[1..] == x[1..] + sp;
      WordCountTrailingSpace(x[1..], sp);
    }
  }

  /** Stripping keeps the word count. */
  lemma WordCountTrim(s: string)
    ensures WordCount(Trim(s)) == WordCount(s)
  {
    var a, b := StripStart(s), StripEnd(s);
    TrimSpec(s);
    assert s == s[..a] + (s[a..b] + s[b..]);
    assert AllSpace(s[..a]);
    assert AllSpace(s[b..]);
    WordCountLeadingSpace(s[..a], s[a..b] + s[b..]);
    WordCountTrailingSpace(s[a..b], s[b..]);
  }

  /** Stripping keeps the three-letter run. */
  lemma HasLetterRunTrim(s: string)
    ensures HasLetterRun(Trim(s)) == HasLetterRun(s)
  {
    var a, b := StripStart(s), StripEnd(s);
    var r := Trim(s);
    TrimSpec(s);
    if HasLetterRun(s) {
      var m :| 0 <= m < |s| && LetterRunAt(s, m);
      assert !IsSpace(s[m]) && !IsSpace(s[m + 2]);
      assert LetterRunAt(r, m - a);
    }
    if HasLetterRun(r) {
      var m :| 0 <= m < |r| && LetterRunAt(r, m);
      assert LetterRunAt(s, m + a);
    }
  }

  /** Every sentence is stripped, has more than three words and a run of
      three letters. */
  lemma {:induction false} KeptSentencesShape(fragments: seq<string>)
    ensures forall s :: s in KeptSentences(fragments) ==>
              Trim(s) == s && WordCount(s) > 3 && HasLetterRun(s)
    decreases |fragments|
  {
    if |fragments| > 0 {
      KeptSentencesShape(fragments[1..]);
      var f := fragments[0];
      TrimIdempotent(f);
      WordCountTrim(f);
      HasLetterRunTrim(f);
    }
  }

  /** The filter keeps order and duplicates: filtering a concatenation
      concatenates the filtered parts. */
  lemma {:induction false} KeptSentencesAppend(a: seq<string>, b: seq<string>)
    ensures KeptSentences(a + b) == KeptSentences(a) + KeptSentences(b)
    decreases |a|
  {
    if |a| == 0 {
      assert a + b == b;
    } else {
      assert (a + b)[0] == a[0];
      assert (a + b)[1..] == a[1..] + b;
      KeptSentencesAppend(a[1..], b);
    }
  }

  /** A string is a sentence exactly when some fragment passes the filter and
      strips to it. */
  lemma {:induction false} KeptSentencesMembership(fragments: seq<string>, s: string)
    ensures s in KeptSentences(fragments) <==> exists f :: f in fragments && Keep(f) && Trim(f) == s
    decreases |fragments|
  {
    if |fragments| > 0 {
      KeptSentencesMembership(fragments[1..], s);
      assert forall f :: f in fragments <==> f == fragments[0] || f in fragments[1..];
    }
  }

  /** The sentences of a document are its kept fragments, stripped: every one
      comes from the split, is stripped, has more than three words and a run
      of three letters. */
  lemma SentencesSpec(t: string)
    ensures forall s :: s in Sentences(t) ==>
              (exists f :: f in SplitSentences(t) && Keep(f) && Trim(f) == s)
              && Trim(s) == s && WordCount(s) > 3 && HasLetterRun(s)
  {
    KeptSentencesShape(SplitSentences(t));
    forall s | s in Sentences(t)
      ensures exists f :: f in SplitSentences(t) && Keep(f) && Trim(f) == s
    {
      KeptSentencesMembership(SplitSentences(t), s);
    }
  }
}
