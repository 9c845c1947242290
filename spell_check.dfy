/// `check_spelling(text)`: the words of the text are found with
/// `re.findall(r"\b[a-zA-Z][a-zA-Z'-]*\b", text)`, each lower-case form is
/// decided once, at its first occurrence, a chain of filters skips short,
/// capitalised, numeric, URL-like and hyphenated words, and the rest are
/// flagged when the dictionary does not know them. The dictionary and its
/// suggestions are oracles. Also `extract_text_from_pdf`, whose PDF pages
/// are given as the strings (or None) their extraction returned.
module SpellCheck {
  import opened Text
  import PageText

  // ---------------------------------------------------------------------
  // the tokenizer

  /** The regular-expression class `\w` on ASCII. */
  predicate IsWordChar(c: char) { IsAsciiLetter(c) || IsDigit(c) || c == '_' }

  /** The class `[a-zA-Z'-]`. */
  predicate IsTokenChar(c: char) { IsAsciiLetter(c) || c == '\'' || c == '-' }

  /** `\b` holds at position `j`: exactly one of its neighbours is a word
      character. */
  predicate Boundary(t: string, j: nat) {
    (0 < j <= |t| && IsWordChar(t[j - 1])) != (j < |t| && IsWordChar(t[j]))
  }

  /** The greedy end of `[a-zA-Z'-]*` from `i`. */
  function RunEnd(t: string, i: nat): (e: nat)
    requires i <= |t|
    ensures i <= e <= |t|
    ensures forall k :: i <= k < e ==> IsTokenChar(t[k])
    ensures e == |t| || !IsTokenChar(t[e])
    decreases |t| - i
  {
    if i < |t| && IsTokenChar(t[i]) then RunEnd(t, i + 1) else i
  }

  /** Backtracking: the largest position in `[lo, j]` where `\b` holds. */
  function LastBoundary(t: string, lo: nat, j: nat): (r: Option<nat>)
    requires lo <= j <= |t|
    ensures r.Some? ==> lo <= r.value <= j && Boundary(t, r.value)
    ensures r.Some? ==> forall k :: r.value < k <= j ==> !Boundary(t, k)
    ensures r.None? ==> forall k :: lo <= k <= j ==> !Boundary(t, k)
    decreases j
  {
    if Boundary(t, j) then Some(j)
    else if j == lo then None
    else LastBoundary(t, lo, j - 1)
  }

  /** The end of the match that starts at `i`, if the pattern matches there. */
  function MatchEnd(t: string, i: nat): (r: Option<nat>)
    requires i <= |t|
    ensures r.Some? ==> i < r.value <= |t|
    ensures r.Some? <==> i < |t| && IsAsciiLetter(t[i]) && Boundary(t, i)
                         && exists j :: i < j <= RunEnd(t, i + 1) && Boundary(t, j)
    ensures r.Some? ==> i < |t| && r.value <= RunEnd(t, i + 1) && Boundary(t, r.value)
                        && forall j :: r.value < j <= RunEnd(t, i + 1) ==> !Boundary(t, j)
  {
    if i < |t| && IsAsciiLetter(t[i]) && Boundary(t, i) then LastBoundary(t, i + 1, RunEnd(t, i + 1))
    else None
  }

  /** `re.findall` from position `p`: a match is taken and the search goes on
      after it; where nothing matches the search moves one character on. */
  function TokensFrom(t: string, p: nat): seq<string>
    requires p <= |t|
    decreases |t| - p
  {
    if p == |t| then []
    else match MatchEnd(t, p)
      case Some(j) => [t[p..j]] + TokensFrom(t, j)
      case None => TokensFrom(t, p + 1)
  }

  function Tokens(t: string): seq<string> {
    TokensFrom(t, 0)
  }

  /** `findall` misses nothing: positions where the pattern does not match
      are passed over, so the next word is the match at the first position
      where it does (and there are no more words if there is none). */
  lemma {:induction false} TokensFromSkip(t: string, p: nat, s: nat)
    requires p <= s <= |t|
    requires forall k :: p <= k < s ==> MatchEnd(t, k).None?
    ensures TokensFrom(t, p) == TokensFrom(t, s)
    ensures s < |t| && MatchEnd(t, s).Some? ==>
              TokensFrom(t, p) == [t[s..MatchEnd(t, s).value]] + TokensFrom(t, MatchEnd(t, s).value)
    ensures s == |t| ==> TokensFrom(t, p) == []
    decreases s - p
  {
    if p < s {
      TokensFromSkip(t, p + 1, s);
    }
  }

  /** A word as the pattern allows it: an ASCII letter, then letters,
      apostrophes and hyphens. */
  ghost predicate TokenShaped(w: string) {
    |w| >= 1 && IsAsciiLetter(w[0]) && forall k :: 0 <= k < |w| ==> IsTokenChar(w[k])
  }

  lemma {:induction false} TokensFromShaped(t: string, p: nat)
    requires p <= |t|
    ensures forall w :: w in TokensFrom(t, p) ==> TokenShaped(w)
    decreases |t| - p
  {
    if p < |t| {
      match MatchEnd(t, p)
      case Some(j) =>
        TokensFromShaped(t, j);
        var w := t[p..j];
        assert forall k :: 0 <= k < |w| ==> w[k] == t[p + k];
        assert TokenShaped(w);
      case None =>
        TokensFromShaped(t, p + 1);
    }
  }

  // ---------------------------------------------------------------------
  // the filters

  /** `re.search(r"\d", w)`. */
  predicate HasDigit(w: string)
    decreases |w|
  {
    |w| > 0 && (IsDigit(w[0]) || HasDigit(w[1..]))
  }

  /** `"-" in w`. */
  predicate HasHyphen(w: string)
    decreases |w|
  {
    |w| > 0 && (w[0] == '-' || HasHyphen(w[1..]))
  }

  predicate HasLetter(w: string)
    decreases |w|
  {
    |w| > 0 && (IsAsciiLetter(w[0]) || HasLetter(w[1..]))
  }

  predicate NoLowerLetter(w: string)
    decreases |w|
  {
    |w| == 0 || (!IsAsciiLower(w[0]) && NoLowerLetter(w[1..]))
  }

  /** `w.isupper()`: some cased character, and none of them lower case. */
  predicate IsUpperWord(w: string) {
    HasLetter(w) && NoLowerLetter(w)
  }

  /** `re.match(r"^(http|www|edu|com|org|net)", lw)`. */
  predicate UrlLike(lw: string) {
    StartsWith(lw, "http") || StartsWith(lw, "www") || StartsWith(lw, "edu")
    || StartsWith(lw, "com") || StartsWith(lw, "org") || StartsWith(lw, "net")
  }

  /** The filter chain, in the order the checker applies it. */
  predicate Skipped(w: string) {
    |w| <= 2 || IsUpperWord(w) || IsAsciiUpper(w[0]) || HasDigit(w)
    || UrlLike(Lower(w)) || HasHyphen(w)
  }

  /** A word survives the filters and the dictionary does not know it. */
  predicate Passes(w: string, known: string -> bool) {
    !Skipped(w) && !known(Lower(w))
  }

  /** `Passes` for a given dictionary, as a function of the word. */
  function PassesWith(known: string -> bool): string -> bool {
    w => Passes(w, known)
  }

  lemma {:induction false} TokenCharsNoDigit(w: string)
    requires forall k :: 0 <= k < |w| ==> IsTokenChar(w[k])
    ensures !HasDigit(w)
    decreases |w|
  {
    if |w| > 0 {
      TokenCharsNoDigit(w[1..]);
    }
  }

  /** Every word the tokenizer finds starts with a letter and holds only
      letters, apostrophes and hyphens: it has no digit, so the digit filter
      never fires, and stripping it changes nothing. */
  lemma TokensShape(t: string)
    ensures forall w :: w in Tokens(t) ==>
              TokenShaped(w) && !HasDigit(w) && Trim(w) == w
  {
    TokensFromShaped(t, 0);
    forall w | w in Tokens(t) ensures !HasDigit(w) && Trim(w) == w {
      TokenCharsNoDigit(w);
      TrimNoSpace(w);
    }
  }

  // ---------------------------------------------------------------------
  // the flagged list

  /** A flagged word and what `spell.candidates` returned for it. */
  datatype Flag = Flag(word: string, suggestions: Option<seq<string>>)

  /** `word.strip()` for every word. */
  function Stripped(words: seq<string>): (ws: seq<string>)
    ensures |ws| == |words|
  {
    seq(|words|, i requires 0 <= i < |words| => Trim(words[i]))
  }

  /** No word among the first `n` has the form `key(x)` equal to `k`. */
  predicate Unseen(ws: seq<string>, n: nat, key: string -> string, k: string)
    requires n <= |ws|
    decreases n
  {
    n == 0 || (key(ws[n - 1]) != k && Unseen(ws, n - 1, key, k))
  }

  lemma {:induction false} UnseenMeans(ws: seq<string>, n: nat, key: string -> string, k: string)
    requires n <= |ws|
    ensures Unseen(ws, n, key, k) <==> forall j :: 0 <= j < n ==> key(ws[j]) != k
    decreases n
  {
    if n > 0 {
      UnseenMeans(ws, n - 1, key, k);
    }
  }

  /** Word `i` is the first with its form. */
  predicate FirstOccurrence(ws: seq<string>, i: nat, key: string -> string)
    requires i < |ws|
  {
    Unseen(ws, i, key, key(ws[i]))
  }

  /** The entries among the first `n` words for the first occurrences of
      each form that satisfy `pass`, in word order. */
  function FirstPassing(ws: seq<string>, n: nat, key: string -> string, pass: string -> bool,
                        candidates: string -> Option<seq<string>>): seq<Flag>
    requires n <= |ws|
    decreases n
  {
    if n == 0 then []
    else
      FirstPassing(ws, n - 1, key, pass, candidates)
      + (if FirstOccurrence(ws, n - 1, key) && pass(ws[n - 1])
         then [Flag(ws[n - 1], candidates(ws[n - 1]))] else [])
  }

  /** The flagged list: the stripped words, each lower-case form decided at
      its first occurrence. */
  function FlaggedWords(words: seq<string>, known: string -> bool,
                        candidates: string -> Option<seq<string>>): seq<Flag>
  {
    FirstPassing(Stripped(words), |words|, Lower, PassesWith(known), candidates)
  }

  /** The word loop: `checked` holds the lower-case form of every word seen
      so far, and `flagged` grows by the words that pass. A word's form
      enters `checked` before the filters run. */
  method FlagWords(words: seq<string>, known: string -> bool,
                   candidates: string -> Option<seq<string>>)
    returns (flagged: seq<Flag>)
    ensures flagged == FlaggedWords(words, known, candidates)
  {
    ghost var ws := Stripped(words);
    var checked: set<string> := {};
    flagged := [];
    for i := 0 to |words|
      invariant checked == SeenForms(ws, i)
      invariant flagged == FirstPassing(ws, i, Lower, PassesWith(known), candidates)
    {
      var w := Trim(words[i]);
      assert w == ws[i];
      CheckedStep(ws, i);
      FirstPassingStep(ws, i, known, candidates);
      if Lower(w) in checked {
        continue;
      }
      checked := checked + {Lower(w)};
      if Skipped(w) {
        continue;
      }
      if !known(Lower(w)) {
        flagged := flagged + [Flag(w, candidates(w))];
      }
    }
  }

  /** The forms of the first `n` words: `checked` after `n` words. */
  function SeenForms(ws: seq<string>, n: nat): set<string>
    requires n <= |ws|
    decreases n
  {
    if n == 0 then {} else SeenForms(ws, n - 1) + {Lower(ws[n - 1])}
  }

  lemma {:induction false} SeenFormsMeans(ws: seq<string>, n: nat, x: string)
    requires n <= |ws|
    ensures x in SeenForms(ws, n) <==> !Unseen(ws, n, Lower, x)
    decreases n
  {
    if n > 0 {
      SeenFormsMeans(ws, n - 1, x);
    }
  }

  /** Word `i` is the first of its form exactly when its form is not yet in
      `checked`; afterwards it is. */
  lemma CheckedStep(ws: seq<string>, i: nat)
    requires i < |ws|
    ensures FirstOccurrence(ws, i, Lower) <==> Lower(ws[i]) !in SeenForms(ws, i)
    ensures SeenForms(ws, i + 1) == SeenForms(ws, i) + {Lower(ws[i])}
  {
    SeenFormsMeans(ws, i, Lower(ws[i]));
  }

  /** One more word: its entry, if any, goes at the end. */
  lemma FirstPassingStep(ws: seq<string>, i: nat, known: string -> bool,
                         candidates: string -> Option<seq<string>>)
    requires i < |ws|
    ensures FirstPassing(ws, i + 1, Lower, PassesWith(known), candidates)
            == FirstPassing(ws, i, Lower, PassesWith(known), candidates)
               + (if FirstOccurrence(ws, i, Lower) && Passes(ws[i], known)
                  then [Flag(ws[i], candidates(ws[i]))] else [])
  {
    assert PassesWith(known)(ws[i]) == Passes(ws[i], known);
  }

  /** One printed line per flagged word. */
  function MisspelledLine(f: Flag): string {
    "Misspelled: " + f.word + " -> Suggestions: "
    + (if f.suggestions.Some? && f.suggestions.value != [] then Join(f.suggestions.value, ", ")
       else "None")
  }

  function TotalLine(n: nat): string {
    "\nTotal possible misspelled words: " + NatToString(n)
  }

  /** `check_spelling(text)`: the flagged list and the lines it prints. */
  method CheckSpelling(text: string, known: string -> bool,
                       candidates: string -> Option<seq<string>>)
    returns (flagged: seq<Flag>, printed: seq<string>)
    ensures flagged == FlaggedWords(Tokens(text), known, candidates)
    ensures |printed| == |flagged| + 1
    ensures forall i :: 0 <= i < |flagged| ==> printed[i] == MisspelledLine(flagged[i])
    ensures printed[|flagged|] == TotalLine(|flagged|)
  {
    var words := Tokens(text);
    flagged := FlagWords(words, known, candidates);
    printed := PrintFlagged(flagged);
  }

  /** The printing loop of `check_spelling` and its total line. */
  method PrintFlagged(flagged: seq<Flag>) returns (printed: seq<string>)
    ensures |printed| == |flagged| + 1
    ensures forall i :: 0 <= i < |flagged| ==> printed[i] == MisspelledLine(flagged[i])
    ensures printed[|flagged|] == TotalLine(|flagged|)
  {
    printed := [];
    var i := 0;
    while i < |flagged|
      invariant 0 <= i <= |flagged|
      invariant |printed| == i
      invariant forall k :: 0 <= k < i ==> printed[k] == MisspelledLine(flagged[k])
    {
      printed := printed + [MisspelledLine(flagged[i])];
      i := i + 1;
    }
    printed := printed + [TotalLine(|flagged|)];
  }

  // ---------------------------------------------------------------------
  // properties of the flagged list

  lemma {:induction false} FirstPassingMembership(ws: seq<string>, n: nat, key: string -> string,
                                                  pass: string -> bool,
                                                  candidates: string -> Option<seq<string>>, f: Flag)
    requires n <= |ws|
    ensures f in FirstPassing(ws, n, key, pass, candidates)
            <==> exists i :: 0 <= i < n && FirstOccurrence(ws, i, key) && pass(ws[i])
                             && f == Flag(ws[i], candidates(ws[i]))
    decreases n
  {
    if n > 0 {
      FirstPassingMembership(ws, n - 1, key, pass, candidates, f);
    }
  }

  /** A word is flagged, with the candidates of its stripped form, exactly
      when it is the first of its lower-case form, passes every filter and
      is not in the dictionary. */
  lemma FlaggedMembership(words: seq<string>, known: string -> bool,
                          candidates: string -> Option<seq<string>>, f: Flag)
    ensures var ws := Stripped(words);
            f in FlaggedWords(words, known, candidates)
            <==> exists i :: 0 <= i < |ws| && FirstOccurrence(ws, i, Lower) && Passes(ws[i], known)
                             && f == Flag(ws[i], candidates(ws[i]))
  {
    FirstPassingMembership(Stripped(words), |words|, Lower, PassesWith(known), candidates, f);
  }

  /** What every flagged word satisfies: at least three characters, not
      starting with a capital, no hyphen, no digit, no URL-like prefix, and
      its lower-case form not in the dictionary. */
  lemma FlaggedSound(words: seq<string>, known: string -> bool,
                     candidates: string -> Option<seq<string>>)
    ensures forall f :: f in FlaggedWords(words, known, candidates) ==>
              && |f.word| >= 3 && !IsAsciiUpper(f.word[0]) && !HasHyphen(f.word) && !HasDigit(f.word)
              && !UrlLike(Lower(f.word)) && !known(Lower(f.word))
              && f.suggestions == candidates(f.word)
  {
    forall f | f in FlaggedWords(words, known, candidates)
      ensures && |f.word| >= 3 && !IsAsciiUpper(f.word[0]) && !HasHyphen(f.word) && !HasDigit(f.word)
              && !UrlLike(Lower(f.word)) && !known(Lower(f.word))
              && f.suggestions == candidates(f.word)
    {
      FlaggedMembership(words, known, candidates, f);
    }
  }

  /** For the tokenizer's words the flagged ones start with a lower-case
      letter. */
  lemma FlaggedTokensStartLower(text: string, known: string -> bool,
                                candidates: string -> Option<seq<string>>)
    ensures forall f :: f in FlaggedWords(Tokens(text), known, candidates) ==>
              |f.word| > 0 && IsAsciiLower(f.word[0])
  {
    var words := Tokens(text);
    var ws := Stripped(words);
    TokensShape(text);
    forall f | f in FlaggedWords(words, known, candidates) ensures |f.word| > 0 && IsAsciiLower(f.word[0]) {
      FlaggedMembership(words, known, candidates, f);
      var i :| 0 <= i < |ws| && FirstOccurrence(ws, i, Lower) && Passes(ws[i], known)
               && f == Flag(ws[i], candidates(ws[i]));
      assert words[i] in words;
    }
  }

  /** No two entries share a form. */
  ghost predicate DistinctForms(fl: seq<Flag>, key: string -> string) {
    forall p, q :: 0 <= p < q < |fl| ==> key(fl[p].word) != key(fl[q].word)
  }

  lemma {:induction false} FirstPassingDistinct(ws: seq<string>, n: nat, key: string -> string,
                                                pass: string -> bool,
                                                candidates: string -> Option<seq<string>>)
    requires n <= |ws|
    ensures DistinctForms(FirstPassing(ws, n, key, pass, candidates), key)
    decreases n
  {
    if n > 0 {
      FirstPassingDistinct(ws, n - 1, key, pass, candidates);
      var before := FirstPassing(ws, n - 1, key, pass, candidates);
      if FirstOccurrence(ws, n - 1, key) && pass(ws[n - 1]) {
        FirstOccurrenceIsNew(ws, n, key, pass, candidates);
        DistinctSnoc(before, Flag(ws[n - 1], candidates(ws[n - 1])), key);
      }
    }
  }

  /** The first occurrence of a form is not yet in the list. */
  lemma FirstOccurrenceIsNew(ws: seq<string>, n: nat, key: string -> string,
                             pass: string -> bool, candidates: string -> Option<seq<string>>)
    requires 0 < n <= |ws| && FirstOccurrence(ws, n - 1, key)
    ensures forall f :: f in FirstPassing(ws, n - 1, key, pass, candidates) ==> key(f.word) != key(ws[n - 1])
  {
    UnseenMeans(ws, n - 1, key, key(ws[n - 1]));
    FirstPassingAvoids(ws, n - 1, key, pass, candidates, key(ws[n - 1]));
  }

  /** Entries come from the words: a form none of the first `m` words has
      is the form of no entry. */
  lemma {:induction false} FirstPassingAvoids(ws: seq<string>, m: nat, key: string -> string,
                                              pass: string -> bool,
                                              candidates: string -> Option<seq<string>>, k: string)
    requires m <= |ws|
    requires forall j :: 0 <= j < m ==> key(ws[j]) != k
    ensures forall f :: f in FirstPassing(ws, m, key, pass, candidates) ==> key(f.word) != k
    decreases m
  {
    if m > 0 {
      FirstPassingAvoids(ws, m - 1, key, pass, candidates, k);
    }
  }

  lemma DistinctSnoc(fl: seq<Flag>, x: Flag, key: string -> string)
    requires DistinctForms(fl, key)
    requires forall f :: f in fl ==> key(f.word) != key(x.word)
    ensures DistinctForms(fl + [x], key)
  {
    var all := fl + [x];
    forall p, q | 0 <= p < q < |all| ensures key(all[p].word) != key(all[q].word) {
      assert all[p] == fl[p];
      if q < |fl| {
        assert all[q] == fl[q];
      } else {
        assert fl[p] in fl;
      }
    }
  }

  /** No two flagged words share a lower-case form. */
  lemma FlaggedDistinct(words: seq<string>, known: string -> bool,
                        candidates: string -> Option<seq<string>>)
    ensures DistinctForms(FlaggedWords(words, known, candidates), Lower)
  {
    FirstPassingDistinct(Stripped(words), |words|, Lower, PassesWith(known), candidates);
  }

  lemma {:induction false} FirstPassingPrefix(ws: seq<string>, i: nat, n: nat, key: string -> string,
                                              pass: string -> bool,
                                              candidates: string -> Option<seq<string>>)
    requires i <= n <= |ws|
    ensures var before := FirstPassing(ws, i, key, pass, candidates);
            var all := FirstPassing(ws, n, key, pass, candidates);
            |before| <= |all| && all[..|before|] == before
    decreases n - i
  {
    if i < n {
      FirstPassingPrefix(ws, i, n - 1, key, pass, candidates);
    }
  }

  /** The entries for the first `n` words do not depend on what follows. */
  lemma {:induction false} FirstPassingPrefixOf(ws: seq<string>, more: seq<string>, n: nat,
                                                key: string -> string, pass: string -> bool,
                                                candidates: string -> Option<seq<string>>)
    requires n <= |ws|
    ensures FirstPassing(ws + more, n, key, pass, candidates) == FirstPassing(ws, n, key, pass, candidates)
    decreases n
  {
    if n > 0 {
      FirstPassingPrefixOf(ws, more, n - 1, key, pass, candidates);
      var all := ws + more;
      assert forall k :: 0 <= k < n ==> all[k] == ws[k];
      UnseenMeans(all, n - 1, key, key(ws[n - 1]));
      UnseenMeans(ws, n - 1, key, key(ws[n - 1]));
    }
  }

  /** The list grows in word order: the entries for a text's first words
      come first, whatever follows them. */
  lemma FlaggedPrefix(words: seq<string>, more: seq<string>, known: string -> bool,
                      candidates: string -> Option<seq<string>>)
    ensures var before := FlaggedWords(words, known, candidates);
            var all := FlaggedWords(words + more, known, candidates);
            |before| <= |all| && all[..|before|] == before
  {
    var all := words + more;
    var pass := PassesWith(known);
    assert Stripped(all) == Stripped(words) + Stripped(more);
    FirstPassingPrefix(Stripped(all), |words|, |all|, Lower, pass, candidates);
    FirstPassingPrefixOf(Stripped(words), Stripped(more), |words|, Lower, pass, candidates);
  }

  /** A skipped capitalised "Teh" still enters `checked`, so a later "teh"
      is never flagged, whatever the dictionary says. */
  lemma CapitalisedFirstHidesLater(known: string -> bool, candidates: string -> Option<seq<string>>)
    ensures FlaggedWords(["Teh", "teh"], known, candidates) == []
  {
    var words := ["Teh", "teh"];
    TrimNoSpace("Teh");
    TrimNoSpace("teh");
    var ws := Stripped(words);
    assert ws == ["Teh", "teh"];
    assert Lower(ws[0]) == Lower(ws[1]);
    assert !FirstOccurrence(ws, 1, Lower);
    assert IsAsciiUpper(ws[0][0]);
  }

  /** The printed total reads back as the number of flagged words. */
  lemma TotalReadsBack(n: nat)
    ensures var line := TotalLine(n);
            var prefix := "\nTotal possible misspelled words: ";
            StartsWith(line, prefix) && ParseDecimal(line[|prefix|..]) == n
  {
    var prefix := "\nTotal possible misspelled words: ";
    assert TotalLine(n)[|prefix|..] == NatToString(n);
    ParseNatToString(n);
  }

  // ---------------------------------------------------------------------
  // extract_text_from_pdf

  /** The pages with text, each followed by a newline; empty pages add
      nothing. */
  function ExtractedText(pages: seq<Option<string>>): string
    decreases |pages|
  {
    if |pages| == 0 then ""
    else
      var last := pages[|pages| - 1];
      ExtractedText(pages[..|pages| - 1]) + (if PageText.HasText(last) then last.value + "\n" else "")
  }

  method ExtractText(pages: seq<Option<string>>) returns (text: string)
    ensures text == ExtractedText(pages)
  {
    text := "";
    var i := 0;
    while i < |pages|
      invariant 0 <= i <= |pages|
      invariant text == ExtractedText(pages[..i])
    {
      var pageText := pages[i];
      if PageText.HasText(pageText) {
        text := text + pageText.value + "\n";
      }
      assert pages[..i + 1][..i] == pages[..i];
      i := i + 1;
    }
    assert pages[..i] == pages;
  }

  /** Empty pages are dropped: a page without text (None or the empty
      string, both false for `if page_text:`) changes nothing. */
  lemma ExtractSkipsEmptyPage(pages: seq<Option<string>>, page: Option<string>, more: seq<Option<string>>)
    requires !PageText.HasText(page)
    ensures ExtractedText(pages + [page] + more) == ExtractedText(pages + more)
  {
    ExtractedAppend(pages + [page], more);
    ExtractedAppend(pages, more);
    assert (pages + [page])[..|pages|] == pages;
  }

  lemma {:induction false} ExtractedAppend(a: seq<Option<string>>, b: seq<Option<string>>)
    ensures ExtractedText(a + b) == ExtractedText(a) + ExtractedText(b)
    decreases |b|
  {
    if |b| == 0 {
      assert a + b == a;
    } else {
      var n := |b| - 1;
      assert (a + b)[..|a + b| - 1] == a + b[..n];
      ExtractedAppend(a, b[..n]);
    }
  }

  /** When every page has text, the spelling checker reads the same text as
      the syllabus checker. */
  lemma {:induction false} ExtractAgreesWhenNoEmptyPage(pages: seq<Option<string>>)
    requires forall i :: 0 <= i < |pages| ==> PageText.HasText(pages[i])
    ensures ExtractedText(pages) == Concat(PageText.PageChunks(pages))
    decreases |pages|
  {
    if |pages| > 0 {
      var n := |pages| - 1;
      ExtractAgreesWhenNoEmptyPage(pages[..n]);
      assert pages[..n + 1] == pages;
      PageText.PageChunksPrefix(pages, n);
    }
  }
}
