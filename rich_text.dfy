/// The coloured output of the desktop window: a message may carry
/// `<color=#RRGGBB>...</color>` markup, which `_insert_rich_text` turns into
/// text inserted with a colour tag; everything else is inserted as plain
/// text, and a newline ends the message. The Tk text widget is modelled by the
/// calls it receives: the chunks inserted at its end, the tag names it knows
/// and the tags configured.
module RichText {
  import opened Text

  const Opener: string := "<color=#"
  const Closer: string := "</color>"
  /** `<color=#` + six hex digits + `>`. */
  const OpenerLength: nat := 15

  predicate IsHexDigit(c: char) {
    IsDigit(c) || 'a' <= c <= 'f' || 'A' <= c <= 'F'
  }

  /** `<color=(#[0-9A-Fa-f]{6})>` matches at `i`. */
  predicate OpenerAt(msg: string, i: nat) {
    i + OpenerLength <= |msg| && msg[i..i + 8] == Opener
    && IsHexDigit(msg[i + 8]) && IsHexDigit(msg[i + 9]) && IsHexDigit(msg[i + 10])
    && IsHexDigit(msg[i + 11]) && IsHexDigit(msg[i + 12]) && IsHexDigit(msg[i + 13])
    && msg[i + 14] == '>'
  }

  predicate CloserAt(msg: string, j: nat) {
    OccursAt(msg, Closer, j)
  }

  /** The first `</color>` at or after `j`: where the non-greedy `(.*?)`
      stops. */
  function FirstCloser(msg: string, j: nat): (c: Option<nat>)
    requires j <= |msg|
    ensures c.Some? ==> j <= c.value && CloserAt(msg, c.value)
    ensures c.Some? ==> forall k :: j <= k < c.value ==> !CloserAt(msg, k)
    ensures c.None? ==> forall k :: j <= k ==> !CloserAt(msg, k)
    decreases |msg| - j
  {
    if j + |Closer| > |msg| then None
    else if CloserAt(msg, j) then Some(j)
    else FirstCloser(msg, j + 1)
  }

  /** A match: the opener at `start`, the closer at `close`. */
  datatype Match = Match(start: nat, close: nat)

  function End(m: Match): nat {
    m.close + |Closer|
  }

  /** A match as the pattern finds it in `msg`. */
  ghost predicate WellFormed(msg: string, m: Match) {
    OpenerAt(msg, m.start) && m.start + OpenerLength <= m.close && CloserAt(msg, m.close)
    && forall k :: m.start + OpenerLength <= k < m.close ==> !CloserAt(msg, k)
  }

  /** `match.group(1)`: '#' and the six hex digits. */
  function Color(msg: string, m: Match): string
    requires m.start + OpenerLength <= |msg|
  {
    msg[m.start + 7..m.start + 14]
  }

  /** `match.group(2)`. */
  function Body(msg: string, m: Match): string
    requires m.start + OpenerLength <= m.close <= |msg|
  {
    msg[m.start + OpenerLength..m.close]
  }

  function TagName(color: string): string {
    "color_" + color
  }

  /** The pattern matches at `i`. */
  function MatchAt(msg: string, i: nat): (r: Option<Match>)
    requires i <= |msg|
    ensures r.Some? ==> r.value.start == i && WellFormed(msg, r.value)
    ensures r.Some? <==> OpenerAt(msg, i) && FirstCloser(msg, i + OpenerLength).Some?
    ensures r.Some? ==> r.value.close == FirstCloser(msg, i + OpenerLength).value
  {
    if OpenerAt(msg, i) then
      match FirstCloser(msg, i + OpenerLength)
      case Some(c) => Some(Match(i, c))
      case None => None
    else None
  }

  /** `re.finditer(pattern, msg, flags=re.S)` from position `p`. */
  function MatchesFrom(msg: string, p: nat): seq<Match>
    requires p <= |msg|
    decreases |msg| - p
  {
    if p == |msg| then []
    else match MatchAt(msg, p)
      case Some(m) => [m] + MatchesFrom(msg, End(m))
      case None => MatchesFrom(msg, p + 1)
  }

  function Matches(msg: string): (ms: seq<Match>)
    ensures MatchesOk(msg, ms, 0)
  {
    MatchesFromOk(msg, 0);
    MatchesFrom(msg, 0)
  }

  /** Well-formed matches, in order, none overlapping, none before `p`. */
  ghost predicate MatchesOk(msg: string, ms: seq<Match>, p: nat)
    decreases |ms|
  {
    |ms| == 0 || (WellFormed(msg, ms[0]) && p <= ms[0].start && MatchesOk(msg, ms[1..], End(ms[0])))
  }

  lemma {:induction false} MatchesFromOk(msg: string, p: nat)
    requires p <= |msg|
    ensures MatchesOk(msg, MatchesFrom(msg, p), p)
    decreases |msg| - p
  {
    if p < |msg| {
      match MatchAt(msg, p)
      case Some(m) =>
        MatchesFromOk(msg, End(m));
        assert ([m] + MatchesFrom(msg, End(m)))[1..] == MatchesFrom(msg, End(m));
      case None =>
        MatchesFromOk(msg, p + 1);
        MatchesOkLower(msg, MatchesFrom(msg, p + 1), p + 1, p);
    }
  }

  /** `finditer` misses nothing: the pattern matches nowhere between `p`
      and the first match reported (or the end of the message), the first
      match is the one found at its start, and the search resumes at its
      end. */
  lemma {:induction false} MatchesFromComplete(msg: string, p: nat)
    requires p <= |msg|
    ensures var ms := MatchesFrom(msg, p);
            var stop := if ms == [] then |msg| else ms[0].start;
            && (forall k :: p <= k < stop && k <= |msg| ==> MatchAt(msg, k).None?)
            && (ms != [] ==> ms[0].start <= |msg| && MatchAt(msg, ms[0].start) == Some(ms[0])
                             && ms[1..] == MatchesFrom(msg, End(ms[0])))
    decreases |msg| - p
  {
    MatchesFromOk(msg, p);
    if p < |msg| {
      match MatchAt(msg, p)
      case Some(m) =>
        assert MatchesFrom(msg, p) == [m] + MatchesFrom(msg, End(m));
      case None =>
        MatchesFromComplete(msg, p + 1);
    }
  }

  /** A well-formed tag is coloured: "<color=#abcdef>x</color>" inserts "x"
      with the tag "color_#abcdef", then the newline. */
  lemma ColouredExample()
    ensures RichChunks("<color=#abcdef>x</color>")
            == [Chunk("x", Some("color_#abcdef")), Chunk("\n", None)]
  {
    var open, body := "<color=#abcdef>", "x";
    var msg := open + body + Closer;
    assert msg == "<color=#abcdef>x</color>";
    assert OpenerAt(msg, 0) by {
      assert msg[0..8] == open[0..8] == Opener;
    }
    assert !CloserAt(msg, 15) by { assert msg[15] == 'x'; }
    assert CloserAt(msg, 16) by { assert msg[16..24] == Closer; }
    assert FirstCloser(msg, 15) == Some(16);
    var m := Match(0, 16);
    assert MatchAt(msg, 0) == Some(m);
    assert MatchesFrom(msg, 24) == [];
    assert Matches(msg) == [m];
    assert Color(msg, m) == msg[7..14] == open[7..14] == "#abcdef";
    assert TagName(Color(msg, m)) == "color_#abcdef";
    assert Body(msg, m) == msg[15..16] == body;
    assert ChunksFrom(msg, [m], 0) == MatchChunks(msg, 0, m) + ChunksFrom(msg, [], 24);
    assert MatchChunks(msg, 0, m) == [Chunk("x", Some("color_#abcdef"))];
  }

  lemma MatchesOkLower(msg: string, ms: seq<Match>, p: nat, q: nat)
    requires MatchesOk(msg, ms, p) && q <= p
    ensures MatchesOk(msg, ms, q)
  {
  }

  // ---------------------------------------------------------------------
  // what is inserted

  /** Inserted text, with the tag it was inserted with. */
  datatype Chunk = Chunk(text: string, tag: Option<string>)

  /** The inserts for the matches `ms`, scanning on from `pos`. */
  function ChunksFrom(msg: string, ms: seq<Match>, pos: nat): seq<Chunk>
    requires MatchesOk(msg, ms, pos) && pos <= |msg|
    decreases |ms|
  {
    if |ms| == 0 then (if pos < |msg| then [Chunk(msg[pos..], None)] else [])
    else MatchChunks(msg, pos, ms[0]) + ChunksFrom(msg, ms[1..], End(ms[0]))
  }

  /** The inserts for one match: the plain text since `pos`, if any, and the
      body with its colour tag. */
  function MatchChunks(msg: string, pos: nat, m: Match): seq<Chunk>
    requires WellFormed(msg, m) && pos <= m.start
  {
    (if m.start > pos then [Chunk(msg[pos..m.start], None)] else [])
    + [Chunk(Body(msg, m), Some(TagName(Color(msg, m))))]
  }

  /** Everything `_insert_rich_text(msg)` inserts, in order. */
  function RichChunks(msg: string): seq<Chunk> {
    ChunksFrom(msg, Matches(msg), 0) + [Chunk("\n", None)]
  }

  /** The tags configured for the matches `ms` when `known` are the tag
      names already present. */
  function NewTags(msg: string, ms: seq<Match>, known: set<string>, pos: nat): seq<string>
    requires MatchesOk(msg, ms, pos) && pos <= |msg|
    decreases |ms|
  {
    if |ms| == 0 then []
    else
      var t := TagName(Color(msg, ms[0]));
      (if t in known then [] else [t]) + NewTags(msg, ms[1..], known + {t}, End(ms[0]))
  }

  /** The inserts, tag names and configured tags for `ms` are those of its
      first match followed by those of the rest. */
  lemma MatchStep(msg: string, ms: seq<Match>, pos: nat, known: set<string>)
    requires MatchesOk(msg, ms, pos) && pos <= |msg| && |ms| > 0
    ensures WellFormed(msg, ms[0]) && pos <= ms[0].start && End(ms[0]) <= |msg|
    ensures MatchesOk(msg, ms[1..], End(ms[0]))
    ensures ChunksFrom(msg, ms, pos) == MatchChunks(msg, pos, ms[0]) + ChunksFrom(msg, ms[1..], End(ms[0]))
    ensures TagsOf(msg, ms, pos) == {TagName(Color(msg, ms[0]))} + TagsOf(msg, ms[1..], End(ms[0]))
    ensures var t := TagName(Color(msg, ms[0]));
            NewTags(msg, ms, known, pos) == (if t in known then [] else [t]) + NewTags(msg, ms[1..], known + {t}, End(ms[0]))
  {
  }

  lemma Reassociate<T>(x: seq<T>, before: seq<T>, step: seq<T>, rest: seq<T>, total: seq<T>)
    requires x == before + step && before + (step + rest) == total
    ensures x + rest == total
  {
  }

  /** The tag names of the matches `ms`. */
  function TagsOf(msg: string, ms: seq<Match>, pos: nat): set<string>
    requires MatchesOk(msg, ms, pos) && pos <= |msg|
    decreases |ms|
  {
    if |ms| == 0 then {}
    else {TagName(Color(msg, ms[0]))} + TagsOf(msg, ms[1..], End(ms[0]))
  }

  /** The output widget, seen through the calls it receives. */
  class OutputText {
    /** Every `insert(END, text[, tag])`, in order. */
    var inserts: seq<Chunk>
    /** `tag_names()`. */
    var tagNames: set<string>
    /** Every `tag_config(name, ...)`, in order. */
    var configured: seq<string>

    /** A fresh text widget knows only the selection tag. */
    constructor()
      ensures inserts == [] && tagNames == {"sel"} && configured == []
    {
      inserts := [];
      tagNames := {"sel"};
      configured := [];
    }

    /** `insert(END, text[, tag])`; inserting with a tag creates it. */
    method Insert(text: string, tag: Option<string>)
      modifies this
      ensures inserts == old(inserts) + [Chunk(text, tag)]
      ensures tagNames == old(tagNames) + (if tag.Some? then {tag.value} else {})
      ensures configured == old(configured)
    {
      inserts := inserts + [Chunk(text, tag)];
      if tag.Some? {
        tagNames := tagNames + {tag.value};
      }
    }

    /** `tag_config(name, foreground=color, ...)`. */
    method TagConfig(name: string, color: string)
      modifies this
      ensures inserts == old(inserts)
      ensures tagNames == old(tagNames) + {name}
      ensures configured == old(configured) + [name]
    {
      tagNames := tagNames + {name};
      configured := configured + [name];
    }

    /** One pass of the loop over the matches: the plain text since `pos`,
        the tag configured if it is new, and the body inserted with it. */
    method InsertMatch(msg: string, pos: nat, m: Match)
      requires WellFormed(msg, m) && pos <= m.start
      modifies this
      ensures inserts == old(inserts) + MatchChunks(msg, pos, m)
      ensures tagNames == old(tagNames) + {TagName(Color(msg, m))}
      ensures configured == old(configured)
                            + (if TagName(Color(msg, m)) in old(tagNames) then [] else [TagName(Color(msg, m))])
    {
      var start := m.start;
      if start > pos {
        Insert(msg[pos..start], None);
      }
      var color := Color(msg, m);
      var text := Body(msg, m);
      var tagName := TagName(color);
      if tagName !in tagNames {
        TagConfig(tagName, color);
      }
      Insert(text, Some(tagName));
    }

    /** `_insert_rich_text(msg)`: plain text between the matches, each body
        with the tag of its colour (configured the first time it is
        needed), the rest of the message and a newline. */
    method InsertRichText(msg: string)
      modifies this
      ensures inserts == old(inserts) + RichChunks(msg)
      ensures tagNames == old(tagNames) + TagsOf(msg, Matches(msg), 0)
      ensures configured == old(configured) + NewTags(msg, Matches(msg), old(tagNames), 0)
    {
      var ms := Matches(msg);
      var pos: nat := 0;
      var i: nat := 0;
      while i < |ms|
        invariant 0 <= i <= |ms| && pos <= |msg|
        invariant MatchesOk(msg, ms[i..], pos)
        invariant inserts + ChunksFrom(msg, ms[i..], pos) == old(inserts) + ChunksFrom(msg, ms, 0)
        invariant tagNames + TagsOf(msg, ms[i..], pos) == old(tagNames) + TagsOf(msg, ms, 0)
        invariant configured + NewTags(msg, ms[i..], tagNames, pos)
                  == old(configured) + NewTags(msg, ms, old(tagNames), 0)
      {
        var m := ms[i];
        ghost var rest, before, known := ms[i..], inserts, tagNames;
        assert rest[0] == m && rest[1..] == ms[i + 1..];
        MatchStep(msg, rest, pos, known);
        ghost var conf := configured;
        InsertMatch(msg, pos, m);
        Reassociate(inserts, before, MatchChunks(msg, pos, m), ChunksFrom(msg, rest[1..], End(m)),
                    old(inserts) + ChunksFrom(msg, ms, 0));
        ghost var t := TagName(Color(msg, m));
        Reassociate(configured, conf, if t in known then [] else [t], NewTags(msg, rest[1..], known + {t}, End(m)),
                    old(configured) + NewTags(msg, ms, old(tagNames), 0));
        pos := End(m);
        i := i + 1;
      }
      assert ms[i..] == [];
      ghost var mid := inserts;
      assert mid + ChunksFrom(msg, [], pos) == old(inserts) + ChunksFrom(msg, ms, 0);
      if pos < |msg| {
        Insert(msg[pos..], None);
      }
      assert inserts == mid + ChunksFrom(msg, [], pos);
      Insert("\n", None);
    }
  }

  // ---------------------------------------------------------------------
  // properties

  /** Writing every tagged chunk back as markup gives the message and the
      final newline: nothing is lost, reordered or invented. */
  function Markup(c: Chunk): string {
    match c.tag
    case None => c.text
    case Some(t) => "<color=" + (if |t| >= 6 then t[6..] else t) + ">" + c.text + Closer
  }

  function MarkupAll(cs: seq<Chunk>): string
    decreases |cs|
  {
    if |cs| == 0 then "" else Markup(cs[0]) + MarkupAll(cs[1..])
  }

  lemma {:induction false} MarkupAppend(a: seq<Chunk>, b: seq<Chunk>)
    ensures MarkupAll(a + b) == MarkupAll(a) + MarkupAll(b)
    decreases |a|
  {
    if |a| == 0 {
      assert a + b == b;
    } else {
      assert (a + b)[1..] == a[1..] + b;
      MarkupAppend(a[1..], b);
    }
  }

  /** The markup of one match is the text it spans. */
  lemma MatchMarkup(msg: string, m: Match)
    requires WellFormed(msg, m)
    ensures Markup(Chunk(Body(msg, m), Some(TagName(Color(msg, m))))) == msg[m.start..End(m)]
  {
    var t := TagName(Color(msg, m));
    assert t[6..] == Color(msg, m);
    var a, b := m.start, m.close;
    assert msg[a..a + 7] == msg[a..a + 8][..7] == "<color=";
    assert msg[a + 14..a + 15] == ">";
    assert msg[b..End(m)] == Closer;
    assert msg[a..End(m)]
           == msg[a..a + 7] + msg[a + 7..a + 14] + msg[a + 14..a + 15] + msg[a + 15..b] + msg[b..End(m)];
  }

  /** The inserts for one match, written back as markup, are the text from
      `pos` to the end of the match. */
  lemma MatchChunksMarkup(msg: string, pos: nat, m: Match)
    requires WellFormed(msg, m) && pos <= m.start
    ensures MarkupAll(MatchChunks(msg, pos, m)) == msg[pos..End(m)]
  {
    var tagged := Chunk(Body(msg, m), Some(TagName(Color(msg, m))));
    MatchMarkup(msg, m);
    assert MarkupAll([tagged]) == Markup(tagged);
    if m.start > pos {
      var plain := Chunk(msg[pos..m.start], None);
      assert MatchChunks(msg, pos, m) == [plain, tagged];
      assert MarkupAll([plain, tagged]) == msg[pos..m.start] + MarkupAll([tagged]);
      assert msg[pos..End(m)] == msg[pos..m.start] + msg[m.start..End(m)];
    } else {
      assert MatchChunks(msg, pos, m) == [tagged];
    }
  }

  lemma {:induction false} ChunksFromMarkup(msg: string, ms: seq<Match>, pos: nat)
    requires MatchesOk(msg, ms, pos) && pos <= |msg|
    ensures MarkupAll(ChunksFrom(msg, ms, pos)) == msg[pos..]
    decreases |ms|
  {
    if |ms| == 0 {
      if pos < |msg| {
        assert MarkupAll([Chunk(msg[pos..], None)]) == msg[pos..];
      }
    } else {
      var m := ms[0];
      var head, rest := MatchChunks(msg, pos, m), ChunksFrom(msg, ms[1..], End(m));
      assert ChunksFrom(msg, ms, pos) == head + rest;
      ChunksFromMarkup(msg, ms[1..], End(m));
      MarkupAppend(head, rest);
      MatchChunksMarkup(msg, pos, m);
      SliceSplit(msg, pos, End(m));
    }
  }

  lemma SliceSplit(s: string, a: nat, b: nat)
    requires a <= b <= |s|
    ensures s[a..] == s[a..b] + s[b..]
  {
  }

  /** The inserted chunks, written back as markup, are the message and its
      newline. */
  lemma RichChunksRoundTrip(msg: string)
    ensures MarkupAll(RichChunks(msg)) == msg + "\n"
  {
    var cs := ChunksFrom(msg, Matches(msg), 0);
    ChunksFromMarkup(msg, Matches(msg), 0);
    MarkupAppend(cs, [Chunk("\n", None)]);
    assert MarkupAll([Chunk("\n", None)]) == "\n";
    assert msg[0..] == msg;
  }

  function TextOf(cs: seq<Chunk>): string
    decreases |cs|
  {
    if |cs| == 0 then "" else cs[0].text + TextOf(cs[1..])
  }

  lemma {:induction false} TextOfAppend(a: seq<Chunk>, b: seq<Chunk>)
    ensures TextOf(a + b) == TextOf(a) + TextOf(b)
    decreases |a|
  {
    if |a| == 0 {
      assert a + b == b;
    } else {
      assert (a + b)[1..] == a[1..] + b;
      TextOfAppend(a[1..], b);
    }
  }

  /** One match shows all it spans but its opener and closer. */
  lemma MatchChunksTextLength(msg: string, pos: nat, m: Match)
    requires WellFormed(msg, m) && pos <= m.start
    ensures |TextOf(MatchChunks(msg, pos, m))| + OpenerLength + |Closer| == End(m) - pos
  {
    var tagged := Chunk(Body(msg, m), Some(TagName(Color(msg, m))));
    assert TextOf([tagged]) == Body(msg, m);
    if m.start > pos {
      var plain := Chunk(msg[pos..m.start], None);
      assert MatchChunks(msg, pos, m) == [plain, tagged];
      assert TextOf([plain, tagged]) == msg[pos..m.start] + TextOf([tagged]);
    } else {
      assert MatchChunks(msg, pos, m) == [tagged];
    }
  }

  /** The visible text loses exactly the 23 characters of each opener and
      closer. */
  lemma {:induction false} ChunksFromTextLength(msg: string, ms: seq<Match>, pos: nat)
    requires MatchesOk(msg, ms, pos) && pos <= |msg|
    ensures |TextOf(ChunksFrom(msg, ms, pos))| + (OpenerLength + |Closer|) * |ms| == |msg| - pos
    decreases |ms|
  {
    if |ms| > 0 {
      var m := ms[0];
      var head := MatchChunks(msg, pos, m);
      var tail := ChunksFrom(msg, ms[1..], End(m));
      assert ChunksFrom(msg, ms, pos) == head + tail;
      ChunksFromTextLength(msg, ms[1..], End(m));
      TextOfAppend(head, tail);
      MatchChunksTextLength(msg, pos, m);
      TagsTimesCount(OpenerLength + |Closer|, |ms[1..]|);
    } else if pos < |msg| {
      assert TextOf([Chunk(msg[pos..], None)]) == msg[pos..];
    }
  }

  /** One more match costs one more pair of tags. */
  lemma TagsTimesCount(c: nat, n: nat)
    ensures c * (n + 1) == c * n + c
  {
  }

  /** Plain text is inserted only when there is some: every untagged chunk
      before the final newline is non-empty. */
  lemma {:induction false} PlainChunksNonEmpty(msg: string, ms: seq<Match>, pos: nat)
    requires MatchesOk(msg, ms, pos) && pos <= |msg|
    ensures forall c :: c in ChunksFrom(msg, ms, pos) && c.tag.None? ==> c.text != []
    decreases |ms|
  {
    if |ms| > 0 {
      PlainChunksNonEmpty(msg, ms[1..], End(ms[0]));
    }
  }

  /** A message without a well-formed opener is inserted as it is. */
  lemma NoOpenerPlain(msg: string)
    requires msg != [] && forall i: nat :: !OpenerAt(msg, i)
    ensures RichChunks(msg) == [Chunk(msg, None), Chunk("\n", None)]
  {
    NoMatchesFrom(msg, 0);
  }

  lemma {:induction false} NoMatchesFrom(msg: string, p: nat)
    requires p <= |msg| && forall i: nat :: !OpenerAt(msg, i)
    ensures MatchesFrom(msg, p) == []
    decreases |msg| - p
  {
    if p < |msg| {
      NoMatchesFrom(msg, p + 1);
    }
  }

  /** A tag is configured only the first time its colour is needed: the
      configured names are new, pairwise distinct, and together with the
      names already present cover every colour used. */
  lemma {:induction false} NewTagsFresh(msg: string, ms: seq<Match>, known: set<string>, pos: nat)
    requires MatchesOk(msg, ms, pos) && pos <= |msg|
    ensures FreshTags(NewTags(msg, ms, known, pos), known)
    ensures known + TagsOf(msg, ms, pos) == known + Elems(NewTags(msg, ms, known, pos))
    decreases |ms|
  {
    if |ms| > 0 {
      var t := TagName(Color(msg, ms[0]));
      MatchStep(msg, ms, pos, known);
      NewTagsFresh(msg, ms[1..], known + {t}, End(ms[0]));
      FreshCons(known, t, NewTags(msg, ms[1..], known + {t}, End(ms[0])));
    }
  }

  /** No tag of `nt` is already known, and none is configured twice. */
  ghost predicate FreshTags(nt: seq<string>, known: set<string>) {
    && (forall k :: 0 <= k < |nt| ==> nt[k] !in known)
    && (forall p, q :: 0 <= p < q < |nt| ==> nt[p] != nt[q])
  }

  function Elems(s: seq<string>): set<string> {
    set x | x in s
  }

  lemma FreshCons(known: set<string>, t: string, rest: seq<string>)
    requires FreshTags(rest, known + {t})
    ensures var nt := (if t in known then [] else [t]) + rest;
            && FreshTags(nt, known)
            && Elems(nt) + known + {t} == Elems(rest) + known + {t}
  {
    var head: seq<string> := if t in known then [] else [t];
    var nt := head + rest;
    forall p, q | 0 <= p < q < |nt| ensures nt[p] != nt[q] {
      if p < |head| {
        assert nt[q] == rest[q - |head|];
      } else {
        assert nt[p] == rest[p - |head|] && nt[q] == rest[q - |head|];
      }
    }
    forall k | 0 <= k < |nt| ensures nt[k] !in known {
      if k >= |head| {
        assert nt[k] == rest[k - |head|];
      }
    }
    assert Elems(nt) == Elems(head) + Elems(rest);
  }
}
