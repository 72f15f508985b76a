/**
 * The verse milestone state machine of `load_all_content`. OSIS marks a verse
 * with an empty `verse` element carrying `sID` where it starts and another
 * carrying `eID` where it ends; the words in between belong to it. Scanning a
 * chapter's children keeps the open verse's id, its word records and its text
 * fragments, and seals a verse into the chapter on a matching end marker, on the
 * next start marker, or at the end of the chapter.
 */
module Verses {
  import opened Wrappers
  import opened Text
  import opened Markup
  import opened Strongs
  import opened Words

  /** A sealed verse: `verse_id`, `verse_text` and `words_info`. */
  datatype Verse = Verse(verseId: string, verseText: string, wordsInfo: seq<Word>)

  const NoText := "[No text available]"

  /** The text stored for a verse: the fragments joined by spaces and stripped, or
      the sentinel when there are none. */
  function VerseText(frags: seq<string>): (t: string) {
    if frags == [] then NoText else Strip(Join(frags, " "))
  }

  /** The scan state inside one chapter: the verses sealed so far, then
      `current_verse_id`, `current_words_info` and `current_verse_text`. */
  datatype Scan = Scan(verses: seq<Verse>, currentId: Option<string>,
                       words: seq<Word>, frags: seq<string>)

  /** The state before a chapter's first child. */
  const Initial := Scan([], None, [], [])

  /** A verse is open when `current_verse_id` is truthy. */
  predicate IsOpen(st: Scan) {
    Truthy(st.currentId)
  }

  /** The verse the open accumulators stand for. */
  function Seal(st: Scan): (v: Verse)
    requires IsOpen(st)
  {
    Verse(st.currentId.value, VerseText(st.frags), st.words)
  }

  /** A word element's stripped text, `""` when it has none. */
  function WordText(text: Option<string>): (r: string)
    ensures Stripped(r)
  {
    if Truthy(text) then Strip(text.value) else ""
  }

  /** One child of the chapter, processed in the state `st`. */
  function Step(st: Scan, c: Child, lex: Lexicon): (next: Scan) {
    match c
    case VerseEl(sID, eID, osisID) =>
      if Truthy(sID) then
        Scan(if IsOpen(st) then st.verses + [Seal(st)] else st.verses, osisID, [], [])
      else if Truthy(eID) then
        if IsOpen(st) && eID == st.currentId then
          Scan(st.verses + [Seal(st)], None, st.words, st.frags)
        else st
      else st
    case W(text, lemmaAttr, morph) =>
      if IsOpen(st) && WordText(text) != "" then
        st.(words := st.words + [MakeWord(WordText(text), lemmaAttr, morph, lex)],
            frags := st.frags + [WordText(text)])
      else st
    case Other => st
  }

  /** The state after processing `cs` in order from `st`. */
  function Run(st: Scan, cs: seq<Child>, lex: Lexicon): (last: Scan)
    decreases |cs|
  {
    if cs == [] then st else Step(Run(st, cs[..|cs| - 1], lex), cs[|cs| - 1], lex)
  }

  /** The verses of a chapter once its last child is processed: an open verse is
      sealed as well. */
  function Finish(st: Scan): (vs: seq<Verse>) {
    if IsOpen(st) then st.verses + [Seal(st)] else st.verses
  }

  /** The verse list the builder stores for a chapter with children `cs`. */
  function ScanChapter(cs: seq<Child>, lex: Lexicon): (vs: seq<Verse>) {
    Finish(Run(Initial, cs, lex))
  }

  lemma {:induction false} RunAppend(st: Scan, a: seq<Child>, b: seq<Child>, lex: Lexicon)
    ensures Run(st, a + b, lex) == Run(Run(st, a, lex), b, lex)
    decreases |b|
  {
    if b == [] {
      assert a + b == a;
    } else {
      var n := |b| - 1;
      assert (a + b)[..|a + b| - 1] == a + b[..n];
      RunAppend(st, a, b[..n], lex);
    }
  }

  // ----- Verse ids follow the start markers -----

  /** The ids of the verses, in order. */
  function Ids(vs: seq<Verse>): (ids: seq<string>)
    ensures |ids| == |vs|
    ensures forall i :: 0 <= i < |vs| ==> ids[i] == vs[i].verseId
  {
    if vs == [] then [] else Ids(vs[..|vs| - 1]) + [vs[|vs| - 1].verseId]
  }

  /** The `osisID` of every start marker that opens a verse, in document order. */
  function StartIds(cs: seq<Child>): (ids: seq<string>)
    decreases |cs|
  {
    if cs == [] then []
    else
      var c := cs[|cs| - 1];
      StartIds(cs[..|cs| - 1])
      + (if c.VerseEl? && Truthy(c.sID) && Truthy(c.osisID) then [c.osisID.value] else [])
  }

  /** The ids the state has emitted or holds open. */
  function SeenIds(st: Scan): (ids: seq<string>) {
    Ids(st.verses) + (if IsOpen(st) then [st.currentId.value] else [])
  }

  /** Sealing moves the open id to the end of the emitted ids. */
  lemma {:induction false} SealIds(st: Scan)
    requires IsOpen(st)
    ensures Ids(st.verses + [Seal(st)]) == Ids(st.verses) + [st.currentId.value]
  {
  }

  /** One child adds its id to the seen ids exactly when it is a start marker with a
      truthy `osisID`. */
  lemma {:induction false} StepIds(st: Scan, c: Child, lex: Lexicon)
    ensures SeenIds(Step(st, c, lex))
            == SeenIds(st) + (if c.VerseEl? && Truthy(c.sID) && Truthy(c.osisID) then [c.osisID.value] else [])
  {
    if c.VerseEl? && IsOpen(st) {
      SealIds(st);
    }
  }

  lemma {:induction false} RunIds(cs: seq<Child>, lex: Lexicon)
    ensures SeenIds(Run(Initial, cs, lex)) == StartIds(cs)
    decreases |cs|
  {
    if cs != [] {
      var n := |cs| - 1;
      RunIds(cs[..n], lex);
      StepIds(Run(Initial, cs[..n], lex), cs[n], lex);
    }
  }

  /** Whatever the markers look like, a chapter has one verse per start marker with a
      truthy `osisID`, in document order: every opened verse is sealed exactly once,
      by its end marker, by the next start marker or by the end of the chapter. */
  lemma {:induction false} VerseIdsFollowStarts(cs: seq<Child>, lex: Lexicon)
    ensures Ids(ScanChapter(cs, lex)) == StartIds(cs)
    ensures |ScanChapter(cs, lex)| == |StartIds(cs)|
  {
    RunIds(cs, lex);
    var st := Run(Initial, cs, lex);
    if IsOpen(st) {
      SealIds(st);
    }
  }

  // ----- Every verse's text is the join of its words' texts -----

  /** The surface texts of the words, in order. */
  function WordTexts(ws: seq<Word>): (ts: seq<string>)
    ensures |ts| == |ws|
    ensures forall i :: 0 <= i < |ws| ==> ts[i] == ws[i].text
  {
    if ws == [] then [] else WordTexts(ws[..|ws| - 1]) + [ws[|ws| - 1].text]
  }

  /** A word record as the builder makes it: non-empty stripped text and the
      definition its number resolves to. */
  predicate GoodWord(w: Word, lex: Lexicon) {
    w.text != "" && Stripped(w.text) && w.definition == Lookup(lex, w.strong)
  }

  /** A sealed verse whose text is its words' texts joined by single spaces, or the
      sentinel when it has no words. */
  predicate GoodVerse(v: Verse, lex: Lexicon) {
    (forall j :: 0 <= j < |v.wordsInfo| ==> GoodWord(v.wordsInfo[j], lex))
    && v.verseText == (if v.wordsInfo == [] then NoText else Join(WordTexts(v.wordsInfo), " "))
  }

  predicate GoodScan(st: Scan, lex: Lexicon) {
    (forall i :: 0 <= i < |st.verses| ==> GoodVerse(st.verses[i], lex))
    && (forall j :: 0 <= j < |st.words| ==> GoodWord(st.words[j], lex))
    && st.frags == WordTexts(st.words)
  }

  lemma {:induction false} SealGood(st: Scan, lex: Lexicon)
    requires IsOpen(st) && GoodScan(st, lex)
    ensures GoodVerse(Seal(st), lex)
  {
    if st.frags != [] {
      JoinStripped(st.frags, " ");
      StripOfStripped(Join(st.frags, " "));
    }
  }

  lemma {:induction false} StepGood(st: Scan, c: Child, lex: Lexicon)
    requires GoodScan(st, lex)
    ensures GoodScan(Step(st, c, lex), lex)
  {
    match c
    case VerseEl(_, _, _) => StepGoodMarker(st, c, lex);
    case W(_, _, _) => StepGoodWord(st, c, lex);
    case Other =>
  }

  lemma {:induction false} StepGoodMarker(st: Scan, c: Child, lex: Lexicon)
    requires GoodScan(st, lex) && c.VerseEl?
    ensures GoodScan(Step(st, c, lex), lex)
  {
    if IsOpen(st) {
      SealGood(st, lex);
      var vs := st.verses + [Seal(st)];
      assert forall i :: 0 <= i < |vs| ==> GoodVerse(vs[i], lex);
    }
  }

  lemma {:induction false} StepGoodWord(st: Scan, c: Child, lex: Lexicon)
    requires GoodScan(st, lex) && c.W?
    ensures GoodScan(Step(st, c, lex), lex)
  {
    if IsOpen(st) && WordText(c.text) != "" {
      var w := MakeWord(WordText(c.text), c.lemmaAttr, c.morphAttr, lex);
      assert GoodWord(w, lex);
      assert WordTexts(st.words + [w]) == WordTexts(st.words) + [w.text];
      assert Step(st, c, lex) == st.(words := st.words + [w], frags := st.frags + [w.text]);
    }
  }

  lemma {:induction false} RunGood(cs: seq<Child>, lex: Lexicon)
    ensures GoodScan(Run(Initial, cs, lex), lex)
    decreases |cs|
  {
    if cs != [] {
      var n := |cs| - 1;
      RunGood(cs[..n], lex);
      StepGood(Run(Initial, cs[..n], lex), cs[n], lex);
    }
  }

  /** In every chapter each word has non-empty stripped text and its looked-up
      definition, and each verse's text is exactly its words' texts joined by
      spaces (the final `strip()` never changes it), or `"[No text available]"`
      for a verse without words. */
  lemma {:induction false} VerseTextsMatchWords(cs: seq<Child>, lex: Lexicon)
    ensures forall i :: 0 <= i < |ScanChapter(cs, lex)| ==> GoodVerse(ScanChapter(cs, lex)[i], lex)
  {
    RunGood(cs, lex);
    var st := Run(Initial, cs, lex);
    if IsOpen(st) { SealGood(st, lex); }
  }

  // ----- A chapter read verse by verse -----

  /** A child that changes nothing while no verse is open: anything but a start
      marker. */
  predicate InertClosed(c: Child) {
    !(c.VerseEl? && Truthy(c.sID))
  }

  /** A child that leaves the verse `id` open: a word, another element, or a verse
      element that is neither a start marker nor the end marker of `id`. */
  predicate InertOpen(c: Child, id: string) {
    c.W? || c.Other? || (!Truthy(c.sID) && !(Truthy(c.eID) && c.eID == Some(id)))
  }

  /** One verse as it appears in a chapter: children outside any verse, the start
      marker, the verse's own children and, unless it is missing, the end marker. */
  datatype Span = Span(gap: seq<Child>, start: Child, body: seq<Child>, end: Option<Child>)

  predicate ValidSpan(sp: Span) {
    && sp.start.VerseEl? && Truthy(sp.start.sID) && Truthy(sp.start.osisID)
    && (forall k :: 0 <= k < |sp.gap| ==> InertClosed(sp.gap[k]))
    && (forall k :: 0 <= k < |sp.body| ==> InertOpen(sp.body[k], sp.start.osisID.value))
    && (sp.end.Some? ==> sp.end.value.VerseEl? && !Truthy(sp.end.value.sID)
                         && sp.end.value.eID == sp.start.osisID)
  }

  /** Valid spans where a verse without its end marker is directly followed by the
      next start marker (or by the end of the chapter). */
  predicate ValidSpans(spans: seq<Span>) {
    (forall k :: 0 <= k < |spans| ==> ValidSpan(spans[k]))
    && (forall k :: 0 <= k < |spans| - 1 ==> spans[k].end.None? ==> spans[k + 1].gap == [])
  }

  function SpanChildren(sp: Span): (cs: seq<Child>) {
    sp.gap + [sp.start] + sp.body + (if sp.end.Some? then [sp.end.value] else [])
  }

  /** The chapter's children: the spans one after the other. */
  function Concat(spans: seq<Span>): (cs: seq<Child>)
    decreases |spans|
  {
    if spans == [] then [] else Concat(spans[..|spans| - 1]) + SpanChildren(spans[|spans| - 1])
  }

  /** The word records of a verse's children, in order: a `w` element whose
      stripped text is empty contributes nothing. */
  function WordsOf(body: seq<Child>, lex: Lexicon): (ws: seq<Word>)
    decreases |body|
  {
    if body == [] then []
    else
      var c := body[|body| - 1];
      WordsOf(body[..|body| - 1], lex)
      + (if c.W? && WordText(c.text) != "" then [MakeWord(WordText(c.text), c.lemmaAttr, c.morphAttr, lex)] else [])
  }

  /** The verse a span stands for, read as a nested structure. */
  function SpanVerse(sp: Span, lex: Lexicon): (v: Verse)
    requires ValidSpan(sp)
  {
    var ws := WordsOf(sp.body, lex);
    Verse(sp.start.osisID.value, VerseText(WordTexts(ws)), ws)
  }

  /** The verses the spans stand for, one per span, in order. */
  function SpanVerses(spans: seq<Span>, lex: Lexicon): (vs: seq<Verse>)
    requires forall k :: 0 <= k < |spans| ==> ValidSpan(spans[k])
    ensures |vs| == |spans|
    decreases |spans|
  {
    if spans == [] then []
    else
      var init := spans[..|spans| - 1];
      assert forall k :: 0 <= k < |init| ==> init[k] == spans[k];
      SpanVerses(init, lex) + [SpanVerse(spans[|spans| - 1], lex)]
  }

  lemma {:induction false} RunClosedGap(st: Scan, gap: seq<Child>, lex: Lexicon)
    requires !IsOpen(st)
    requires forall k :: 0 <= k < |gap| ==> InertClosed(gap[k])
    ensures Run(st, gap, lex) == st
    decreases |gap|
  {
    if gap != [] {
      RunClosedGap(st, gap[..|gap| - 1], lex);
    }
  }

  lemma {:induction false} StepOpenInert(st: Scan, c: Child, lex: Lexicon)
    requires IsOpen(st) && InertOpen(c, st.currentId.value)
    ensures Step(st, c, lex) == st.(words := st.words + WordsOf([c], lex),
                                   frags := st.frags + WordTexts(WordsOf([c], lex)))
  {
    assert [c][..0] == [];
    if c.W? && WordText(c.text) != "" {
      var w := MakeWord(WordText(c.text), c.lemmaAttr, c.morphAttr, lex);
      assert Step(st, c, lex) == st.(words := st.words + [w], frags := st.frags + [WordText(c.text)]);
      assert WordsOf([c], lex) == [w];
      assert WordTexts([w]) == [w.text];
    } else {
      assert Step(st, c, lex) == st;
      assert WordsOf([c], lex) == [];
      assert st.words + [] == st.words;
      assert st.frags + WordTexts([]) == st.frags;
    }
  }

  lemma {:induction false} WordsOfSnoc(body: seq<Child>, lex: Lexicon)
    requires body != []
    ensures WordsOf(body, lex) == WordsOf(body[..|body| - 1], lex) + WordsOf([body[|body| - 1]], lex)
  {
    assert [body[|body| - 1]][..0] == [];
  }

  lemma {:induction false} WordTextsAppend(a: seq<Word>, b: seq<Word>)
    ensures WordTexts(a + b) == WordTexts(a) + WordTexts(b)
  {
  }

  lemma {:induction false} RunOpenBody(st: Scan, body: seq<Child>, lex: Lexicon)
    requires IsOpen(st)
    requires forall k :: 0 <= k < |body| ==> InertOpen(body[k], st.currentId.value)
    ensures Run(st, body, lex) == st.(words := st.words + WordsOf(body, lex),
                                      frags := st.frags + WordTexts(WordsOf(body, lex)))
    decreases |body|
  {
    if body == [] {
      assert st.words + [] == st.words;
      assert st.frags + [] == st.frags;
    } else {
      var n := |body| - 1;
      var init := body[..n];
      assert forall k :: 0 <= k < |init| ==> init[k] == body[k];
      RunOpenBody(st, init, lex);
      var mid := Run(st, init, lex);
      var a := WordsOf(init, lex);
      var b := WordsOf([body[n]], lex);
      assert mid == st.(words := st.words + a, frags := st.frags + WordTexts(a));
      StepOpenInert(mid, body[n], lex);
      assert Run(st, body, lex) == Step(mid, body[n], lex);
      WordsOfSnoc(body, lex);
      WordTextsAppend(a, b);
      Assoc(st.words, a, b);
      Assoc(st.frags, WordTexts(a), WordTexts(b));
    }
  }

  lemma {:induction false} RunSingle(st: Scan, c: Child, lex: Lexicon)
    ensures Run(st, [c], lex) == Step(st, c, lex)
  {
    assert [c][..0] == [];
  }

  /** The state after the spans: closed with every span's verse sealed, or, when the
      last span has no end marker, that span's verse still open. */
  predicate SpansScanned(st: Scan, spans: seq<Span>, lex: Lexicon)
    requires forall k :: 0 <= k < |spans| ==> ValidSpan(spans[k])
  {
    if spans == [] || spans[|spans| - 1].end.Some? then
      !IsOpen(st) && st.verses == SpanVerses(spans, lex)
    else
      var sp := spans[|spans| - 1];
      assert ValidSpan(sp);
      st.verses == SpanVerses(spans[..|spans| - 1], lex) && st.currentId == sp.start.osisID
      && st.words == WordsOf(sp.body, lex) && st.frags == WordTexts(st.words)
  }

  /** The children before a start marker change nothing, and the marker seals the open
      verse, if any, and opens its own. */
  lemma {:induction false} RunGapStart(st: Scan, sp: Span, lex: Lexicon)
    requires ValidSpan(sp)
    requires IsOpen(st) ==> sp.gap == []
    ensures Run(st, sp.gap + [sp.start], lex) == Scan(Finish(st), sp.start.osisID, [], [])
  {
    RunAppend(st, sp.gap, [sp.start], lex);
    if !IsOpen(st) {
      RunClosedGap(st, sp.gap, lex);
    }
    RunSingle(Run(st, sp.gap, lex), sp.start, lex);
  }

  /** From the start marker on, a span's children add its words and, with an end
      marker, seal its verse. */
  lemma {:induction false} RunBodyEnd(vs: seq<Verse>, sp: Span, lex: Lexicon)
    requires ValidSpan(sp)
    ensures var st := Run(Scan(vs, sp.start.osisID, [], []), sp.body + (if sp.end.Some? then [sp.end.value] else []), lex);
      if sp.end.Some? then st == Scan(vs + [SpanVerse(sp, lex)], None, WordsOf(sp.body, lex), WordTexts(WordsOf(sp.body, lex)))
      else st == Scan(vs, sp.start.osisID, WordsOf(sp.body, lex), WordTexts(WordsOf(sp.body, lex)))
  {
    var st0 := Scan(vs, sp.start.osisID, [], []);
    RunOpenBody(st0, sp.body, lex);
    var ws := WordsOf(sp.body, lex);
    assert [] + ws == ws;
    assert [] + WordTexts(ws) == WordTexts(ws);
    var st1 := Run(st0, sp.body, lex);
    assert st1 == Scan(vs, sp.start.osisID, ws, WordTexts(ws));
    if sp.end.Some? {
      RunAppend(st0, sp.body, [sp.end.value], lex);
      RunSingle(st1, sp.end.value, lex);
      assert Seal(st1) == SpanVerse(sp, lex);
    } else {
      assert sp.body + [] == sp.body;
    }
  }

  lemma {:induction false} SpanChildrenSplit(sp: Span)
    ensures SpanChildren(sp) == (sp.gap + [sp.start]) + (sp.body + (if sp.end.Some? then [sp.end.value] else []))
  {
  }

  /** Closing the chapter after some spans gives their verses; a verse is still open
      only when the last span has no end marker. */
  lemma {:induction false} FinishScanned(st: Scan, spans: seq<Span>, lex: Lexicon)
    requires ValidSpans(spans) && SpansScanned(st, spans, lex)
    ensures Finish(st) == SpanVerses(spans, lex)
    ensures IsOpen(st) ==> spans != [] && spans[|spans| - 1].end.None?
  {
    if spans != [] && spans[|spans| - 1].end.None? {
      assert Seal(st) == SpanVerse(spans[|spans| - 1], lex);
    }
  }

  /** Scanning one more span: its gap and start marker close what is open and open
      the span's verse. */
  lemma {:induction false} RunSpanStart(spans: seq<Span>, lex: Lexicon)
    requires ValidSpans(spans) && spans != []
    requires var init := spans[..|spans| - 1];
      ValidSpans(init) && SpansScanned(Run(Initial, Concat(init), lex), init, lex)
    ensures var init := spans[..|spans| - 1];
      var sp := spans[|spans| - 1];
      var st0 := Run(Initial, Concat(init), lex);
      Finish(st0) == SpanVerses(init, lex)
      && Run(Initial, Concat(spans), lex)
         == Run(Scan(Finish(st0), sp.start.osisID, [], []),
                sp.body + (if sp.end.Some? then [sp.end.value] else []), lex)
  {
    var n := |spans| - 1;
    var init := spans[..n];
    var sp := spans[n];
    var pre := Concat(init);
    var st0 := Run(Initial, pre, lex);
    FinishScanned(st0, init, lex);
    assert IsOpen(st0) ==> sp.gap == [];
    var tail := sp.body + (if sp.end.Some? then [sp.end.value] else []);
    assert Concat(spans) == pre + SpanChildren(sp);
    SpanChildrenSplit(sp);
    RunAppend(Initial, pre, SpanChildren(sp), lex);
    RunAppend(st0, sp.gap + [sp.start], tail, lex);
    RunGapStart(st0, sp, lex);
  }

  lemma {:induction false} RunSpans(spans: seq<Span>, lex: Lexicon)
    requires ValidSpans(spans)
    ensures SpansScanned(Run(Initial, Concat(spans), lex), spans, lex)
    decreases |spans|
  {
    if spans != [] {
      var n := |spans| - 1;
      var init := spans[..n];
      var sp := spans[n];
      assert forall k :: 0 <= k < |init| ==> init[k] == spans[k];
      assert ValidSpans(init);
      RunSpans(init, lex);
      RunSpanStart(spans, lex);
      var st0 := Run(Initial, Concat(init), lex);
      RunBodyEnd(Finish(st0), sp, lex);
      assert SpanVerses(spans, lex) == SpanVerses(init, lex) + [SpanVerse(sp, lex)];
    }
  }

  /** For a chapter made of verses, each opened by its start marker and closed by its
      end marker, by the next start marker or by the end of the chapter, the state
      machine yields exactly the nested reading: one verse per span, in order, holding
      the words of its own children. Words outside every verse, `w` elements with
      empty text, other elements and end markers of other verses are dropped, and
      `sID` takes precedence over `eID`. */
  lemma {:induction false} ChapterBySpans(spans: seq<Span>, lex: Lexicon)
    requires ValidSpans(spans)
    ensures ScanChapter(Concat(spans), lex) == SpanVerses(spans, lex)
    ensures |ScanChapter(Concat(spans), lex)| == |spans|
  {
    RunSpans(spans, lex);
    var st := Run(Initial, Concat(spans), lex);
    if spans != [] && spans[|spans| - 1].end.None? {
      assert Seal(st) == SpanVerse(spans[|spans| - 1], lex);
    }
  }

  /** Children after the last closed verse (other elements, words, unmatched end
      markers) are ignored, and so is a chapter with no start marker at all: the
      chapter still yields exactly one verse per span. */
  lemma {:induction false} ChapterBySpansTail(spans: seq<Span>, tail: seq<Child>, lex: Lexicon)
    requires ValidSpans(spans)
    requires forall k :: 0 <= k < |tail| ==> InertClosed(tail[k])
    requires tail != [] && spans != [] ==> spans[|spans| - 1].end.Some?
    ensures ScanChapter(Concat(spans) + tail, lex) == SpanVerses(spans, lex)
  {
    RunSpans(spans, lex);
    var st := Run(Initial, Concat(spans), lex);
    FinishScanned(st, spans, lex);
    RunAppend(Initial, Concat(spans), tail, lex);
    if tail != [] {
      RunClosedGap(st, tail, lex);
    }
  }

  /** Two consecutive spans, the first one closed. */
  lemma {:induction false} TwoSpans(sp1: Span, sp2: Span, lex: Lexicon)
    requires ValidSpan(sp1) && ValidSpan(sp2) && sp1.end.Some?
    ensures ScanChapter(SpanChildren(sp1) + SpanChildren(sp2), lex) == [SpanVerse(sp1, lex), SpanVerse(sp2, lex)]
  {
    var spans := [sp1, sp2];
    assert spans[..1] == [sp1];
    assert spans[..1][..0] == [];
    assert Concat([sp1]) == SpanChildren(sp1);
    assert Concat(spans) == SpanChildren(sp1) + SpanChildren(sp2);
    ChapterBySpans(spans, lex);
    assert SpanVerses(spans[..1], lex) == [SpanVerse(sp1, lex)];
  }

  /** A verse whose only child is a word with text. */
  lemma {:induction false} OneWordSpan(sp: Span, lex: Lexicon)
    requires ValidSpan(sp) && |sp.body| == 1 && sp.body[0].W? && WordText(sp.body[0].text) != ""
    ensures var w := sp.body[0];
      SpanVerse(sp, lex).wordsInfo == [MakeWord(WordText(w.text), w.lemmaAttr, w.morphAttr, lex)]
      && SpanVerse(sp, lex).verseText == WordText(w.text)
  {
    var w := sp.body[0];
    var t := WordText(w.text);
    var mk := MakeWord(t, w.lemmaAttr, w.morphAttr, lex);
    assert sp.body[..0] == [];
    assert WordsOf(sp.body, lex) == [mk];
    assert WordTexts([mk]) == [t];
    assert Join([t], " ") == t;
    StripOfStripped(t);
  }

  /** Start V1, word "Εν", end V1, start V2, word "ἀρχῇ", end V2: two verses, in
      order, each with its one word and that word as its text. */
  lemma {:induction false} TwoVerseChapter(cs: seq<Child>, lex: Lexicon)
    requires cs == [VerseEl(Some("V1"), None, Some("V1")), W(Some("Εν"), Some("lemma:ἐν"), None),
                    VerseEl(None, Some("V1"), None), VerseEl(Some("V2"), None, Some("V2")),
                    W(Some("ἀρχῇ"), None, None), VerseEl(None, Some("V2"), None)]
    ensures var vs := ScanChapter(cs, lex);
      && |vs| == 2
      && vs[0].verseId == "V1" && vs[0].verseText == "Εν" && |vs[0].wordsInfo| == 1
      && vs[0].wordsInfo[0].text == "Εν"
      && vs[1].verseId == "V2" && vs[1].verseText == "ἀρχῇ" && |vs[1].wordsInfo| == 1
      && vs[1].wordsInfo[0].text == "ἀρχῇ"
  {
    var sp1 := Span([], cs[0], [cs[1]], Some(cs[2]));
    var sp2 := Span([], cs[3], [cs[4]], Some(cs[5]));
    assert WordText(cs[1].text) == "Εν" by { StripOfStripped("Εν"); }
    assert WordText(cs[4].text) == "ἀρχῇ" by { StripOfStripped("ἀρχῇ"); }
    assert ValidSpan(sp1);
    assert ValidSpan(sp2);
    assert SpanChildren(sp1) == cs[..3];
    assert SpanChildren(sp2) == cs[3..];
    assert cs[..3] + cs[3..] == cs;
    TwoSpans(sp1, sp2, lex);
    OneWordSpan(sp1, lex);
    OneWordSpan(sp2, lex);
  }
}
