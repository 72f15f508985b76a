/**
 * `load_all_content`: walks the books, their chapters and each chapter's
 * children, and builds the ordered mapping book -> chapter -> verses. A missing
 * document is an empty list of books, a missing lexicon an empty list of entries.
 */
module Corpus {
  import opened Wrappers
  import opened Text
  import opened Markup
  import opened OrderedMaps
  import opened Strongs
  import opened Words
  import opened Verses

  /** A book's chapters, keyed by sanitised chapter id. */
  type BookContent = OrderedMap<seq<Verse>>
  /** The whole result, keyed by sanitised book name. */
  type AllContent = OrderedMap<BookContent>

  /** `s.replace(".", "_")`, applied to book names and chapter ids. */
  function Sanitize(s: string): (t: string) {
    Replace(s, ".", "_")
  }

  /** Sanitising turns every `.` into `_` and keeps every other character, so the
      result holds no `.`. */
  lemma {:induction false} SanitizeSpec(s: string)
    ensures |Sanitize(s)| == |s|
    ensures forall k :: 0 <= k < |s| ==> Sanitize(s)[k] == (if s[k] == '.' then '_' else s[k])
    ensures '.' !in Sanitize(s)
  {
    ReplaceChar(s, '.', '_');
  }

  /** The name a book is stored under before sanitising: the text of its `title`
      element when it has one, its `osisID` otherwise. */
  function BookTitle(b: Book): (t: Option<string>) {
    match b.title
    case Found(text) => text
    case NotFound => b.osisID
  }

  /** The chapters of every book that is kept have an `osisID`; otherwise `.replace`
      is called on `None` and the build fails. */
  predicate Parsable(books: seq<Book>) {
    forall i :: 0 <= i < |books| ==> Truthy(BookTitle(books[i])) ==>
      forall j :: 0 <= j < |books[i].chapters| ==> books[i].chapters[j].osisID.Some?
  }

  predicate ChaptersIdentified(chapters: seq<Chapter>) {
    forall j :: 0 <= j < |chapters| ==> chapters[j].osisID.Some?
  }

  /** The assignments `book[chapter id] = verses`, one per chapter, in order. */
  function ChapterPairs(chapters: seq<Chapter>, lex: Lexicon): (ps: seq<(string, seq<Verse>)>)
    requires ChaptersIdentified(chapters)
    ensures |ps| == |chapters|
    decreases |chapters|
  {
    if chapters == [] then []
    else
      var init := chapters[..|chapters| - 1];
      var c := chapters[|chapters| - 1];
      assert forall j :: 0 <= j < |init| ==> init[j] == chapters[j];
      ChapterPairs(init, lex) + [(Sanitize(c.osisID.value), ScanChapter(c.children, lex))]
  }

  function BookContentOf(b: Book, lex: Lexicon): (content: BookContent)
    requires ChaptersIdentified(b.chapters)
  {
    FromPairs(ChapterPairs(b.chapters, lex))
  }

  /** The assignments `all_content[name] = chapters`, one per kept book, in order. */
  function BookPairs(books: seq<Book>, lex: Lexicon): (ps: seq<(string, BookContent)>)
    requires Parsable(books)
    decreases |books|
  {
    if books == [] then []
    else
      var init := books[..|books| - 1];
      var b := books[|books| - 1];
      assert forall i :: 0 <= i < |init| ==> init[i] == books[i];
      BookPairs(init, lex)
      + (if Truthy(BookTitle(b)) then [(Sanitize(BookTitle(b).value), BookContentOf(b, lex))] else [])
  }

  function AllContentOf(books: seq<Book>, lex: Lexicon): (content: AllContent)
    requires Parsable(books)
  {
    FromPairs(BookPairs(books, lex))
  }

  // ----- Book and chapter keys -----

  /** The sanitised names of the kept books, in document order, repeats included. */
  function BookNames(books: seq<Book>): (ns: seq<string>)
    decreases |books|
  {
    if books == [] then []
    else
      var b := books[|books| - 1];
      BookNames(books[..|books| - 1]) + (if Truthy(BookTitle(b)) then [Sanitize(BookTitle(b).value)] else [])
  }

  /** The sanitised ids of the chapters, in document order, repeats included. */
  function ChapterNames(chapters: seq<Chapter>): (ns: seq<string>)
    requires ChaptersIdentified(chapters)
    ensures |ns| == |chapters|
    ensures forall j :: 0 <= j < |chapters| ==> ns[j] == Sanitize(chapters[j].osisID.value)
  {
    seq(|chapters|, j requires 0 <= j < |chapters| && ChaptersIdentified(chapters) => Sanitize(chapters[j].osisID.value))
  }

  lemma {:induction false} BookPairsKeys(books: seq<Book>, lex: Lexicon)
    requires Parsable(books)
    ensures Keys(BookPairs(books, lex)) == BookNames(books)
    decreases |books|
  {
    if books != [] {
      var n := |books| - 1;
      ParsablePrefix(books, n);
      BookPairsKeys(books[..n], lex);
    }
  }

  /** The `j`-th assignment stores chapter `j`'s verses under its sanitised id. */
  lemma {:induction false} ChapterPairsAt(chapters: seq<Chapter>, lex: Lexicon, j: nat)
    requires ChaptersIdentified(chapters) && j < |chapters|
    ensures ChapterPairs(chapters, lex)[j]
            == (Sanitize(chapters[j].osisID.value), ScanChapter(chapters[j].children, lex))
    decreases |chapters|
  {
    var n := |chapters| - 1;
    var init := chapters[..n];
    assert forall i :: 0 <= i < n ==> init[i] == chapters[i];
    if j < n {
      ChapterPairsAt(init, lex, j);
      assert ChapterPairs(chapters, lex)[j] == ChapterPairs(init, lex)[j];
    }
  }

  lemma {:induction false} ChapterPairsKeys(chapters: seq<Chapter>, lex: Lexicon)
    requires ChaptersIdentified(chapters)
    ensures Keys(ChapterPairs(chapters, lex)) == ChapterNames(chapters)
  {
    forall j | 0 <= j < |chapters|
      ensures Keys(ChapterPairs(chapters, lex))[j] == ChapterNames(chapters)[j]
    {
      ChapterPairsAt(chapters, lex, j);
    }
  }

  /** The book keys are the kept books' sanitised names in order of first appearance,
      each once and none holding a `.`. */
  lemma {:induction false} AllContentKeys(books: seq<Book>, lex: Lexicon)
    requires Parsable(books)
    ensures Keys(AllContentOf(books, lex)) == Dedup(BookNames(books))
    ensures Distinct(Keys(AllContentOf(books, lex)))
    ensures forall k :: k in Keys(AllContentOf(books, lex)) ==> '.' !in k
  {
    FromPairsKeys(BookPairs(books, lex));
    BookPairsKeys(books, lex);
    DedupFacts(BookNames(books));
    BookNamesSanitized(books);
  }

  lemma {:induction false} BookNamesSanitized(books: seq<Book>)
    ensures forall k :: k in BookNames(books) ==> '.' !in k
    decreases |books|
  {
    if books != [] {
      var n := |books| - 1;
      BookNamesSanitized(books[..n]);
      if Truthy(BookTitle(books[n])) {
        SanitizeSpec(BookTitle(books[n]).value);
      }
    }
  }

  /** A book's chapter keys are its sanitised chapter ids in order of first appearance,
      each once and none holding a `.`. */
  lemma {:induction false} BookContentKeys(b: Book, lex: Lexicon)
    requires ChaptersIdentified(b.chapters)
    ensures Keys(BookContentOf(b, lex)) == Dedup(ChapterNames(b.chapters))
    ensures Distinct(Keys(BookContentOf(b, lex)))
    ensures forall k :: k in Keys(BookContentOf(b, lex)) ==> '.' !in k
  {
    FromPairsKeys(ChapterPairs(b.chapters, lex));
    ChapterPairsKeys(b.chapters, lex);
    DedupFacts(ChapterNames(b.chapters));
    forall k | k in Keys(BookContentOf(b, lex)) ensures '.' !in k {
      var j :| 0 <= j < |b.chapters| && ChapterNames(b.chapters)[j] == k;
      SanitizeSpec(b.chapters[j].osisID.value);
    }
  }

  /** A chapter whose id no later chapter of the book shares is the verse list stored
      under that id; a later chapter of the same id would replace it in place. */
  lemma {:induction false} ChapterLastWins(b: Book, lex: Lexicon, j: nat)
    requires ChaptersIdentified(b.chapters) && j < |b.chapters|
    requires Sanitize(b.chapters[j].osisID.value) !in ChapterNames(b.chapters)[j + 1..]
    ensures Get(BookContentOf(b, lex), Sanitize(b.chapters[j].osisID.value))
            == Some(ScanChapter(b.chapters[j].children, lex))
  {
    var ps := ChapterPairs(b.chapters, lex);
    var k := Sanitize(b.chapters[j].osisID.value);
    ChapterPairsAt(b.chapters, lex, j);
    forall l | j < l < |ps| ensures ps[l].0 != k {
      ChapterPairsAt(b.chapters, lex, l);
      assert ChapterNames(b.chapters)[l] in ChapterNames(b.chapters)[j + 1..];
    }
    LastValueAt(ps, j);
    FromPairsGet(ps, k);
  }

  /** A kept book whose name no later kept book shares is the content stored under
      that name: a later book of the same name would replace it, and the reset of
      `all_content[name]` drops the earlier book's chapters. */
  lemma {:induction false} BookLastWins(books: seq<Book>, lex: Lexicon, i: nat)
    requires Parsable(books) && i < |books| && Truthy(BookTitle(books[i]))
    requires Sanitize(BookTitle(books[i]).value) !in BookNames(books[i + 1..])
    ensures Get(AllContentOf(books, lex), Sanitize(BookTitle(books[i]).value))
            == Some(BookContentOf(books[i], lex))
    decreases |books|
  {
    var k := Sanitize(BookTitle(books[i]).value);
    FromPairsGet(BookPairs(books, lex), k);
    BookLastValue(books, lex, i);
  }

  /** A kept book that wins its name is stored under its sanitised title text when it
      has a `title` element, and under its sanitised `osisID` when it has none. */
  lemma {:induction false} BookTitleStored(books: seq<Book>, lex: Lexicon, i: nat)
    requires Parsable(books) && i < |books| && Truthy(BookTitle(books[i]))
    requires Sanitize(BookTitle(books[i]).value) !in BookNames(books[i + 1..])
    ensures books[i].title.Found? ==>
      Get(AllContentOf(books, lex), Sanitize(books[i].title.text.value)) == Some(BookContentOf(books[i], lex))
    ensures books[i].title.NotFound? ==>
      Get(AllContentOf(books, lex), Sanitize(books[i].osisID.value)) == Some(BookContentOf(books[i], lex))
  {
    BookLastWins(books, lex, i);
  }

  lemma {:induction false} BookNamesSplit(books: seq<Book>, i: nat)
    requires i < |books|
    ensures BookNames(books[i..]) == BookNames(books[i..|books| - 1]) + BookNames([books[|books| - 1]])
  {
    var n := |books| - 1;
    var t := books[i..];
    assert t[..|t| - 1] == books[i..n];
    assert t[|t| - 1] == books[n];
    assert [books[n]][..0] == [];
  }

  /** The pairs of `books` are those of all books but the last, then the last book's
      pair if it is kept. */
  lemma {:induction false} BookPairsSnoc(books: seq<Book>, lex: Lexicon)
    requires Parsable(books) && books != []
    ensures Parsable(books[..|books| - 1])
    ensures var b := books[|books| - 1];
      BookPairs(books, lex) == BookPairs(books[..|books| - 1], lex)
        + (if Truthy(BookTitle(b)) then [(Sanitize(BookTitle(b).value), BookContentOf(b, lex))] else [])
  {
    ParsablePrefix(books, |books| - 1);
  }

  /** A last book not stored under `k` leaves the last value of `k` alone. */
  lemma {:induction false} BookLastValueSkip(books: seq<Book>, lex: Lexicon, k: string)
    requires Parsable(books) && books != []
    requires var b := books[|books| - 1]; Truthy(BookTitle(b)) ==> Sanitize(BookTitle(b).value) != k
    ensures Parsable(books[..|books| - 1])
    ensures LastValue(BookPairs(books, lex), k) == LastValue(BookPairs(books[..|books| - 1], lex), k)
  {
    BookPairsSnoc(books, lex);
    var ps := BookPairs(books, lex);
    var prev := BookPairs(books[..|books| - 1], lex);
    var b := books[|books| - 1];
    if Truthy(BookTitle(b)) {
      assert ps[..|ps| - 1] == prev;
      assert ps[|ps| - 1].0 == Sanitize(BookTitle(b).value);
    } else {
      assert ps == prev;
    }
  }

  /** The names after `i` without the last book are a part of the names after `i`. */
  lemma {:induction false} BookNamesInit(books: seq<Book>, i: nat, k: string)
    requires i + 1 < |books|
    requires k !in BookNames(books[i + 1..])
    ensures k !in BookNames(books[..|books| - 1][i + 1..])
    ensures var b := books[|books| - 1]; Truthy(BookTitle(b)) ==> Sanitize(BookTitle(b).value) != k
  {
    var n := |books| - 1;
    BookNamesSplit(books, i + 1);
    assert books[i + 1..n] == books[..n][i + 1..];
    assert [books[n]][..0] == [];
  }

  lemma {:induction false} BookLastValue(books: seq<Book>, lex: Lexicon, i: nat)
    requires Parsable(books) && i < |books| && Truthy(BookTitle(books[i]))
    requires Sanitize(BookTitle(books[i]).value) !in BookNames(books[i + 1..])
    ensures LastValue(BookPairs(books, lex), Sanitize(BookTitle(books[i]).value))
            == Some(BookContentOf(books[i], lex))
    decreases |books|
  {
    var n := |books| - 1;
    var k := Sanitize(BookTitle(books[i]).value);
    if i < n {
      BookNamesInit(books, i, k);
      ParsablePrefix(books, n);
      assert books[..n][i] == books[i];
      BookLastValue(books[..n], lex, i);
      BookLastValueSkip(books, lex, k);
    } else {
      BookLastValueLast(books, lex);
    }
  }

  /** The last book, when kept, is the last value of its name. */
  lemma {:induction false} BookLastValueLast(books: seq<Book>, lex: Lexicon)
    requires Parsable(books) && books != [] && Truthy(BookTitle(books[|books| - 1]))
    ensures var b := books[|books| - 1];
      LastValue(BookPairs(books, lex), Sanitize(BookTitle(b).value)) == Some(BookContentOf(b, lex))
  {
    BookPairsSnoc(books, lex);
  }

  lemma {:induction false} RunNext(cs: seq<Child>, e: nat, lex: Lexicon)
    requires e < |cs|
    ensures Run(Initial, cs[..e + 1], lex) == Step(Run(Initial, cs[..e], lex), cs[e], lex)
  {
    assert cs[..e + 1][..e] == cs[..e];
  }

  lemma {:induction false} ParsablePrefix(books: seq<Book>, b: nat)
    requires Parsable(books) && b <= |books|
    ensures Parsable(books[..b])
  {
    assert forall i :: 0 <= i < b ==> books[..b][i] == books[i];
  }

  lemma {:induction false} BookPairsNext(books: seq<Book>, b: nat, lex: Lexicon)
    requires Parsable(books) && b < |books|
    ensures Parsable(books[..b]) && Parsable(books[..b + 1])
    ensures var bk := books[b];
      FromPairs(BookPairs(books[..b + 1], lex))
      == if Truthy(BookTitle(bk)) then Put(FromPairs(BookPairs(books[..b], lex)), Sanitize(BookTitle(bk).value), BookContentOf(bk, lex))
         else FromPairs(BookPairs(books[..b], lex))
  {
    ParsablePrefix(books, b);
    ParsablePrefix(books, b + 1);
    assert books[..b + 1][..b] == books[..b];
    assert books[..b + 1][b] == books[b];
    var ps := BookPairs(books[..b + 1], lex);
    var prev := BookPairs(books[..b], lex);
    var bk := books[b];
    if Truthy(BookTitle(bk)) {
      var p := (Sanitize(BookTitle(bk).value), BookContentOf(bk, lex));
      assert ps == prev + [p];
      assert ps[..|ps| - 1] == prev;
      assert ps[|ps| - 1] == p;
    } else {
      assert ps == prev;
    }
  }

  lemma {:induction false} ChapterPairsNext(chapters: seq<Chapter>, c: nat, lex: Lexicon)
    requires ChaptersIdentified(chapters) && c < |chapters|
    ensures ChaptersIdentified(chapters[..c]) && ChaptersIdentified(chapters[..c + 1])
    ensures FromPairs(ChapterPairs(chapters[..c + 1], lex))
      == Put(FromPairs(ChapterPairs(chapters[..c], lex)), Sanitize(chapters[c].osisID.value),
             ScanChapter(chapters[c].children, lex))
  {
    assert forall j :: 0 <= j < c + 1 ==> chapters[..c + 1][j] == chapters[j];
    assert chapters[..c + 1][..c] == chapters[..c];
    var ps := ChapterPairs(chapters[..c + 1], lex);
    assert ps[..|ps| - 1] == ChapterPairs(chapters[..c], lex);
  }

  lemma {:induction false} StepWord(st: Scan, c: Child, lex: Lexicon)
    requires c.W? && IsOpen(st) && WordText(c.text) != ""
    ensures var attr := AttrOr(c.lemmaAttr, "");
      var w := Word(WordText(c.text), GreekLemma(attr), StrongNumber(attr),
                    Replace(AttrOr(c.morphAttr, ""), MorphPrefix, ""),
                    Lookup(lex, StrongNumber(attr)));
      Step(st, c, lex) == Scan(st.verses, st.currentId, st.words + [w], st.frags + [WordText(c.text)])
  {
  }

  /** Storing a chapter's verses into the book that is being filled. */
  lemma {:induction false} ChapterStored(m: AllContent, key: string, chapters: seq<Chapter>, c: nat, lex: Lexicon)
    requires ChaptersIdentified(chapters) && c < |chapters|
    ensures ChaptersIdentified(chapters[..c]) && ChaptersIdentified(chapters[..c + 1])
    ensures var done := FromPairs(ChapterPairs(chapters[..c], lex));
      var book := Put(m, key, done);
      Get(book, key) == Some(done)
      && Put(book, key, Put(done, Sanitize(chapters[c].osisID.value), ScanChapter(chapters[c].children, lex)))
         == Put(m, key, FromPairs(ChapterPairs(chapters[..c + 1], lex)))
  {
    ChapterPairsNext(chapters, c, lex);
    var done := FromPairs(ChapterPairs(chapters[..c], lex));
    PutPut(m, key, done, Put(done, Sanitize(chapters[c].osisID.value), ScanChapter(chapters[c].children, lex)));
  }

  /** The body of the chapter loop of `load_all_content`: the verse milestone state
      machine over the chapter's children, then the sealing of a verse left open. */
  method LoadChapter(children: seq<Child>, strongsDict: Lexicon) returns (chapterContent: seq<Verse>)
    ensures chapterContent == ScanChapter(children, strongsDict)
  {
    chapterContent := [];
    var currentVerseId: Option<string> := None;
    var currentWordsInfo: seq<Word> := [];
    var currentVerseText: seq<string> := [];
    for e := 0 to |children|
      invariant Scan(chapterContent, currentVerseId, currentWordsInfo, currentVerseText)
                == Run(Initial, children[..e], strongsDict)
    {
      var element := children[e];
      RunNext(children, e, strongsDict);
      ghost var prev := Scan(chapterContent, currentVerseId, currentWordsInfo, currentVerseText);
      match element {
        case VerseEl(sID, eID, osisID) =>
          if Truthy(sID) {
            if Truthy(currentVerseId) {
              chapterContent := chapterContent
                + [Verse(currentVerseId.value, VerseText(currentVerseText), currentWordsInfo)];
            }
            currentVerseId := osisID;
            currentWordsInfo := [];
            currentVerseText := [];
          } else if Truthy(eID) {
            if Truthy(currentVerseId) && eID == currentVerseId {
              chapterContent := chapterContent
                + [Verse(currentVerseId.value, VerseText(currentVerseText), currentWordsInfo)];
              currentVerseId := None;
            }
          }
        case W(text, lemmaAttr, morphAttr) =>
          if Truthy(currentVerseId) {
            var wordText := if Truthy(text) then Strip(text.value) else "";
            if wordText != "" {
              currentVerseText := currentVerseText + [wordText];
              var lemmaAttrValue := AttrOr(lemmaAttr, "");
              var strongNumber := StrongNumber(lemmaAttrValue);
              var greekLemma := GreekLemma(lemmaAttrValue);
              var wordData := Word(wordText, greekLemma, strongNumber,
                                   Replace(AttrOr(morphAttr, ""), MorphPrefix, ""),
                                   Lookup(strongsDict, strongNumber));
              currentWordsInfo := currentWordsInfo + [wordData];
              StepWord(prev, element, strongsDict);
            }
          }
        case Other =>
      }
    }
    assert children[..|children|] == children;
    if Truthy(currentVerseId) {
      chapterContent := chapterContent
        + [Verse(currentVerseId.value, VerseText(currentVerseText), currentWordsInfo)];
    }
  }

  /** The book part of the loop of `load_all_content`: `all_content[name]` is reset to
      an empty mapping, then every chapter's verses are stored under its sanitised id. */
  method LoadBook(allContent: AllContent, sanitizedBookTitle: string, chapters: seq<Chapter>,
                  strongsDict: Lexicon) returns (updated: AllContent)
    requires ChaptersIdentified(chapters)
    ensures updated == Put(allContent, sanitizedBookTitle, FromPairs(ChapterPairs(chapters, strongsDict)))
  {
    updated := Put(allContent, sanitizedBookTitle, []);
    for c := 0 to |chapters|
      invariant ChaptersIdentified(chapters[..c])
      invariant updated ==
        Put(allContent, sanitizedBookTitle, FromPairs(ChapterPairs(chapters[..c], strongsDict)))
    {
      var chapter := chapters[c];
      var chapterId := chapter.osisID.value;
      var sanitizedChapterId := Replace(chapterId, ".", "_");
      var chapterContent := LoadChapter(chapter.children, strongsDict);
      ChapterStored(allContent, sanitizedBookTitle, chapters, c, strongsDict);
      var current := Get(updated, sanitizedBookTitle).value;
      updated := Put(updated, sanitizedBookTitle, Put(current, sanitizedChapterId, chapterContent));
    }
    assert chapters[..|chapters|] == chapters;
  }

  /** `load_all_content`, over already parsed lexicon entries and books. */
  method LoadAllContent(entries: seq<Entry>, books: seq<Book>) returns (allContent: AllContent)
    requires Loadable(entries)
    requires Parsable(books)
    ensures allContent == AllContentOf(books, LexiconOf(entries))
  {
    var strongsDict := LoadStrongs(entries);
    allContent := [];
    ParsablePrefix(books, 0);
    for b := 0 to |books|
      invariant Parsable(books[..b])
      invariant allContent == FromPairs(BookPairs(books[..b], strongsDict))
    {
      var book := books[b];
      BookPairsNext(books, b, strongsDict);
      var bookTitle := if book.title.Found? then book.title.text else book.osisID;
      if Truthy(bookTitle) {
        var sanitizedBookTitle := Replace(bookTitle.value, ".", "_");
        assert ChaptersIdentified(book.chapters);
        allContent := LoadBook(allContent, sanitizedBookTitle, book.chapters, strongsDict);
      }
    }
    assert books[..|books|] == books;
  }
}
