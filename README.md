# Tischendorf Greek New Testament corpus builder, in Dafny

This project models the data core of the Tischendorf New Testament reader. That core has two parts:

- `load_strongs` turns the Strong's Greek lexicon into a dictionary from Strong's number to definition.
- `load_all_content` turns the OSIS-marked Tischendorf text into an ordered mapping: book, then chapter, then the list of verses.

Each verse has an id, a text and one record per word. A word record holds:

- the surface text;
- the Greek lemma;
- the Strong's number;
- the cleaned Robinson morphology code;
- the lexicon definition.

OSIS marks verses with empty milestone elements: a `verse` element carrying `sID` where the verse starts and one carrying `eID` where it ends. The builder rebuilds the verses with a small state machine over each chapter's children. The state is:

- the open verse id;
- its word records;
- its text fragments.

Modules, one per file:

- `Wrappers` (`wrappers.dfy`): `Option`.
- `Text` (`text.dfy`): the Python `str` operations the builder uses.
  - `strip()` over Python's `isspace` set, and `lstrip('0')`.
  - `in`/`find`, `split`, `join` and `replace`.
  - Lemmas about them: `replace` is `join` of `split`, joining the pieces of `split(sep)` with `sep` gives back the string, and `strip()` is idempotent.
- `OrderedMaps` (`ordered_maps.dfy`): `OrderedDict` as a sequence of key/value pairs.
  - Assigning to a key that is already present replaces its value and keeps its position.
  - A map built by a sequence of assignments has the keys in order of first appearance and the last-assigned values.
- `Markup` (`markup.dfy`): the parsed XML as datatypes, for lexicon entries, books, chapters and chapter children. It also holds Python truthiness and `element.get(name, default)`.
- `Strongs` (`strongs.dfy`): `load_strongs`, as the method `LoadStrongs`, proved against the fold `LexiconOf`.
- `Words` (`words.dfy`): the per-word decomposition.
  - The Strong's number is the search for `G(\d{1,5})`.
  - The Greek lemma is what follows `"lemma:"`.
  - `morph` has every `"robinson:"` removed.
  - The definition is looked up in the lexicon.
- `Verses` (`verses.dfy`): the verse milestone state machine, as a function `Step` folded over a chapter's children by `Run`/`ScanChapter`. It is proved equal, on well-formed chapters, to an independent reading of the chapter as a list of verse spans.
- `Corpus` (`corpus.dfy`): the imperative builder, as three methods whose loops mirror the source's loops:
  - `LoadAllContent`, over books;
  - `LoadBook`, over one book's chapters;
  - `LoadChapter`, over one chapter's children.

  Each method is proved equal to the specification functions `AllContentOf`, `BookContentOf` and `ScanChapter`. Lemmas about those functions give the book and chapter keys, their order and the last-wins rule.

Points where the code is followed exactly:

- A `w` element whose stripped text is empty makes no word record at all, not only no text fragment.
- A book named by its `osisID` (no `title` element) is sanitised like a titled one.
- A `title` element whose text is `None` skips the book. The builder does not fall back to `osisID` in that case.
- Repeating a book name resets that book's chapters (`all_content[name] = OrderedDict()`). The key keeps its first position.
- An end marker leaves the word and text accumulators as they are; only the open id is cleared. This is never observable, because the next start marker clears them.
- The Strong's number taken from a word is looked up without stripping zeros. A zero-padded number therefore never finds a lexicon entry, since every lexicon key has its zeros stripped.
- A lexicon entry whose `strongs` is all zeros (`"0"`, `"000"`) is stored under the empty key `""`. A word without a `G` number has the empty number, so it gets that entry's definition rather than `"No definition available"`.
- A lexicon entry without a `strongs_def` element maps to `""`. An entry whose `strongs_def` has no text maps to `None` (JSON `null`).

## Model

| member | source | states |
|---|---|---|
| Strongs.LoadStrongs | TischendorfNTApp/app.py:15-31 | the loop over lexicon entries builds exactly the lexicon `LexiconOf(entries)`: each entry stored in turn under its zero-stripped key |
| Strongs.EntryKey | TischendorfNTApp/app.py:23 | an entry's key never starts with `'0'` |
| Strongs.EntryDefStored | TischendorfNTApp/app.py:26-29 | the entry that wins its key stores `""` when it has no `strongs_def` element, `None` when the element has no text, and the element's text otherwise |
| Strongs.LexiconKeys | TischendorfNTApp/app.py:21-29 | a key is in the lexicon exactly when it is some entry's zero-stripped `strongs` attribute; this includes entries with no definition |
| Strongs.LexiconLastWins | TischendorfNTApp/app.py:29 | an entry with no later entry of the same key decides that key's definition (the last entry wins) |
| Strongs.LexiconKeysUnpadded | TischendorfNTApp/app.py:23 | no lexicon key starts with `'0'` |
| Strongs.LoveEntry | TischendorfNTApp/app.py:23-29 | entry `"0026"` with definition `"love"` is found under `"26"` |
| Text.LStripZeros | TischendorfNTApp/app.py:23 | `lstrip('0')` leaves no leading `'0'` |
| Text.LStripZerosSuffix | TischendorfNTApp/app.py:23 | `lstrip('0')` removes a prefix made only of zeros and keeps the rest |
| Text.LStripZerosAllZeros | TischendorfNTApp/app.py:23 | `lstrip('0')` of a string made only of zeros is `""` |
| Text.LStripZerosIdempotent | TischendorfNTApp/app.py:23 | normalising a key twice equals normalising it once |
| Text.Strip | TischendorfNTApp/app.py:84 | `strip()` leaves no whitespace at either end and never lengthens |
| Text.StripInfix | TischendorfNTApp/app.py:84 | `strip()` keeps an infix of its input and removes only whitespace around it |
| Text.StripOfStripped | TischendorfNTApp/app.py:63 | a string without whitespace at either end is its own `strip()` |
| Text.StripIdempotent | TischendorfNTApp/app.py:97 | `strip()` is idempotent |
| Text.TrimLeftSuffix | TischendorfNTApp/app.py:84 | the leading part `strip()` removes is all whitespace |
| Text.TrimRightPrefix | TischendorfNTApp/app.py:84 | the trailing part `strip()` removes is all whitespace |
| Text.IndexOf | TischendorfNTApp/app.py:96 | `in`/`find` returns the first occurrence, or none when there is none |
| Text.JoinSplit | TischendorfNTApp/app.py:97 | joining the pieces of `split(sep)` with `sep` gives back the string |
| Text.SplitPiecesFree | TischendorfNTApp/app.py:97 | no piece of `split(sep)` contains `sep` |
| Text.ReplaceIsJoinOfSplit | TischendorfNTApp/app.py:103 | `replace(pat, rep)` replaces every non-overlapping occurrence, left to right: it equals `rep.join(s.split(pat))` |
| Text.ReplaceAbsent | TischendorfNTApp/app.py:103 | `replace` changes nothing when the pattern does not occur |
| Text.ReplaceChar | TischendorfNTApp/app.py:45-50 | replacing one character by another keeps the length and maps each position |
| Text.JoinStripped | TischendorfNTApp/app.py:63 | joining non-empty stripped fragments gives a non-empty string with no whitespace at either end |
| Words.StrongNumber | TischendorfNTApp/app.py:91-92 | the number has at most 5 ASCII digits; it is `""` exactly when no `G` is followed by a digit |
| Words.StrongNumberAt | TischendorfNTApp/app.py:91-92 | the number is the greedy run of 1 to 5 digits right after the first `G` that a digit follows |
| Words.GreekLemmaAfterMarker | TischendorfNTApp/app.py:95-97 | the lemma is the stripped text after the first `"lemma:"`, up to the next `"lemma:"` or the end |
| Words.GreekLemmaAbsent | TischendorfNTApp/app.py:95-96 | without `"lemma:"` the lemma is `""` |
| Words.CleanMorphPieces | TischendorfNTApp/app.py:103 | every occurrence of `"robinson:"` is removed, not only a leading one |
| Words.CleanMorphPrefixed | TischendorfNTApp/app.py:103 | `"robinson:" + code` gives `code`; an absent `morph` gives `""` |
| Words.ZeroEntryMatchesUnnumbered | TischendorfNTApp/app.py:23-104 | an entry whose `strongs` is all zeros is stored under `""`, and a word with no `G` number then gets that entry's definition instead of `"No definition available"` |
| Words.DefinitionResolved | TischendorfNTApp/app.py:104 | a word whose number is the key of the entry that wins that key gets that entry's definition |
| Words.DefinitionMissing | TischendorfNTApp/app.py:104 | a word whose number is no entry's key gets `"No definition available"` |
| Words.PaddedNumberUndefined | TischendorfNTApp/app.py:104 | a word whose number starts with `'0'` never resolves, because the word's number is not zero-stripped |
| Words.LoveWord | TischendorfNTApp/app.py:89-105 | a word tagged `strong:G26 lemma:ἀγάπη`, morph `robinson:N-NSF`, with lexicon `"0026"` = `"love"`, gives lemma `ἀγάπη`, number `26`, morph `N-NSF` and definition `love` |
| Verses.WordText | TischendorfNTApp/app.py:84 | a word's text has no whitespace at either end |
| Verses.StepIds | TischendorfNTApp/app.py:59-79 | one child adds a verse id (emitted or open) exactly when it is a start marker with a truthy `osisID`, and that id is its `osisID`; an end marker only moves the open id into the emitted verses |
| Verses.VerseIdsFollowStarts | TischendorfNTApp/app.py:57-115 | for any chapter, the verse ids are the `osisID`s of the start markers with a truthy `osisID`, in document order and one per marker: every opened verse is sealed once, and an open verse is emitted at the end of the chapter |
| Verses.VerseTextsMatchWords | TischendorfNTApp/app.py:63-106 | for any chapter, every word record has non-empty stripped text and its looked-up definition, and every verse's text is its words' texts joined by single spaces, or `"[No text available]"` when it has no words |
| Verses.ChapterBySpans | TischendorfNTApp/app.py:57-115 | a chapter made of verse spans (start marker, body, optional end marker; a span without an end marker is directly followed by the next start marker) yields exactly one verse per span, in order. Each verse has the span's id, the records of the body's words with text in order, and their joined text |
| Verses.ChapterBySpansTail | TischendorfNTApp/app.py:57-115 | verse spans whose last verse is closed, followed by any children that are not start markers (words, other elements, end markers), yield exactly one verse per span, and the trailing children add nothing; a chapter with no start marker at all yields no verse |
| Verses.TwoVerseChapter | TischendorfNTApp/app.py:57-115 | start V1, word `Εν`, end V1, start V2, word `ἀρχῇ`, end V2 yields verse V1 with text `Εν` and one word, then verse V2 with text `ἀρχῇ` and one word |
| Corpus.SanitizeSpec | TischendorfNTApp/app.py:45-50 | sanitising turns every `.` into `_`, keeps every other character and leaves no `.` |
| Corpus.BookTitleStored | TischendorfNTApp/app.py:43-46 | a kept book that wins its name is stored under its sanitised title text when it has a `title` element, and under its sanitised `osisID` when it has none |
| Corpus.LoadChapter | TischendorfNTApp/app.py:51-115 | the loop over a chapter's children, with its three state variables, yields exactly `ScanChapter(children)` |
| Corpus.LoadBook | TischendorfNTApp/app.py:46-117 | resetting `all_content[name]` and storing each chapter's verses under its sanitised id gives the book content `FromPairs(ChapterPairs(chapters))` at that key |
| Corpus.LoadAllContent | TischendorfNTApp/app.py:33-118 | the builder returns exactly `AllContentOf(books, LexiconOf(entries))` |
| Corpus.AllContentKeys | TischendorfNTApp/app.py:42-46 | the book keys are the sanitised names of the books with a truthy name, in order of first appearance, each once, none holding a `.` |
| Corpus.BookLastWins | TischendorfNTApp/app.py:44-46 | a kept book with no later kept book of the same sanitised name is exactly what is stored under that name; an earlier book of that name leaves no chapters behind |
| Corpus.BookContentKeys | TischendorfNTApp/app.py:48-117 | a book's chapter keys are its sanitised chapter ids in order of first appearance, each once, none holding a `.` |
| Corpus.ChapterLastWins | TischendorfNTApp/app.py:117 | a chapter with no later chapter of the same sanitised id is what is stored under that id |
| OrderedMaps.Get | TischendorfNTApp/app.py:117 | lookup finds nothing exactly when the key is absent |
| OrderedMaps.GetFound | TischendorfNTApp/app.py:117 | a value found under a key is the value of a stored pair with that key |
| OrderedMaps.Put | TischendorfNTApp/app.py:117 | assignment keeps the key order (a new key goes last), stores the value and leaves other keys alone |
| OrderedMaps.PutPut | TischendorfNTApp/app.py:46 | two assignments to one key are one assignment of the second value |
| OrderedMaps.FromPairsKeys | TischendorfNTApp/app.py:46 | a map built by assignments has the assigned keys in order of first appearance |
| OrderedMaps.FromPairsGet | TischendorfNTApp/app.py:46 | each key of a map built by assignments holds the value it was assigned last |
| OrderedMaps.FromPairsDistinct | TischendorfNTApp/app.py:36 | a map built by assignments never lists a key twice |
| OrderedMaps.LastValueAt | TischendorfNTApp/app.py:117 | a pair with no later pair of the same key holds that key's last value |
| OrderedMaps.DedupFacts | TischendorfNTApp/app.py:36 | first-occurrence order lists each key once and only the keys present |

## Left out

- The Flask application, its routes, `render_template` and `jsonify` (app.py:1-7, 122-132) are web plumbing with no logic to prove.
- The file paths and the `os.path.exists` checks (app.py:10-12, 17, 38) are I/O. A missing lexicon file is an empty list of entries, and a missing text file is an empty list of books. For an empty list of books, `LoadAllContent` returns the empty mapping.
- `ET.parse`, the OSIS namespace and the `findall`/`find` XPath queries (app.py:18-21, 26, 34, 39-48) belong to the XML library. The model takes the parsed structure as datatypes in module `Markup`. Only the parts the builder reads are kept, and a chapter's children are the elements `for element in chapter` visits.
- A lexicon entry without a `strongs` attribute, or a chapter of a kept book without an `osisID`, makes the source call a method on `None` and raise an exception (app.py:23, 50). These crash paths are the preconditions `Strongs.Loadable` and `Corpus.Parsable`; the exception itself is not.
- Python's `re` module in general is not modelled. Only the one search `G(\d{1,5})` is written out (`Words.StrongNumber`).
- Words.StrongNumber: `\d` is taken as the ASCII digits `0-9`. Python also matches other Unicode decimal digits there; they are not modelled.
- Text.Strip: whitespace is Python's `str.isspace` set as listed in `Text.IsSpace`.
- The browser script `TischendorfNTApp/static/script.js` (DOM construction, fetch, tooltips, HTML templates) is not part of this model.
- JSON serialisation is not modelled. A word record is the datatype `Words.Word` and a verse the datatype `Verses.Verse`.
- `LoadChapter` and `LoadBook` are separate methods holding the bodies of the source's chapter and book loops. This does not change what is computed.
