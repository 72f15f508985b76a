/**
 * The per-word decomposition of `load_all_content`: the surface text, the Strong's
 * number and Greek lemma packed into the `lemma` attribute, the cleaned `morph`
 * attribute and the lexicon definition.
 */
module Words {
  import opened Wrappers
  import opened Text
  import opened Markup
  import opened Strongs

  /** One entry of a verse's `words_info`. `definition` is `None` where the lexicon
      holds Python's `None`. */
  datatype Word = Word(text: string, greekLemma: string, strong: string, morph: string,
                       definition: Option<string>)

  const LemmaMarker := "lemma:"
  const MorphPrefix := "robinson:"
  const NoDefinition := "No definition available"

  /** The regular expression `G(\d{1,5})` can start matching at index `i`. */
  predicate GAt(s: string, i: nat) {
    i + 1 < |s| && s[i] == 'G' && IsDigit(s[i + 1])
  }

  /** The first index at or after `i` where `G(\d{1,5})` matches. */
  function FirstG(s: string, i: nat): (r: Option<nat>)
    requires i <= |s|
    ensures r.Some? ==> i <= r.value && GAt(s, r.value)
    ensures r.Some? ==> forall k :: i <= k < r.value ==> !GAt(s, k)
    ensures r.None? ==> forall k :: i <= k < |s| ==> !GAt(s, k)
    decreases |s| - i
  {
    if i == |s| then None
    else if GAt(s, i) then Some(i)
    else FirstG(s, i + 1)
  }

  /** How many digits, at most `limit`, follow from index `i`: the greedy `\d{1,limit}`. */
  function DigitRun(s: string, i: nat, limit: nat): (n: nat)
    requires i <= |s|
    ensures n <= limit && i + n <= |s|
    ensures forall k :: i <= k < i + n ==> IsDigit(s[k])
    ensures n < limit && i + n < |s| ==> !IsDigit(s[i + n])
    decreases limit
  {
    if limit == 0 || i == |s| || !IsDigit(s[i]) then 0
    else 1 + DigitRun(s, i + 1, limit - 1)
  }

  /** `re.search(r'G(\d{1,5})', s).group(1)`, or `""` when there is no match. */
  function StrongNumber(s: string): (r: string)
    ensures |r| <= 5
    ensures forall k :: 0 <= k < |r| ==> IsDigit(r[k])
    ensures r == "" <==> forall i :: 0 <= i < |s| ==> !GAt(s, i)
  {
    match FirstG(s, 0)
    case None => ""
    case Some(g) => s[g + 1..g + 1 + DigitRun(s, g + 1, 5)]
  }

  /** The number is the longest run of at most five digits right after the first `G`
      that a digit follows. */
  lemma {:induction false} StrongNumberAt(s: string, i: nat)
    requires GAt(s, i)
    requires forall k :: 0 <= k < i ==> !GAt(s, k)
    ensures var r := StrongNumber(s);
      1 <= |r| <= 5 && i + 1 + |r| <= |s| && r == s[i + 1..i + 1 + |r|]
      && (|r| == 5 || i + 1 + |r| == |s| || !IsDigit(s[i + 1 + |r|]))
  {
    assert FirstG(s, 0) == Some(i);
  }

  /** The Greek lemma: the stripped text after the first `"lemma:"` and up to the
      next one, or `""` when the marker is absent. */
  function GreekLemma(attr: string): (g: string) {
    if IndexOf(attr, LemmaMarker).Some? then Strip(Split(attr, LemmaMarker)[1]) else ""
  }

  /** With the marker at `i` the lemma is the stripped text from after the marker up to
      the next marker or the end. */
  lemma {:induction false} GreekLemmaAfterMarker(attr: string, i: nat)
    requires IndexOf(attr, LemmaMarker) == Some(i)
    ensures var rest := attr[i + |LemmaMarker|..];
      GreekLemma(attr) == Strip(match IndexOf(rest, LemmaMarker)
                                case None => rest
                                case Some(j) => rest[..j])
  {
    var rest := attr[i + |LemmaMarker|..];
    assert Split(attr, LemmaMarker) == [attr[..i]] + Split(rest, LemmaMarker);
  }

  /** Without the marker the lemma is empty. */
  lemma {:induction false} GreekLemmaAbsent(attr: string)
    requires forall k :: 0 <= k <= |attr| ==> !OccursAt(attr, LemmaMarker, k)
    ensures GreekLemma(attr) == ""
  {
    assert IndexOf(attr, LemmaMarker).None?;
  }

  /** The `morph` attribute with every `"robinson:"` removed. */
  function CleanMorph(morph: Option<string>): (code: string) {
    Replace(AttrOr(morph, ""), MorphPrefix, "")
  }

  /** Cleaning removes every occurrence found by `split`: the result is the
      concatenation of the pieces between them. */
  lemma {:induction false} CleanMorphPieces(morph: string)
    ensures CleanMorph(Some(morph)) == Join(Split(morph, MorphPrefix), "")
  {
    ReplaceIsJoinOfSplit(morph, MorphPrefix, "");
  }

  /** A code after a leading prefix comes out bare; an absent attribute gives `""`. */
  lemma {:induction false} CleanMorphPrefixed(code: string)
    requires forall k :: 0 <= k <= |code| ==> !OccursAt(code, MorphPrefix, k)
    ensures CleanMorph(Some(MorphPrefix + code)) == code
    ensures CleanMorph(None) == ""
  {
    var m := MorphPrefix + code;
    assert m[..|MorphPrefix|] == MorphPrefix;
    assert m[|MorphPrefix|..] == code;
    ReplaceAbsent(code, MorphPrefix, "");
  }

  /** `strongs_dict.get(strong, "No definition available")`. */
  function Lookup(lex: Lexicon, strong: string): (d: Option<string>) {
    if strong in lex then lex[strong] else Some(NoDefinition)
  }

  /** The record built for a word element whose stripped text is `wordText`. */
  function MakeWord(wordText: string, lemmaAttr: Option<string>, morph: Option<string>,
                    lex: Lexicon): (w: Word)
  {
    var attr := AttrOr(lemmaAttr, "");
    var strong := StrongNumber(attr);
    Word(wordText, GreekLemma(attr), strong, CleanMorph(morph), Lookup(lex, strong))
  }

  /** A word's number is looked up as extracted, without stripping zeros: a number
      written with a leading zero never finds a lexicon entry. */
  lemma {:induction false} PaddedNumberUndefined(entries: seq<Entry>, wordText: string,
                              lemmaAttr: Option<string>, morph: Option<string>)
    requires Loadable(entries)
    requires var s := StrongNumber(AttrOr(lemmaAttr, "")); s != "" && s[0] == '0'
    ensures MakeWord(wordText, lemmaAttr, morph, LexiconOf(entries)).definition == Some(NoDefinition)
  {
    var s := StrongNumber(AttrOr(lemmaAttr, ""));
    if s in LexiconOf(entries) {
      LexiconKeysUnpadded(entries, s);
    }
  }

  /** A word whose number is the key of a lexicon entry, with no later entry under
      that key, gets that entry's definition. */
  lemma {:induction false} DefinitionResolved(entries: seq<Entry>, i: nat, wordText: string,
                           lemmaAttr: Option<string>, morph: Option<string>)
    requires Loadable(entries) && i < |entries|
    requires EntryKey(entries[i]) == StrongNumber(AttrOr(lemmaAttr, ""))
    requires EntryKeys(entries)[i] !in EntryKeys(entries)[i + 1..]
    ensures MakeWord(wordText, lemmaAttr, morph, LexiconOf(entries)).definition == EntryDef(entries[i])
  {
    LexiconLastWins(entries, i);
  }

  /** A word whose number is no entry's key gets the sentinel definition. */
  lemma {:induction false} DefinitionMissing(entries: seq<Entry>, wordText: string,
                          lemmaAttr: Option<string>, morph: Option<string>)
    requires Loadable(entries)
    requires StrongNumber(AttrOr(lemmaAttr, "")) !in EntryKeys(entries)
    ensures MakeWord(wordText, lemmaAttr, morph, LexiconOf(entries)).definition == Some(NoDefinition)
  {
    LexiconKeys(entries, StrongNumber(AttrOr(lemmaAttr, "")));
  }

  /** An entry whose `strongs` attribute is all zeros is stored under the empty key,
      which is also the number of a word without a `G` number: such a word gets that
      entry's definition rather than the sentinel. */
  lemma {:induction false} ZeroEntryMatchesUnnumbered(entries: seq<Entry>, i: nat, wordText: string,
                                   lemmaAttr: Option<string>, morph: Option<string>)
    requires Loadable(entries) && i < |entries|
    requires forall k :: 0 <= k < |entries[i].strongs.value| ==> entries[i].strongs.value[k] == '0'
    requires EntryKeys(entries)[i] !in EntryKeys(entries)[i + 1..]
    requires forall k :: 0 <= k < |AttrOr(lemmaAttr, "")| ==> !GAt(AttrOr(lemmaAttr, ""), k)
    ensures EntryKey(entries[i]) == ""
    ensures MakeWord(wordText, lemmaAttr, morph, LexiconOf(entries)).definition == EntryDef(entries[i])
  {
    LStripZerosAllZeros(entries[i].strongs.value);
    DefinitionResolved(entries, i, wordText, lemmaAttr, morph);
  }

  /** The lexicon entry `"0026"` = `"love"` is the definition of a word tagged `G26`. */
  lemma {:induction false} LoveWord()
    ensures MakeWord("ἀγάπη", Some("strong:G26 lemma:ἀγάπη"), Some("robinson:N-NSF"),
                     LexiconOf([Entry(Some("0026"), Found(Some("love")))]))
            == Word("ἀγάπη", "ἀγάπη", "26", "N-NSF", Some("love"))
  {
    LoveEntry();
    var attr := "strong:G26 lemma:ἀγάπη";
    ExampleStrong(attr, " lemma:ἀγάπη");
    ExampleLemma(attr);
    ExampleMorph();
  }

  lemma {:induction false} ExampleStrong(attr: string, rest: string)
    requires attr == "strong:G26" + rest && rest != [] && rest[0] == ' '
    ensures StrongNumber(attr) == "26"
  {
    assert attr[..10] == "strong:G26";
    assert GAt(attr, 7) by {
      assert attr[7] == attr[..10][7] && attr[8] == attr[..10][8];
    }
    assert 'G' !in attr[..7];
    forall k | 0 <= k < 7 ensures !GAt(attr, k) {
      assert attr[k] == attr[..7][k];
    }
    assert FirstG(attr, 0) == Some(7);
    assert attr[8] == '2' && attr[9] == '6' && attr[10] == ' ' by {
      assert attr[8] == attr[..10][8] && attr[9] == attr[..10][9];
      assert attr[10] == rest[0];
    }
    assert DigitRun(attr, 10, 3) == 0;
    assert DigitRun(attr, 8, 5) == 2 by {
      assert DigitRun(attr, 9, 4) == 1 + DigitRun(attr, 10, 3);
    }
    assert StrongNumber(attr) == attr[8..10];
  }

  lemma {:induction false} ExampleLemma(attr: string)
    requires attr == "strong:G26 lemma:ἀγάπη"
    ensures GreekLemma(attr) == "ἀγάπη"
  {
    assert OccursAt(attr, LemmaMarker, 11);
    assert 'l' !in attr[..11];
    forall k | 0 <= k < 11 ensures !OccursAt(attr, LemmaMarker, k) {
      assert attr[k] == attr[..11][k];
      assert attr[k..k + 6][0] == attr[k];
    }
    assert IndexOf(attr, LemmaMarker) == Some(11);
    var rest := attr[17..];
    assert rest == "ἀγάπη";
    forall k | 0 <= k <= |rest| ensures !OccursAt(rest, LemmaMarker, k) { }
    GreekLemmaAfterMarker(attr, 11);
    StripOfStripped(rest);
  }

  lemma {:induction false} ExampleMorph()
    ensures CleanMorph(Some("robinson:N-NSF")) == "N-NSF"
  {
    assert "robinson:N-NSF" == MorphPrefix + "N-NSF";
    forall k | 0 <= k <= 5 ensures !OccursAt("N-NSF", MorphPrefix, k) { }
    CleanMorphPrefixed("N-NSF");
  }
}
