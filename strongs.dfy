/**
 * `load_strongs`: the Strong's Greek lexicon as a map from identifier to
 * definition. A missing lexicon file is an empty list of entries.
 */
module Strongs {
  import opened Wrappers
  import opened Text
  import opened Markup

  /** Identifier to definition. A definition is `None` where the source stores
      Python's `None` (a `strongs_def` element whose `.text` is `None`). */
  type Lexicon = map<string, Option<string>>

  /** Every entry carries a `strongs` attribute; without one `.lstrip` is called
      on `None` and the load fails. */
  predicate Loadable(entries: seq<Entry>) {
    forall i :: 0 <= i < |entries| ==> entries[i].strongs.Some?
  }

  /** The key an entry is stored under: its `strongs` attribute without leading zeros. */
  function EntryKey(e: Entry): (k: string)
    requires e.strongs.Some?
    ensures k == [] || k[0] != '0'
  {
    LStripZeros(e.strongs.value)
  }

  /** The definition an entry stores: the text of its `strongs_def`, or `""` when
      there is no such element. */
  function EntryDef(e: Entry): (d: Option<string>) {
    match e.strongsDef
    case NotFound => Some("")
    case Found(t) => t
  }

  /** The lexicon after storing the entries one after the other. */
  function LexiconOf(entries: seq<Entry>): (lex: Lexicon)
    requires Loadable(entries)
    decreases |entries|
  {
    if entries == [] then map[]
    else
      var e := entries[|entries| - 1];
      LexiconOf(entries[..|entries| - 1])[EntryKey(e) := EntryDef(e)]
  }

  /** `load_strongs`: fills the dictionary entry by entry. */
  method LoadStrongs(entries: seq<Entry>) returns (strongsDict: Lexicon)
    requires Loadable(entries)
    ensures strongsDict == LexiconOf(entries)
  {
    strongsDict := map[];
    for i := 0 to |entries|
      invariant strongsDict == LexiconOf(entries[..i])
    {
      var entry := entries[i];
      var strongId := LStripZeros(entry.strongs.value);
      var strongDefinition := match entry.strongsDef
        case Found(t) => t
        case NotFound => Some("");
      strongsDict := strongsDict[strongId := strongDefinition];
      assert entries[..i + 1][..i] == entries[..i];
    }
    assert entries[..|entries|] == entries;
  }

  /** The normalised `strongs` attribute of every entry, in order. */
  function EntryKeys(entries: seq<Entry>): (ks: seq<string>)
    requires Loadable(entries)
    ensures |ks| == |entries|
    ensures forall i :: 0 <= i < |entries| ==> ks[i] == EntryKey(entries[i])
    decreases |entries|
  {
    if entries == [] then [] else EntryKeys(entries[..|entries| - 1]) + [EntryKey(entries[|entries| - 1])]
  }

  /** The lexicon's keys are exactly the normalised `strongs` attributes: an entry with
      no definition still has its key. */
  lemma {:induction false} LexiconKeys(entries: seq<Entry>, k: string)
    requires Loadable(entries)
    ensures k in LexiconOf(entries) <==> k in EntryKeys(entries)
    decreases |entries|
  {
    if entries != [] {
      var n := |entries| - 1;
      var init := entries[..n];
      LexiconKeys(init, k);
      assert EntryKeys(entries) == EntryKeys(init) + [EntryKey(entries[n])];
    }
  }

  /** An entry whose key does not come again later decides that key's definition:
      the last entry wins. */
  lemma {:induction false} LexiconLastWins(entries: seq<Entry>, i: nat)
    requires Loadable(entries)
    requires i < |entries|
    requires EntryKeys(entries)[i] !in EntryKeys(entries)[i + 1..]
    ensures EntryKey(entries[i]) in LexiconOf(entries)
    ensures LexiconOf(entries)[EntryKey(entries[i])] == EntryDef(entries[i])
    decreases |entries|
  {
    var n := |entries| - 1;
    var init := entries[..n];
    var key := EntryKey(entries[i]);
    assert LexiconOf(entries) == LexiconOf(init)[EntryKey(entries[n]) := EntryDef(entries[n])];
    if i < n {
      var ks := EntryKeys(entries);
      assert EntryKeys(init) == ks[..n];
      assert ks[i + 1..] == EntryKeys(init)[i + 1..] + [ks[n]];
      assert EntryKey(entries[n]) != key by {
        assert ks[n] in ks[i + 1..];
      }
      assert init[i] == entries[i];
      LexiconLastWins(init, i);
      assert LexiconOf(init)[key] == EntryDef(entries[i]);
    }
  }

  /** What the entry that wins its key stores: `""` when it has no `strongs_def`
      element, and the element's text otherwise, which is `None` when the element
      has no text. */
  lemma {:induction false} EntryDefStored(entries: seq<Entry>, i: nat)
    requires Loadable(entries)
    requires i < |entries|
    requires EntryKeys(entries)[i] !in EntryKeys(entries)[i + 1..]
    ensures EntryKey(entries[i]) in LexiconOf(entries)
    ensures entries[i].strongsDef.NotFound? ==> LexiconOf(entries)[EntryKey(entries[i])] == Some("")
    ensures entries[i].strongsDef == Found(None) ==> LexiconOf(entries)[EntryKey(entries[i])] == None
    ensures entries[i].strongsDef.Found? && entries[i].strongsDef.text.Some? ==>
      LexiconOf(entries)[EntryKey(entries[i])] == entries[i].strongsDef.text
  {
    LexiconLastWins(entries, i);
  }

  /** No lexicon key starts with `'0'`, so a zero-padded number is never found. */
  lemma {:induction false} LexiconKeysUnpadded(entries: seq<Entry>, k: string)
    requires Loadable(entries)
    requires k in LexiconOf(entries)
    ensures k == [] || k[0] != '0'
  {
    LexiconKeys(entries, k);
    var i :| 0 <= i < |entries| && EntryKeys(entries)[i] == k;
  }

  /** Entry `"0026"` with definition `"love"` is found under `"26"`. */
  lemma {:induction false} LoveEntry()
    ensures var lex := LexiconOf([Entry(Some("0026"), Found(Some("love")))]);
      "26" in lex && lex["26"] == Some("love")
  {
    var e := Entry(Some("0026"), Found(Some("love")));
    assert LStripZeros("0026") == "26" by {
      assert "0026"[1..] == "026";
      assert "026"[1..] == "26";
    }
    assert [e][..0] == [];
  }
}
