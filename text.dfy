/**
 * The handful of Python `str` operations the corpus builder uses, written out
 * over `seq<char>`: `strip()`, `lstrip('0')`, `in`, `split(sep)`,
 * `sep.join(parts)` and `replace(old, new)`.
 */
module Text {
  import opened Wrappers

  /** Python's `str.isspace` set, which is what `strip()` with no argument removes. */
  predicate IsSpace(c: char) {
    c == ' ' || ('\t' <= c <= '\r') || ('\U{1C}' <= c <= '\U{1F}')
    || c == '\U{85}' || c == '\U{A0}' || c == '\U{1680}'
    || ('\U{2000}' <= c <= '\U{200A}') || c == '\U{2028}' || c == '\U{2029}'
    || c == '\U{202F}' || c == '\U{205F}' || c == '\U{3000}'
  }

  /** The ASCII decimal digits, the characters `\d` is taken to match. */
  predicate IsDigit(c: char) {
    '0' <= c <= '9'
  }

  /** `s.lstrip()`: drops the leading whitespace and nothing else. */
  function TrimLeft(s: string): (r: string)
    ensures |r| <= |s|
    ensures r == [] || !IsSpace(r[0])
  {
    if |s| > 0 && IsSpace(s[0]) then TrimLeft(s[1..]) else s
  }

  /** `s.rstrip()`: drops the trailing whitespace and nothing else. */
  function TrimRight(s: string): (r: string)
    ensures |r| <= |s|
    ensures r == [] || !IsSpace(r[|r| - 1])
    ensures r != [] ==> r[0] == s[0]
  {
    if |s| > 0 && IsSpace(s[|s| - 1]) then TrimRight(s[..|s| - 1]) else s
  }

  /** `lstrip()` removes a prefix made of whitespace. */
  lemma {:induction false} TrimLeftSuffix(s: string)
    ensures var r := TrimLeft(s);
      r == s[|s| - |r|..] && forall k :: 0 <= k < |s| - |r| ==> IsSpace(s[k])
    decreases |s|
  {
    if |s| > 0 && IsSpace(s[0]) {
      TrimLeftSuffix(s[1..]);
      var r := TrimLeft(s);
      assert s[1..][|s| - 1 - |r|..] == s[|s| - |r|..];
      forall k | 1 <= k < |s| - |r| ensures IsSpace(s[k]) {
        assert s[1..][k - 1] == s[k];
      }
    }
  }

  /** `rstrip()` removes a suffix made of whitespace. */
  lemma {:induction false} TrimRightPrefix(s: string)
    ensures var r := TrimRight(s);
      r == s[..|r|] && forall k :: |r| <= k < |s| ==> IsSpace(s[k])
    decreases |s|
  {
    if |s| > 0 && IsSpace(s[|s| - 1]) {
      var t := s[..|s| - 1];
      TrimRightPrefix(t);
      var r := TrimRight(s);
      assert t[..|r|] == s[..|r|];
      forall k | |r| <= k < |s| - 1 ensures IsSpace(s[k]) {
        assert t[k] == s[k];
      }
    }
  }

  /** A string that `strip()` leaves alone: it neither starts nor ends with whitespace. */
  predicate Stripped(s: string) {
    s == [] || (!IsSpace(s[0]) && !IsSpace(s[|s| - 1]))
  }

  /** `s.strip()`. */
  function Strip(s: string): (r: string)
    ensures Stripped(r)
    ensures |r| <= |s|
  {
    TrimRight(TrimLeft(s))
  }

  /** `strip()` takes away exactly the whitespace at either end: what remains is an
      infix of `s` and everything outside it is whitespace. */
  lemma {:induction false} StripInfix(s: string)
    ensures var r := Strip(s); var i := |s| - |TrimLeft(s)|;
      i + |r| <= |s| && r == s[i..i + |r|]
      && (forall k :: 0 <= k < i ==> IsSpace(s[k]))
      && (forall k :: i + |r| <= k < |s| ==> IsSpace(s[k]))
  {
    var t := TrimLeft(s);
    var i := |s| - |t|;
    var r := TrimRight(t);
    TrimLeftSuffix(s);
    TrimRightPrefix(t);
    assert t == s[i..];
    assert r == t[..|r|];
    forall k | i + |r| <= k < |s| ensures IsSpace(s[k]) {
      assert s[k] == t[k - i];
    }
  }

  /** A stripped string is its own `strip()`; in particular `strip()` is idempotent. */
  lemma {:induction false} StripOfStripped(s: string)
    requires Stripped(s)
    ensures Strip(s) == s
  {
    if s != [] {
      assert TrimLeft(s) == s;
    }
  }

  lemma {:induction false} StripIdempotent(s: string)
    ensures Strip(Strip(s)) == Strip(s)
  {
    StripOfStripped(Strip(s));
  }

  /** `s.lstrip('0')`. */
  function LStripZeros(s: string): (r: string)
    ensures r == [] || r[0] != '0'
  {
    if |s| > 0 && s[0] == '0' then LStripZeros(s[1..]) else s
  }

  /** `lstrip('0')` removes a prefix made of zeros and nothing else. */
  lemma {:induction false} LStripZerosSuffix(s: string)
    ensures var r := LStripZeros(s);
      |r| <= |s| && r == s[|s| - |r|..] && forall k :: 0 <= k < |s| - |r| ==> s[k] == '0'
    decreases |s|
  {
    if |s| > 0 && s[0] == '0' {
      LStripZerosSuffix(s[1..]);
      var r := LStripZeros(s);
      assert s[1..][|s| - 1 - |r|..] == s[|s| - |r|..];
      forall k | 1 <= k < |s| - |r| ensures s[k] == '0' {
        assert s[1..][k - 1] == s[k];
      }
    }
  }

  /** A string of zeros only, `"0"` or `"000"` say, strips to the empty string. */
  lemma {:induction false} LStripZerosAllZeros(s: string)
    requires forall k :: 0 <= k < |s| ==> s[k] == '0'
    ensures LStripZeros(s) == ""
    decreases |s|
  {
    if s != [] {
      assert forall k :: 0 <= k < |s[1..]| ==> s[1..][k] == s[k + 1];
      LStripZerosAllZeros(s[1..]);
    }
  }

  /** Stripping leading zeros a second time changes nothing. */
  lemma {:induction false} LStripZerosIdempotent(s: string)
    ensures LStripZeros(LStripZeros(s)) == LStripZeros(s)
  {
    var r := LStripZeros(s);
    if r != [] {
      assert r[0] != '0';
    }
  }

  /** `p` occurs in `s` starting at index `k`. */
  predicate OccursAt(s: string, p: string, k: nat) {
    k + |p| <= |s| && s[k..k + |p|] == p
  }

  /** The first index at or after `i` where `p` occurs in `s` (`s.find(p, i)`). */
  function IndexFrom(s: string, p: string, i: nat): (r: Option<nat>)
    requires i <= |s|
    ensures r.Some? ==> i <= r.value && OccursAt(s, p, r.value)
    ensures r.Some? ==> forall k :: i <= k < r.value ==> !OccursAt(s, p, k)
    ensures r.None? ==> forall k :: i <= k <= |s| ==> !OccursAt(s, p, k)
    decreases |s| - i
  {
    if OccursAt(s, p, i) then Some(i)
    else if i == |s| then None
    else IndexFrom(s, p, i + 1)
  }

  /** The first index where `p` occurs in `s`; `p in s` is `IndexOf(s, p).Some?`. */
  function IndexOf(s: string, p: string): (r: Option<nat>)
    ensures r.Some? ==> OccursAt(s, p, r.value)
    ensures r.Some? ==> forall k :: 0 <= k < r.value ==> !OccursAt(s, p, k)
    ensures r.None? ==> forall k :: 0 <= k <= |s| ==> !OccursAt(s, p, k)
  {
    IndexFrom(s, p, 0)
  }

  /** `s.split(sep)` for a non-empty separator. */
  function Split(s: string, sep: string): (r: seq<string>)
    requires |sep| > 0
    ensures |r| >= 1
    decreases |s|
  {
    match IndexOf(s, sep)
    case None => [s]
    case Some(i) => [s[..i]] + Split(s[i + |sep|..], sep)
  }

  /** `sep.join(parts)`. */
  function Join(parts: seq<string>, sep: string): (s: string)
    decreases |parts|
  {
    if |parts| == 0 then ""
    else if |parts| == 1 then parts[0]
    else parts[0] + sep + Join(parts[1..], sep)
  }

  /** Joining the pieces of a split with the same separator gives back the string. */
  lemma {:induction false} JoinSplit(s: string, sep: string)
    requires |sep| > 0
    ensures Join(Split(s, sep), sep) == s
    decreases |s|
  {
    match IndexOf(s, sep)
    case None =>
    case Some(i) =>
      var rest := s[i + |sep|..];
      var tail := Split(rest, sep);
      JoinSplit(rest, sep);
      SplitAt(s, sep, i);
      JoinCons(s[..i], tail, sep);
      assert s == s[..i] + sep + rest by {
        assert s[i..i + |sep|] == sep;
      }
  }

  lemma {:induction false} JoinCons(a: string, ps: seq<string>, sep: string)
    requires |ps| >= 1
    ensures Join([a] + ps, sep) == a + sep + Join(ps, sep)
  {
    assert ([a] + ps)[1..] == ps;
  }

  /** `split` at the first occurrence of `sep`. */
  lemma {:induction false} SplitAt(s: string, sep: string, i: nat)
    requires |sep| > 0 && IndexOf(s, sep) == Some(i)
    ensures Split(s, sep) == [s[..i]] + Split(s[i + |sep|..], sep)
  {
    var r := Split(s, sep);
    assert r == match IndexOf(s, sep)
                case None => [s]
                case Some(j) => [s[..j]] + Split(s[j + |sep|..], sep);
  }

  /** The text before the first occurrence of `sep` does not contain `sep`. */
  lemma {:induction false} BeforeFirst(s: string, sep: string, i: nat)
    requires |sep| > 0 && IndexOf(s, sep) == Some(i)
    ensures IndexOf(s[..i], sep).None?
  {
    var head := s[..i];
    if IndexOf(head, sep).Some? {
      var k := IndexOf(head, sep).value;
      assert head[k..k + |sep|] == s[k..k + |sep|];
      assert OccursAt(s, sep, k);
      assert false;
    }
  }

  /** No piece of a split contains the separator. */
  lemma {:induction false} SplitPiecesFree(s: string, sep: string)
    requires |sep| > 0
    ensures forall j :: 0 <= j < |Split(s, sep)| ==> IndexOf(Split(s, sep)[j], sep).None?
    decreases |s|
  {
    match IndexOf(s, sep)
    case None =>
    case Some(i) =>
      var rest := s[i + |sep|..];
      SplitPiecesFree(rest, sep);
      BeforeFirst(s, sep, i);
      SplitAt(s, sep, i);
      var ps := Split(s, sep);
      forall j | 0 <= j < |ps| ensures IndexOf(ps[j], sep).None? {
        if j > 0 {
          assert ps[j] == Split(rest, sep)[j - 1];
        }
      }
  }

  /** `s.replace(pat, rep)`: every occurrence of `pat`, found left to right and
      without overlaps, is replaced by `rep`. */
  function Replace(s: string, pat: string, rep: string): (r: string)
    requires |pat| > 0
    decreases |s|
  {
    if |s| < |pat| then s
    else if s[..|pat|] == pat then rep + Replace(s[|pat|..], pat, rep)
    else [s[0]] + Replace(s[1..], pat, rep)
  }

  /** A string without an occurrence of `pat` is left unchanged by `replace`. */
  lemma {:induction false} ReplaceAbsent(s: string, pat: string, rep: string)
    requires |pat| > 0
    requires forall k :: 0 <= k <= |s| ==> !OccursAt(s, pat, k)
    ensures Replace(s, pat, rep) == s
    decreases |s|
  {
    if |s| >= |pat| {
      assert !OccursAt(s, pat, 0);
      forall k | 0 <= k <= |s[1..]| ensures !OccursAt(s[1..], pat, k) {
        if OccursAt(s[1..], pat, k) {
          assert s[1..][k..k + |pat|] == s[k + 1..k + 1 + |pat|];
          assert OccursAt(s, pat, k + 1);
        }
      }
      ReplaceAbsent(s[1..], pat, rep);
    }
  }

  /** Dropping the first character shifts the occurrence-free prefix by one. */
  lemma {:induction false} NoOccurrenceTail(s: string, pat: string, i: nat)
    requires 0 < i <= |s|
    requires forall k :: 0 <= k < i ==> !OccursAt(s, pat, k)
    ensures forall k :: 0 <= k < i - 1 ==> !OccursAt(s[1..], pat, k)
  {
    forall k | 0 <= k < i - 1 ensures !OccursAt(s[1..], pat, k) {
      if OccursAt(s[1..], pat, k) {
        assert s[1..][k..k + |pat|] == s[k + 1..k + 1 + |pat|];
        assert OccursAt(s, pat, k + 1);
      }
    }
  }

  /** One step of `ReplaceSkip`: a first character that starts no occurrence is copied. */
  lemma {:induction false} ReplaceCopyFirst(s: string, pat: string, rep: string, i: nat)
    requires |pat| > 0 && 0 < i <= |s| && |s| >= |pat| && s[..|pat|] != pat
    requires Replace(s[1..], pat, rep) == s[1..][..i - 1] + Replace(s[1..][i - 1..], pat, rep)
    ensures Replace(s, pat, rep) == s[..i] + Replace(s[i..], pat, rep)
  {
    var t := s[1..];
    var r := Replace(t[i - 1..], pat, rep);
    assert Replace(s, pat, rep) == [s[0]] + (t[..i - 1] + r);
    assert t[i - 1..] == s[i..];
    assert [s[0]] + t[..i - 1] == s[..i];
    Assoc([s[0]], t[..i - 1], r);
  }

  /** Concatenation is associative; stated as a lemma to keep it out of big contexts. */
  lemma {:induction false} Assoc<T>(x: seq<T>, y: seq<T>, z: seq<T>)
    ensures x + (y + z) == (x + y) + z
  {
  }

  /** `replace` copies every character that precedes the first occurrence of `pat`. */
  lemma {:induction false} ReplaceSkip(s: string, pat: string, rep: string, i: nat)
    requires |pat| > 0 && i <= |s|
    requires forall k :: 0 <= k < i ==> !OccursAt(s, pat, k)
    ensures Replace(s, pat, rep) == s[..i] + Replace(s[i..], pat, rep)
    decreases i
  {
    if i > 0 {
      assert !OccursAt(s, pat, 0);
      if |s| < |pat| {
        ReplaceAbsent(s[i..], pat, rep);
        assert s[..i] + s[i..] == s;
      } else {
        NoOccurrenceTail(s, pat, i);
        ReplaceSkip(s[1..], pat, rep, i - 1);
        ReplaceCopyFirst(s, pat, rep, i);
      }
    }
  }

  /** `replace` at the first occurrence of `pat`, at index `i`. */
  lemma {:induction false} ReplaceAt(s: string, pat: string, rep: string, i: nat)
    requires |pat| > 0 && OccursAt(s, pat, i)
    requires forall k :: 0 <= k < i ==> !OccursAt(s, pat, k)
    ensures Replace(s, pat, rep) == s[..i] + rep + Replace(s[i + |pat|..], pat, rep)
  {
    var t := s[i..];
    assert |t| >= |pat|;
    assert t[..|pat|] == pat by {
      assert t[..|pat|] == s[i..i + |pat|];
    }
    assert t[|pat|..] == s[i + |pat|..];
    assert Replace(t, pat, rep) == rep + Replace(t[|pat|..], pat, rep);
    ReplaceSkip(s, pat, rep, i);
  }

  /** `s.replace(pat, rep)` is `rep.join(s.split(pat))`: the character-by-character
      replacement agrees with the split-based reference definition. */
  lemma {:induction false} ReplaceIsJoinOfSplit(s: string, pat: string, rep: string)
    requires |pat| > 0
    ensures Replace(s, pat, rep) == Join(Split(s, pat), rep)
    decreases |s|
  {
    match IndexOf(s, pat)
    case None =>
      ReplaceAbsent(s, pat, rep);
    case Some(i) =>
      var rest := s[i + |pat|..];
      ReplaceAt(s, pat, rep, i);
      ReplaceIsJoinOfSplit(rest, pat, rep);
      SplitAt(s, pat, i);
      JoinCons(s[..i], Split(rest, pat), rep);
  }

  /** Replacing a single character by a single character maps the string character by
      character; this is the shape of `replace(".", "_")`. */
  lemma {:induction false} ReplaceChar(s: string, a: char, b: char)
    ensures |Replace(s, [a], [b])| == |s|
    ensures forall k :: 0 <= k < |s| ==>
      Replace(s, [a], [b])[k] == (if s[k] == a then b else s[k])
    decreases |s|
  {
    if |s| > 0 {
      ReplaceChar(s[1..], a, b);
      var r := Replace(s, [a], [b]);
      assert r == [if s[0] == a then b else s[0]] + Replace(s[1..], [a], [b]);
    }
  }

  /** Joining non-empty stripped pieces gives a stripped string, so the `strip()` applied
      to a verse's joined text never changes it. */
  lemma {:induction false} JoinStripped(ps: seq<string>, sep: string)
    requires forall j :: 0 <= j < |ps| ==> ps[j] != [] && Stripped(ps[j])
    ensures Stripped(Join(ps, sep))
    ensures |ps| > 0 ==> Join(ps, sep) != []
    decreases |ps|
  {
    if |ps| > 1 {
      JoinStripped(ps[1..], sep);
      var t := Join(ps[1..], sep);
      var r := ps[0] + sep + t;
      assert r[0] == ps[0][0];
      assert r[|r| - 1] == t[|t| - 1];
    }
  }
}
