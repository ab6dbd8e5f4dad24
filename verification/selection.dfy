/** Reading a selected display line back into its fields, as both generation
    handlers do with `selected_word.split(':')[0].strip()` and
    `selected_word.split(':')[1].strip()`. */
module Selection {
  import opened Wrappers
  import opened Text
  import opened Vocabulary

  /** The word and translation of a selected line, or `None` when the line
      holds no colon and indexing the second piece raises. The word is the
      stripped text before the first colon; the translation is the stripped
      text between the first colon and the next one (or the end). */
  function ParseSelection(token: string): (r: Option<WordEntry>)
    ensures r.None? <==> ':' !in token
    ensures r.Some? ==> r.value.word == Strip(token[..IndexOf(token, ':')])
    ensures r.Some? ==>
      var rest := token[IndexOf(token, ':') + 1..];
      r.value.translation == Strip(rest[..IndexOf(rest, ':')])
  {
    var parts := Split(token, ':');
    SplitAtFirst(token, ':');
    if |parts| < 2 then None
    else
      var rest := token[IndexOf(token, ':') + 1..];
      SplitAtFirst(rest, ':');
      assert parts[1] == parts[1..][0];
      Some(WordEntry(Strip(parts[0]), Strip(parts[1])))
  }

  /** In a display line whose word has no colon, the first colon is the one
      the display format adds. */
  lemma {:induction false} DisplayFirstColon(e: WordEntry)
    requires ':' !in e.word
    ensures IndexOf(Display(e), ':') == |e.word|
    ensures Display(e)[..|e.word|] == e.word
    ensures Display(e)[|e.word| + 1..] == [' '] + e.translation
  {
    var rest := [' '] + e.translation;
    assert Display(e) == e.word + ([':'] + rest);
    IndexOfConcat(e.word, [':'] + rest, ':');
    assert IndexOf([':'] + rest, ':') == 0;
  }

  lemma {:induction false} SpaceThenText(t: string)
    ensures IndexOf([' '] + t, ':') == 1 + IndexOf(t, ':')
    ensures Strip(([' '] + t)[..1 + IndexOf(t, ':')]) == Strip(t[..IndexOf(t, ':')])
  {
    IndexOfConcat([' '], t, ':');
    assert ([' '] + t)[..1 + IndexOf(t, ':')] == [' '] + t[..IndexOf(t, ':')];
    StripSpacePrefix([' '], t[..IndexOf(t, ':')]);
  }

  /** Parsing a display line whose word has no colon: the word comes back
      stripped, and the translation is cut at its own first colon. */
  lemma {:induction false} ParseDisplay(e: WordEntry)
    requires ':' !in e.word
    ensures ParseSelection(Display(e)) ==
      Some(WordEntry(Strip(e.word), Strip(e.translation[..IndexOf(e.translation, ':')])))
  {
    DisplayFirstColon(e);
    SpaceThenText(e.translation);
    var r := ParseSelection(Display(e));
    assert r.Some?;
  }

  /** When the word has no colon, whatever follows the first colon leaves
      the parsed word alone. */
  lemma {:induction false} ParsedWordBeforeColon(w: string, rest: string)
    requires ':' !in w
    ensures ParseSelection(w + [':'] + rest).Some?
    ensures ParseSelection(w + [':'] + rest).value.word == Strip(w)
  {
    var token := w + [':'] + rest;
    assert token == w + ([':'] + rest);
    IndexOfConcat(w, [':'] + rest, ':');
    assert IndexOf([':'] + rest, ':') == 0;
    assert token[..|w|] == w;
  }

  /** A colon inside the word moves the split point into the word, so the
      parsed word comes back shorter. */
  lemma {:induction false} ColonInWordBreaksRoundTrip(e: WordEntry)
    requires ':' in e.word
    ensures ParseSelection(Display(e)).Some?
    ensures |ParseSelection(Display(e)).value.word| < |e.word|
  {
    var w := e.word;
    var token := Display(e);
    assert token == w + ([':', ' '] + e.translation);
    IndexOfConcat(w, [':', ' '] + e.translation, ':');
    var i := IndexOf(w, ':');
    assert token[..i] == w[..i];
    assert |Strip(w[..i])| <= i;
  }

  /** An entry that survives the round trip through its display line. */
  predicate Clean(e: WordEntry) {
    ':' !in e.word && ':' !in e.translation && Bare(e.word) && Bare(e.translation)
  }

  /** The round trip of a display line: parsing it gives back exactly the
      entry it was built from if and only if neither field contains a colon
      and neither has whitespace at its ends. */
  lemma {:induction false} DisplayRoundTrip(e: WordEntry)
    ensures ParseSelection(Display(e)) == Some(e) <==> Clean(e)
  {
    var w, t := e.word, e.translation;
    if ':' in w {
      ColonInWordBreaksRoundTrip(e);
    } else {
      ParseDisplay(e);
      StripFixedIffBare(w);
      var j := IndexOf(t, ':');
      if ':' in t {
        assert |Strip(t[..j])| <= j < |t|;
      } else {
        assert t[..j] == t;
        StripFixedIffBare(t);
      }
    }
  }

  lemma ParseDisplayAt(ss: seq<WordEntry>, k: nat)
    requires k < |ss| && Clean(ss[k])
    ensures ParseSelection(Displays(ss)[k]) == Some(ss[k])
  {
    DisplayRoundTrip(ss[k]);
  }

  lemma {:induction false} SortedLinesParseInOrder(ss: seq<WordEntry>)
    requires SortedByWord(ss)
    requires forall k :: 0 <= k < |ss| ==> Clean(ss[k])
    ensures forall i :: 0 <= i < |ss| ==> ParseSelection(Displays(ss)[i]) == Some(ss[i])
    ensures forall i, j :: 0 <= i < j < |ss| ==>
      !Less(ParseSelection(Displays(ss)[j]).value.word, ParseSelection(Displays(ss)[i]).value.word)
  {
    forall k | 0 <= k < |ss|
      ensures ParseSelection(Displays(ss)[k]) == Some(ss[k])
    {
      ParseDisplayAt(ss, k);
    }
  }

  lemma PermutationKeepsClean(es: seq<WordEntry>, ss: seq<WordEntry>)
    requires multiset(ss) == multiset(es)
    requires forall k :: 0 <= k < |es| ==> Clean(es[k])
    ensures forall k :: 0 <= k < |ss| ==> Clean(ss[k])
  {
    forall k | 0 <= k < |ss|
      ensures Clean(ss[k])
    {
      assert ss[k] in multiset(es);
      var m :| 0 <= m < |es| && es[m] == ss[k];
    }
  }

  /** The display lines of a loaded list, when every word and translation is
      colon-free and bare, parse back to entries in ascending word order. */
  lemma {:induction false} LoadedLinesParseInOrder(rs: seq<Record>, es: seq<WordEntry>)
    requires Entries(rs) == Some(es)
    requires forall k :: 0 <= k < |es| ==> Clean(es[k])
    ensures var lines := LoadWords(Some(rs));
      && (forall i :: 0 <= i < |lines| ==> ParseSelection(lines[i]).Some?)
      && (forall i, j :: 0 <= i < j < |lines| ==>
            !Less(ParseSelection(lines[j]).value.word, ParseSelection(lines[i]).value.word))
  {
    var ss := SortByWord(es);
    PermutationKeepsClean(es, ss);
    SortedLinesParseInOrder(ss);
    assert LoadWords(Some(rs)) == Displays(ss);
  }

}
