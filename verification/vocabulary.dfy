/** The word-list loader: the JSON document of vocabulary records, sorted by
    word and turned into the "word: translation" lines the word selector
    offers. */
module Vocabulary {
  import opened Wrappers
  import opened Text

  /** One element of a record's `translations` list; only its `translation`
      field is read, and it may be absent. */
  datatype Translation = Translation(translation: Option<string>)

  /** One element of the document's top-level array, after JSON parsing.
      `None` stands for a missing key; an element that is not an object at
      all behaves like one with no `word`. */
  datatype Record = Record(word: Option<string>, translations: Option<seq<Translation>>)

  /** The two fields the program keeps of a record: its word and its first
      translation. */
  datatype WordEntry = WordEntry(word: string, translation: string)

  /** What `item['word']` and `item['translations'][0]['translation']` give
      for one record, or `None` when either lookup raises. */
  function EntryOf(r: Record): (e: Option<WordEntry>)
  {
    if r.word.Some? && r.translations.Some? && |r.translations.value| > 0
       && r.translations.value[0].translation.Some?
    then Some(WordEntry(r.word.value, r.translations.value[0].translation.value))
    else None
  }

  /** The entries of all records, in document order, or `None` as soon as one
      record lacks a field. */
  function Entries(rs: seq<Record>): (es: Option<seq<WordEntry>>)
    ensures es.Some? <==> forall i :: 0 <= i < |rs| ==> EntryOf(rs[i]).Some?
    ensures es.Some? ==> |es.value| == |rs|
    ensures es.Some? ==> forall i :: 0 <= i < |rs| ==> EntryOf(rs[i]) == Some(es.value[i])
  {
    if |rs| == 0 then Some([])
    else
      match (EntryOf(rs[0]), Entries(rs[1..]))
      case (Some(e), Some(tail)) =>
        var es := [e] + tail;
        assert forall i :: 1 <= i < |rs| ==> rs[i] == rs[1..][i - 1];
        Some(es)
      case (None, _) => None
      case (_, None) =>
        assert forall i :: 1 <= i < |rs| ==> rs[i] == rs[1..][i - 1];
        None
  }

  /** The display line `f"{word}: {translation}"`. */
  function Display(e: WordEntry): (line: string)
  {
    e.word + ": " + e.translation
  }

  /** The display line of each entry, in order. */
  function Displays(es: seq<WordEntry>): (lines: seq<string>)
    ensures |lines| == |es|
    ensures forall i :: 0 <= i < |es| ==> lines[i] == Display(es[i])
  {
    MapSeq(Display, es)
  }

  /** `[f(x) for x in s]`. */
  function MapSeq<T, U>(f: T -> U, s: seq<T>): (r: seq<U>)
    ensures |r| == |s|
    ensures forall i :: 0 <= i < |s| ==> r[i] == f(s[i])
  {
    if |s| == 0 then [] else [f(s[0])] + MapSeq(f, s[1..])
  }

  /** Ascending by word under Python's string `<`; equal words in any order. */
  predicate SortedByWord(es: seq<WordEntry>) {
    forall i, j :: 0 <= i < j < |es| ==> !Less(es[j].word, es[i].word)
  }

  /** The entries whose word is `w`, in their order in `es`. */
  function WithWord(es: seq<WordEntry>, w: string): (r: seq<WordEntry>)
    ensures forall i :: 0 <= i < |r| ==> r[i].word == w
    ensures |r| == 0 <==> forall i :: 0 <= i < |es| ==> es[i].word != w
  {
    if |es| == 0 then []
    else if es[0].word == w then [es[0]] + WithWord(es[1..], w)
    else WithWord(es[1..], w)
  }

  /** `ss` is what a stable sort by word makes of `es`: sorted, and the
      entries sharing any one word appear in the same order as in `es`. */
  ghost predicate StableSortOf(ss: seq<WordEntry>, es: seq<WordEntry>) {
    SortedByWord(ss) && forall w :: WithWord(ss, w) == WithWord(es, w)
  }

  /** Puts `e` after the leading entries whose word is strictly smaller, so
      that it comes before any entry with an equal word. */
  function Insert(e: WordEntry, ss: seq<WordEntry>): (r: seq<WordEntry>)
    ensures |r| == |ss| + 1
    ensures multiset(r) == multiset(ss) + multiset{e}
  {
    if |ss| == 0 then [e]
    else if Less(ss[0].word, e.word) then
      assert ss == [ss[0]] + ss[1..];
      [ss[0]] + Insert(e, ss[1..])
    else [e] + ss
  }

  /** Inserting into a sorted list keeps it sorted. */
  lemma {:induction false} InsertSorted(e: WordEntry, ss: seq<WordEntry>)
    requires SortedByWord(ss)
    ensures SortedByWord(Insert(e, ss))
    decreases |ss|
  {
    if |ss| > 0 {
      if Less(ss[0].word, e.word) {
        SortedTail(ss);
        InsertSorted(e, ss[1..]);
        InsertBehindHead(e, ss);
      } else {
        InsertInFront(e, ss);
      }
    }
  }

  lemma SortedTail(ss: seq<WordEntry>)
    requires |ss| > 0 && SortedByWord(ss)
    ensures SortedByWord(ss[1..])
  {
    forall i, j | 0 <= i < j < |ss[1..]|
      ensures !Less(ss[1..][j].word, ss[1..][i].word)
    {
      assert ss[1..][i] == ss[i + 1] && ss[1..][j] == ss[j + 1];
    }
  }

  /** Every entry of `Insert(e, ss)` is `e` or an entry of `ss`. */
  lemma InsertMember(e: WordEntry, ss: seq<WordEntry>, x: WordEntry)
    requires x in Insert(e, ss)
    ensures x == e || x in ss
  {
    assert x in multiset(Insert(e, ss));
  }

  /** The sorted step when `e` goes behind the head of `ss`. */
  lemma InsertBehindHead(e: WordEntry, ss: seq<WordEntry>)
    requires |ss| > 0 && SortedByWord(ss) && Less(ss[0].word, e.word)
    requires SortedByWord(Insert(e, ss[1..]))
    ensures SortedByWord(Insert(e, ss))
  {
    var tail := Insert(e, ss[1..]);
    assert Insert(e, ss) == [ss[0]] + tail;
    forall y | y in tail
      ensures !Less(y.word, ss[0].word)
    {
      HeadBeforeInserted(e, ss, y);
    }
    ConsSorted(ss[0], tail);
  }

  /** An entry that sorts no later than every entry of a sorted list can go
      in front of it. */
  lemma ConsSorted(x: WordEntry, t: seq<WordEntry>)
    requires SortedByWord(t)
    requires forall y :: y in t ==> !Less(y.word, x.word)
    ensures SortedByWord([x] + t)
  {
    var r := [x] + t;
    forall i, j | 0 <= i < j < |r|
      ensures !Less(r[j].word, r[i].word)
    {
      assert r[j] == t[j - 1];
      if i > 0 {
        assert r[i] == t[i - 1];
      }
    }
  }

  /** The head of `ss` sorts no later than anything in the rest of `ss` with
      `e` inserted, when `e` goes behind it. */
  lemma HeadBeforeInserted(e: WordEntry, ss: seq<WordEntry>, x: WordEntry)
    requires |ss| > 0 && SortedByWord(ss) && Less(ss[0].word, e.word)
    requires x in Insert(e, ss[1..])
    ensures !Less(x.word, ss[0].word)
  {
    InsertMember(e, ss[1..], x);
    if x == e {
      LessAsymmetric(ss[0].word, e.word);
    } else {
      var k :| 0 <= k < |ss[1..]| && ss[1..][k] == x;
      assert ss[k + 1] == x;
    }
  }

  /** The sorted step when `e` goes in front of `ss`. */
  lemma InsertInFront(e: WordEntry, ss: seq<WordEntry>)
    requires |ss| > 0 && SortedByWord(ss) && !Less(ss[0].word, e.word)
    ensures SortedByWord(Insert(e, ss))
  {
    var r := Insert(e, ss);
    assert r == [e] + ss;
    forall i, j | 0 <= i < j < |r|
      ensures !Less(r[j].word, r[i].word)
    {
      if i == 0 {
        assert r[j] == ss[j - 1];
        if j - 1 > 0 && Less(r[j].word, e.word) {
          LessTotal(ss[0].word, e.word);
          if ss[0].word != e.word {
            LessTransitive(r[j].word, e.word, ss[0].word);
          }
        }
      } else {
        assert r[i] == ss[i - 1] && r[j] == ss[j - 1];
      }
    }
  }

  /** The entries that share a word with `e` all come after it once it is
      inserted: the new list's entries with any word `w` are those of `ss`,
      preceded by `e` when `e` has that word. */
  lemma {:induction false} InsertPerWord(e: WordEntry, ss: seq<WordEntry>, w: string)
    ensures WithWord(Insert(e, ss), w) == (if e.word == w then [e] else []) + WithWord(ss, w)
    decreases |ss|
  {
    var r := Insert(e, ss);
    if |ss| == 0 {
      WithWordCons(e, [], w);
      assert r == [e] + [];
    } else if Less(ss[0].word, e.word) {
      var tail := Insert(e, ss[1..]);
      assert r == [ss[0]] + tail;
      InsertPerWord(e, ss[1..], w);
      WithWordCons(ss[0], tail, w);
      WithWordCons(ss[0], ss[1..], w);
      assert ss == [ss[0]] + ss[1..];
      if ss[0].word == w {
        LessIrreflexive(e.word);
      }
    } else {
      assert r == [e] + ss;
      WithWordCons(e, ss, w);
    }
  }

  lemma WithWordCons(x: WordEntry, t: seq<WordEntry>, w: string)
    ensures WithWord([x] + t, w) == (if x.word == w then [x] else []) + WithWord(t, w)
  {
    assert ([x] + t)[1..] == t;
  }

  /** The stable sort by word that `sorted(data, key=lambda x: x['word'])`
      performs, written as an insertion sort. */
  function SortByWord(es: seq<WordEntry>): (ss: seq<WordEntry>)
    ensures |ss| == |es|
    ensures multiset(ss) == multiset(es)
    ensures SortedByWord(ss)
  {
    if |es| == 0 then []
    else
      var tail := SortByWord(es[1..]);
      assert es == [es[0]] + es[1..];
      InsertSorted(es[0], tail);
      Insert(es[0], tail)
  }

  /** The sort is stable: for every word, the entries with that word keep
      their relative order. Together with sortedness and `StableSortUnique`
      this makes `SortByWord` the one stable sort by word. */
  lemma {:induction false} SortByWordStable(es: seq<WordEntry>)
    ensures StableSortOf(SortByWord(es), es)
  {
    if |es| > 0 {
      var tail := SortByWord(es[1..]);
      SortByWordStable(es[1..]);
      forall w
        ensures WithWord(SortByWord(es), w) == WithWord(es, w)
      {
        InsertPerWord(es[0], tail, w);
      }
    }
  }

  /** Removing the head from both of two lists with equal per-word
      subsequences keeps them equal, when the heads are the same entry. */
  lemma {:induction false} WithWordTail(a: seq<WordEntry>, b: seq<WordEntry>)
    requires |a| > 0 && |b| > 0 && a[0] == b[0]
    requires forall w :: WithWord(a, w) == WithWord(b, w)
    ensures forall w :: WithWord(a[1..], w) == WithWord(b[1..], w)
  {
    forall w
      ensures WithWord(a[1..], w) == WithWord(b[1..], w)
    {
      assert WithWord(a, w) == WithWord(b, w);
      if a[0].word == w {
        assert WithWord(a, w) == [a[0]] + WithWord(a[1..], w);
        assert WithWord(b, w) == [b[0]] + WithWord(b[1..], w);
        assert WithWord(a[1..], w) == WithWord(a, w)[1..];
      }
    }
  }

  lemma {:induction false} WithWordMember(es: seq<WordEntry>, w: string)
    requires WithWord(es, w) != []
    ensures WithWord(es, w)[0] in es
    decreases |es|
  {
    if es[0].word != w {
      WithWordMember(es[1..], w);
    }
  }

  /** The head of a sorted list has the smallest word of all. */
  lemma {:induction false} HeadIsSmallest(a: seq<WordEntry>, x: WordEntry)
    requires SortedByWord(a) && |a| > 0 && x in a
    ensures !Less(x.word, a[0].word)
  {
    var k :| 0 <= k < |a| && a[k] == x;
    if k > 0 {
      assert !Less(a[k].word, a[0].word);
    } else {
      LessIrreflexive(x.word);
    }
  }

  /** Sortedness and the per-word order pin a list down completely: two
      sorted lists with the same entries per word are equal. */
  lemma {:induction false} SortedPerWordUnique(a: seq<WordEntry>, b: seq<WordEntry>)
    requires SortedByWord(a) && SortedByWord(b)
    requires forall w :: WithWord(a, w) == WithWord(b, w)
    ensures a == b
    decreases |a|
  {
    if |a| == 0 || |b| == 0 {
      var w := if |a| > 0 then a[0].word else if |b| > 0 then b[0].word else [];
      assert WithWord(a, w) == WithWord(b, w);
    } else {
      var x, y := a[0], b[0];
      assert WithWord(a, x.word) == [x] + WithWord(a[1..], x.word);
      assert WithWord(b, y.word) == [y] + WithWord(b[1..], y.word);
      var wa := WithWord(b, x.word);
      var wb := WithWord(a, y.word);
      WithWordMember(b, x.word);
      WithWordMember(a, y.word);
      HeadIsSmallest(b, wa[0]);
      HeadIsSmallest(a, wb[0]);
      LessTotal(x.word, y.word);
      assert x.word == y.word;
      assert x == y;
      WithWordTail(a, b);
      SortedTail(a);
      SortedTail(b);
      SortedPerWordUnique(a[1..], b[1..]);
      assert a == [x] + a[1..] && b == [y] + b[1..];
    }
  }

  /** Every stable sort by word gives the same list, so the insertion sort
      above stands for the library's sort without loss. */
  lemma {:induction false} StableSortUnique(es: seq<WordEntry>, ss: seq<WordEntry>)
    requires StableSortOf(ss, es)
    ensures ss == SortByWord(es)
  {
    var tt := SortByWord(es);
    SortByWordStable(es);
    SortedPerWordUnique(ss, tt);
  }

  /** `load_words`: the display lines of the records sorted by word, or the
      empty list when the document could not be read or any record lacks a
      field. `doc` is `None` when the file cannot be opened or parsed, or its
      top level is not an array. */
  function LoadWords(doc: Option<seq<Record>>): (lines: seq<string>)
    ensures doc.None? ==> lines == []
    ensures doc.Some? && (exists i :: 0 <= i < |doc.value| && EntryOf(doc.value[i]).None?) ==> lines == []
    ensures doc.Some? && (forall i :: 0 <= i < |doc.value| ==> EntryOf(doc.value[i]).Some?) ==> |lines| == |doc.value|
    ensures lines == [] || (doc.Some? && |lines| == |doc.value|)
  {
    match doc
    case None => []
    case Some(rs) =>
      match Entries(rs)
      case None => []
      case Some(es) => Displays(SortByWord(es))
  }

  /** When every record is well formed, the i-th line is the display line of
      the i-th entry of ANY stable sort of the records by word. */
  lemma {:induction false} LoadWordsInWordOrder(rs: seq<Record>, es: seq<WordEntry>, ss: seq<WordEntry>)
    requires Entries(rs) == Some(es)
    requires StableSortOf(ss, es)
    ensures |LoadWords(Some(rs))| == |ss|
    ensures forall i :: 0 <= i < |ss| ==> LoadWords(Some(rs))[i] == Display(ss[i])
  {
    StableSortUnique(es, ss);
  }

  lemma MultisetCancel<T>(x: T, p: seq<T>, q: seq<T>)
    requires multiset(p) + multiset{x} == multiset(q) + multiset{x}
    ensures multiset(p) == multiset(q)
  {
    forall y
      ensures multiset(p)[y] == multiset(q)[y]
    {
      assert (multiset(p) + multiset{x})[y] == (multiset(q) + multiset{x})[y];
    }
  }

  lemma MapSeqAppend<T, U>(f: T -> U, p: seq<T>, q: seq<T>)
    ensures MapSeq(f, p + q) == MapSeq(f, p) + MapSeq(f, q)
  {
    var l, r := MapSeq(f, p + q), MapSeq(f, p) + MapSeq(f, q);
    assert |l| == |r|;
    forall i | 0 <= i < |l|
      ensures l[i] == r[i]
    {
      if i < |p| {
        assert (p + q)[i] == p[i];
      } else {
        assert (p + q)[i] == q[i - |p|];
      }
    }
  }

  lemma RemoveAt<T>(b: seq<T>, k: nat)
    requires k < |b|
    ensures multiset(b) == multiset(b[..k] + b[k + 1..]) + multiset{b[k]}
  {
    assert b == b[..k] + [b[k]] + b[k + 1..];
  }

  lemma MapSeqRemoveAt<T, U>(f: T -> U, b: seq<T>, k: nat)
    requires k < |b|
    ensures multiset(MapSeq(f, b)) == multiset(MapSeq(f, b[..k] + b[k + 1..])) + multiset{f(b[k])}
  {
    var d := MapSeq(f, b);
    MapSeqAppend(f, b[..k], b[k + 1..]);
    assert d[..k] == MapSeq(f, b[..k]);
    assert d[k + 1..] == MapSeq(f, b[k + 1..]);
    RemoveAt(d, k);
  }

  /** Mapping preserves a permutation. */
  lemma {:induction false} MapSeqPermute<T, U>(f: T -> U, a: seq<T>, b: seq<T>)
    requires multiset(a) == multiset(b)
    ensures multiset(MapSeq(f, a)) == multiset(MapSeq(f, b))
    decreases |a|
  {
    if |a| == 0 {
      assert b == [];
    } else {
      var k := Position(b, a[0]);
      var a', b' := a[1..], b[..k] + b[k + 1..];
      DropMatching(a, b, k);
      MapSeqPermute(f, a', b');
      MapSeqRemoveAt(f, b, k);
      MapSeqRemoveAt(f, a, 0);
      assert a[..0] + a[1..] == a';
    }
  }

  /** Some position of an element that occurs in `s`. */
  lemma Position<T>(s: seq<T>, x: T) returns (k: nat)
    requires x in multiset(s)
    ensures k < |s| && s[k] == x
  {
    assert x in s;
    k :| 0 <= k < |s| && s[k] == x;
  }

  /** Dropping the same element from two permutations of each other leaves
      permutations of each other. */
  lemma DropMatching<T>(a: seq<T>, b: seq<T>, k: nat)
    requires multiset(a) == multiset(b)
    requires |a| > 0 && k < |b| && b[k] == a[0]
    ensures multiset(a[1..]) == multiset(b[..k] + b[k + 1..])
  {
    RemoveAt(b, k);
    RemoveAt(a, 0);
    assert a[..0] + a[1..] == a[1..];
    MultisetCancel(a[0], a[1..], b[..k] + b[k + 1..]);
  }

  /** The lines are exactly the records' display lines, each once, only
      reordered. */
  lemma {:induction false} LoadWordsPermutes(rs: seq<Record>, es: seq<WordEntry>)
    requires Entries(rs) == Some(es)
    ensures multiset(LoadWords(Some(rs))) == multiset(Displays(es))
  {
    MapSeqPermute(Display, SortByWord(es), es);
  }

  /** The single-record example: `[{"word": "apple", "translations":
      [{"translation": "苹果"}]}]` loads as `["apple: 苹果"]`. */
  lemma AppleExample()
    ensures LoadWords(Some([Record(Some("apple"), Some([Translation(Some("苹果"))]))])) == ["apple: 苹果"]
  {
    var rs := [Record(Some("apple"), Some([Translation(Some("苹果"))]))];
    var e := WordEntry("apple", "苹果");
    assert EntryOf(rs[0]) == Some(e);
    assert rs[1..] == [];
    assert Entries(rs[1..]) == Some([]);
    assert [e] + [] == [e];
    assert Entries(rs) == Some([e]);
    assert SortByWord([e]) == [e];
    assert Display(e) == "apple: 苹果";
  }

}
