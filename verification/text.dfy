/** The few Python `str` operations the program relies on: `strip()` with no
    argument, `split(sep)` with a one-character separator, its inverse `join`,
    and the `<` comparison that `sorted` uses on string keys. */
module Text {

  /** Python's `str.isspace()` on one code point: the ASCII controls TAB, LF,
      VT, FF, CR and FS..US, SPACE, NEL, NO-BREAK SPACE and the other Unicode
      space separators. */
  predicate IsSpace(c: char) {
    || c == ' '
    || '\U{9}' <= c <= '\U{D}'
    || '\U{1C}' <= c <= '\U{1F}'
    || c == '\U{85}'
    || c == '\U{A0}'
    || c == '\U{1680}'
    || '\U{2000}' <= c <= '\U{200A}'
    || c == '\U{2028}'
    || c == '\U{2029}'
    || c == '\U{202F}'
    || c == '\U{205F}'
    || c == '\U{3000}'
  }

  predicate AllSpace(s: string) {
    forall i :: 0 <= i < |s| ==> IsSpace(s[i])
  }

  /** Neither starts nor ends with whitespace: what `strip()` leaves behind. */
  predicate Bare(s: string) {
    s == [] || (!IsSpace(s[0]) && !IsSpace(s[|s| - 1]))
  }

  /** The first position at or after `i` that does not hold whitespace, or
      `|s|`: where `lstrip()` stops. */
  function SkipSpaceFrom(s: string, i: nat): (r: nat)
    requires i <= |s|
    ensures i <= r <= |s|
    ensures forall k :: i <= k < r ==> IsSpace(s[k])
    ensures r < |s| ==> !IsSpace(s[r])
    decreases |s| - i
  {
    if i < |s| && IsSpace(s[i]) then SkipSpaceFrom(s, i + 1) else i
  }

  /** The end of `s[lo..hi]` once its trailing whitespace is dropped: where
      `rstrip()` stops. */
  function SkipSpaceBack(s: string, lo: nat, hi: nat): (r: nat)
    requires lo <= hi <= |s|
    ensures lo <= r <= hi
    ensures forall k :: r <= k < hi ==> IsSpace(s[k])
    ensures r > lo ==> !IsSpace(s[r - 1])
    decreases hi
  {
    if hi > lo && IsSpace(s[hi - 1]) then SkipSpaceBack(s, lo, hi - 1) else hi
  }

  /** `r` sits at `s[i..i + |r|]`, is bare, and only whitespace lies around
      it: what `s.strip()` must return. */
  predicate StripShape(s: string, r: string, i: nat) {
    && i + |r| <= |s|
    && r == s[i..i + |r|]
    && Bare(r)
    && (forall k :: 0 <= k < i ==> IsSpace(s[k]))
    && (forall k :: i + |r| <= k < |s| ==> IsSpace(s[k]))
  }

  /** Where the stripped text starts inside `s`. */
  function StripStart(s: string): (i: nat)
  {
    SkipSpaceFrom(s, 0)
  }

  /** `s.strip()`: `s` without its leading and trailing whitespace. */
  function Strip(s: string): (r: string)
    ensures StripShape(s, r, StripStart(s))
  {
    var i := SkipSpaceFrom(s, 0);
    var j := SkipSpaceBack(s, i, |s|);
    assert j > i ==> s[i..j][0] == s[i];
    s[i..j]
  }

  /** There is only one shape: whatever is bare and surrounded by whitespace
      inside `s` is `s.strip()`. */
  lemma {:induction false} StripShapeUnique(s: string, r1: string, i1: nat, r2: string, i2: nat)
    requires StripShape(s, r1, i1) && StripShape(s, r2, i2)
    ensures r1 == r2
  {
    if r1 != [] && r2 != [] {
      assert s[i1] == r1[0] && s[i2] == r2[0];
      assert i1 == i2;
      assert s[i1 + |r1| - 1] == r1[|r1| - 1];
      assert s[i2 + |r2| - 1] == r2[|r2| - 1];
    }
  }

  /** `strip()` leaves a string unchanged exactly when it is already bare. */
  lemma {:induction false} StripFixedIffBare(s: string)
    ensures Strip(s) == s <==> Bare(s)
  {
    if Bare(s) {
      assert StripShape(s, s, 0);
      StripShapeUnique(s, s, 0, Strip(s), StripStart(s));
    }
  }

  /** `strip()` is idempotent. */
  lemma {:induction false} StripIdempotent(s: string)
    ensures Strip(Strip(s)) == Strip(s)
  {
    StripFixedIffBare(Strip(s));
  }

  /** Whitespace in front of a string makes no difference to `strip()`. */
  lemma {:induction false} StripSpacePrefix(p: string, s: string)
    requires AllSpace(p)
    ensures Strip(p + s) == Strip(s)
  {
    var t := p + s;
    ShapeAfterSpace(p, s, Strip(s), StripStart(s));
    StripShapeUnique(t, Strip(s), |p| + StripStart(s), Strip(t), StripStart(t));
  }

  /** A stripped shape inside `s` stays one, shifted, when whitespace is put
      in front of `s`. */
  lemma ShapeAfterSpace(p: string, s: string, r: string, i: nat)
    requires AllSpace(p) && StripShape(s, r, i)
    ensures StripShape(p + s, r, |p| + i)
  {
    var t := p + s;
    var j := |p| + i;
    assert t[j..j + |r|] == s[i..i + |r|];
    forall k | 0 <= k < j
      ensures IsSpace(t[k])
    {
      if k < |p| { assert t[k] == p[k]; } else { assert t[k] == s[k - |p|]; }
    }
    forall k | j + |r| <= k < |t|
      ensures IsSpace(t[k])
    {
      assert t[k] == s[k - |p|];
    }
  }

  /** Position of the first `c` in `s`, or `|s|` when there is none. */
  function IndexOf(s: string, c: char): (r: nat)
    ensures r <= |s|
    ensures forall k :: 0 <= k < r ==> s[k] != c
    ensures r < |s| ==> s[r] == c
  {
    if |s| == 0 then 0
    else if s[0] == c then 0
    else
      1 + IndexOf(s[1..], c)
  }

  /** `IndexOf` reaches the end exactly when the character is absent. */
  lemma IndexOfAbsent(s: string, c: char)
    ensures IndexOf(s, c) == |s| <==> c !in s
  {
    var r := IndexOf(s, c);
    if r < |s| {
      assert s[r] == c;
    }
  }

  /** Searching a concatenation finds the first `c` of the front part, or
      else the first `c` of the back part, shifted. */
  lemma {:induction false} IndexOfConcat(p: string, s: string, c: char)
    ensures IndexOf(p + s, c) == if c in p then IndexOf(p, c) else |p| + IndexOf(s, c)
    decreases |p|
  {
    if p != [] {
      assert (p + s)[0] == p[0];
      assert (p + s)[1..] == p[1..] + s;
      IndexOfConcat(p[1..], s, c);
      assert c in p <==> c == p[0] || c in p[1..];
    } else {
      assert p + s == s;
    }
  }

  /** `sep.join(parts)`. */
  function Join(parts: seq<string>, sep: char): (s: string)
  {
    if |parts| == 0 then []
    else if |parts| == 1 then parts[0]
    else parts[0] + [sep] + Join(parts[1..], sep)
  }

  /** `s.split(sep)` for a one-character separator: the text up to the first
      separator, then the split of what follows it. There is at least one
      piece. */
  function Split(s: string, sep: char): (r: seq<string>)
    ensures |r| >= 1
    decreases |s|
  {
    var i := IndexOf(s, sep);
    if i == |s| then
      [s]
    else
      [s[..i]] + Split(s[i + 1..], sep)
  }

  /** No piece of `s.split(sep)` contains the separator. */
  lemma {:induction false} SplitPiecesFree(s: string, sep: char)
    ensures forall k :: 0 <= k < |Split(s, sep)| ==> sep !in Split(s, sep)[k]
    decreases |s|
  {
    var i := IndexOf(s, sep);
    if i == |s| {
      SplitWithoutSeparator(s, sep);
    } else {
      var after := s[i + 1..];
      SplitFirstPiece(s, sep, i);
      SplitPiecesFree(after, sep);
      assert sep !in s[..i] by {
        assert forall k :: 0 <= k < i ==> s[..i][k] == s[k];
      }
    }
  }

  /** Joining the pieces of `s.split(sep)` with `sep` gives back `s`. */
  lemma {:induction false} SplitJoin(s: string, sep: char)
    ensures Join(Split(s, sep), sep) == s
    decreases |s|
  {
    var i := IndexOf(s, sep);
    if i == |s| {
      SplitWithoutSeparator(s, sep);
    } else {
      var head, after := s[..i], s[i + 1..];
      var rest := Split(after, sep);
      SplitJoin(after, sep);
      SplitFirstPiece(s, sep, i);
      JoinCons(head, rest, sep);
      assert Join(Split(s, sep), sep) == head + [sep] + after;
      assert s == head + [sep] + after by {
        assert s[i] == sep;
      }
    }
  }

  lemma JoinCons(x: string, rest: seq<string>, sep: char)
    requires |rest| >= 1
    ensures Join([x] + rest, sep) == x + [sep] + Join(rest, sep)
  {
    assert ([x] + rest)[1..] == rest;
  }

  /** There is one more piece than there are separators. */
  lemma {:induction false} SplitCount(s: string, sep: char)
    ensures |Split(s, sep)| == multiset(s)[sep] + 1
    decreases |s|
  {
    var i := IndexOf(s, sep);
    if i == |s| {
      SplitWithoutSeparator(s, sep);
      CountAbsent(s, sep);
    } else {
      var before, after := s[..i], s[i + 1..];
      SplitFirstPiece(s, sep, i);
      SplitCount(after, sep);
      assert s == before + [sep] + after;
      CountAcrossSeparator(before, after, sep);
    }
  }

  /** A string without the separator is its own only piece. */
  lemma SplitWithoutSeparator(s: string, sep: char)
    requires IndexOf(s, sep) == |s|
    ensures Split(s, sep) == [s]
  {
  }

  lemma CountAbsent(s: string, c: char)
    requires c !in s
    ensures multiset(s)[c] == 0
  {
  }

  lemma CountAcrossSeparator(before: string, after: string, sep: char)
    requires sep !in before
    ensures multiset(before + [sep] + after)[sep] == multiset(after)[sep] + 1
  {
    assert multiset(before + [sep] + after) == multiset(before) + multiset{sep} + multiset(after);
    assert multiset(before)[sep] == 0;
  }

  /** A separator-free piece followed by the separator splits off as the
      first piece. */
  lemma {:induction false} SplitAfterPiece(p: string, rest: string, sep: char)
    requires sep !in p
    ensures Split(p + [sep] + rest, sep) == [p] + Split(rest, sep)
  {
    var t := [sep] + rest;
    assert IndexOf(t, sep) == 0;
    IndexOfConcat(p, t, sep);
    var s := p + t;
    assert s == p + [sep] + rest;
    SplitFirstPiece(s, sep, |p|);
    assert s[..|p|] == p;
    assert s[|p| + 1..] == rest;
  }

  /** When the first separator is at `i`, `Split` cuts there. */
  lemma SplitFirstPiece(s: string, sep: char, i: nat)
    requires i < |s| && IndexOf(s, sep) == i
    ensures Split(s, sep) == [s[..i]] + Split(s[i + 1..], sep)
  {
    assert IndexOf(s, sep) != |s|;
  }

  /** `Split` is the only way to cut `s` into separator-free pieces that join
      back to `s`. */
  lemma {:induction false} SplitUnique(parts: seq<string>, sep: char, s: string)
    requires |parts| >= 1
    requires forall k :: 0 <= k < |parts| ==> sep !in parts[k]
    requires Join(parts, sep) == s
    ensures Split(s, sep) == parts
    decreases |parts|
  {
    if |parts| == 1 {
      assert IndexOf(s, sep) == |s|;
    } else {
      var rest := Join(parts[1..], sep);
      SplitUnique(parts[1..], sep, rest);
      SplitAfterPiece(parts[0], rest, sep);
      assert parts == [parts[0]] + parts[1..];
    }
  }

  /** `s.split(sep)[0]` is the text before the first separator, and there is a
      second piece exactly when `s` holds a separator; it and the rest are the
      split of the text after that separator. */
  lemma {:induction false} SplitAtFirst(s: string, sep: char)
    ensures Split(s, sep)[0] == s[..IndexOf(s, sep)]
    ensures |Split(s, sep)| >= 2 <==> sep in s
    ensures sep in s ==> Split(s, sep)[1..] == Split(s[IndexOf(s, sep) + 1..], sep)
  {
    if sep !in s {
      assert s[..|s|] == s;
    }
  }

  /** Python's `a < b` on `str`: code-point lexicographic order, in which a
      proper prefix comes first. */
  predicate Less(a: string, b: string)
  {
    if |a| == 0 then |b| > 0
    else if |b| == 0 then false
    else if a[0] == b[0] then Less(a[1..], b[1..])
    else a[0] < b[0]
  }

  lemma {:induction false} LessIrreflexive(a: string)
    ensures !Less(a, a)
  {
    if |a| > 0 {
      LessIrreflexive(a[1..]);
    }
  }

  lemma {:induction false} LessTransitive(a: string, b: string, c: string)
    requires Less(a, b) && Less(b, c)
    ensures Less(a, c)
  {
    if |a| > 0 && |b| > 0 && |c| > 0 && a[0] == b[0] && b[0] == c[0] {
      LessTransitive(a[1..], b[1..], c[1..]);
    }
  }

  /** Any two different strings are ordered one way or the other. */
  lemma {:induction false} LessTotal(a: string, b: string)
    ensures a == b || Less(a, b) || Less(b, a)
  {
    if |a| > 0 && |b| > 0 && a[0] == b[0] {
      LessTotal(a[1..], b[1..]);
      if a[1..] == b[1..] {
        assert a == [a[0]] + a[1..];
        assert b == [b[0]] + b[1..];
      }
    }
  }

  lemma {:induction false} LessAsymmetric(a: string, b: string)
    requires Less(a, b)
    ensures !Less(b, a)
  {
    if |a| > 0 && |b| > 0 && a[0] == b[0] {
      LessAsymmetric(a[1..], b[1..]);
    }
  }

}
