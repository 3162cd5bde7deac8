/**
 Text primitives used by the tracker's link parsing: trimming whitespace from
 both ends of a string (Python's `str.strip()` with no argument) and splitting
 a string on a separator character (Python's `str.split(",")`).

 Whitespace is the fixed set space, tab, line feed and carriage return.
 */
module Text {
  import opened Seqs

  /** The whitespace characters removed by `Strip`. */
  predicate IsSpace(c: char) {
    c == ' ' || c == '\t' || c == '\n' || c == '\r'
  }

  /** True iff every character of `s` is whitespace (vacuously for ""). */
  predicate AllSpace(s: string) {
    forall i :: 0 <= i < |s| ==> IsSpace(s[i])
  }

  /** True iff every piece is all whitespace. */
  predicate AllBlank(pieces: seq<string>) {
    forall k :: 0 <= k < |pieces| ==> AllSpace(pieces[k])
  }

  /** True iff every character of `s` is whitespace or `sep`. */
  predicate SpaceOrSeparator(s: string, sep: char) {
    forall i :: 0 <= i < |s| ==> IsSpace(s[i]) || s[i] == sep
  }

  /** True iff `s` neither starts nor ends with whitespace. */
  predicate Trimmed(s: string) {
    s == [] || (!IsSpace(s[0]) && !IsSpace(s[|s| - 1]))
  }

  /* The index of the first non-whitespace character at or after `i`, or
     |s| when there is none. */
  function SkipSpaceForward(s: string, i: nat): (n: nat)
    requires i <= |s|
    ensures i <= n <= |s|
    ensures forall k :: i <= k < n ==> IsSpace(s[k])
    ensures n < |s| ==> !IsSpace(s[n])
    decreases |s| - i
  {
    if i == |s| || !IsSpace(s[i]) then i else SkipSpaceForward(s, i + 1)
  }

  /* The index just past the last non-whitespace character before `j`, or
     `lo` when there is none between `lo` and `j`. */
  function SkipSpaceBackward(s: string, lo: nat, j: nat): (n: nat)
    requires lo <= j <= |s|
    ensures lo <= n <= j
    ensures forall k :: n <= k < j ==> IsSpace(s[k])
    ensures lo < n ==> !IsSpace(s[n - 1])
    decreases j
  {
    if j == lo || !IsSpace(s[j - 1]) then j else SkipSpaceBackward(s, lo, j - 1)
  }

  /** Removes leading and trailing whitespace: scans forward past the
      leading whitespace, then backward past the trailing whitespace, and
      keeps what lies between. The result is empty exactly when `s` is all
      whitespace, and otherwise starts and ends with a non-whitespace
      character. */
  function Strip(s: string): (r: string)
    ensures |r| <= |s|
    ensures r == [] <==> AllSpace(s)
    ensures Trimmed(r)
  {
    var a := SkipSpaceForward(s, 0);
    var b := SkipSpaceBackward(s, a, |s|);
    assert AllSpace(s) ==> a == |s|;
    s[a..b]
  }

  /* Whitespace-only strings are closed under concatenation and splitting. */
  lemma AllSpaceConcat(a: string, b: string)
    ensures AllSpace(a + b) <==> AllSpace(a) && AllSpace(b)
  {
    if AllSpace(a + b) {
      assert forall i :: 0 <= i < |a| ==> a[i] == (a + b)[i];
      assert forall i :: 0 <= i < |b| ==> b[i] == (a + b)[|a| + i];
    }
  }

  /** `Strip` removes exactly a whitespace prefix and a whitespace suffix:
      what remains is the contiguous slice `s[a..b]`. */
  lemma StripIsInfix(s: string) returns (a: nat, b: nat)
    ensures a <= b <= |s|
    ensures Strip(s) == s[a..b]
    ensures AllSpace(s[..a]) && AllSpace(s[b..])
  {
    a := SkipSpaceForward(s, 0);
    b := SkipSpaceBackward(s, a, |s|);
    assert forall k :: 0 <= k < a ==> s[..a][k] == s[k];
    assert forall k :: 0 <= k < |s| - b ==> s[b..][k] == s[b + k];
  }

  /* A trimmed string is its own stripped form. */
  lemma StripTrimmed(s: string)
    requires Trimmed(s)
    ensures Strip(s) == s
  {
  }

  /** A string is left alone by `Strip` exactly when it is already trimmed;
      in particular stripping twice is the same as stripping once. */
  lemma StripFixedPoint(s: string)
    ensures Strip(s) == s <==> Trimmed(s)
    ensures Strip(Strip(s)) == Strip(s)
  {
  }

  /** `Strip` removes exactly the whitespace padding around a trimmed,
      non-empty core. */
  lemma StripPadded(pre: string, core: string, post: string)
    requires AllSpace(pre) && AllSpace(post)
    requires core != [] && Trimmed(core)
    ensures Strip(pre + core + post) == core
  {
    var s := pre + core + post;
    var a := SkipSpaceForward(s, 0);
    assert s[|pre|] == core[0];
    assert a == |pre|;
    var b := SkipSpaceBackward(s, a, |s|);
    assert s[|pre| + |core| - 1] == core[|core| - 1];
    assert b == |pre| + |core|;
    assert s[a..b] == core;
  }

  /** Splits `s` on every occurrence of `sep`, keeping empty pieces, as
      Python's `s.split(sep)` does: the result always has at least one
      piece. */
  function Split(s: string, sep: char): (r: seq<string>)
    ensures |r| >= 1
    decreases |s|
  {
    if s == [] then [""]
    else Feed(Split(s[..|s| - 1], sep), s[|s| - 1], sep)
  }

  /* One step of splitting: a separator starts a new empty piece, any other
     character extends the last piece. */
  function Feed(pieces: seq<string>, c: char, sep: char): (r: seq<string>)
    requires |pieces| >= 1
    ensures |r| >= 1
  {
    if c == sep then pieces + [""]
    else pieces[..|pieces| - 1] + [pieces[|pieces| - 1] + [c]]
  }

  /** No piece of a split contains the separator. */
  lemma {:induction false} SplitPiecesLackSeparator(s: string, sep: char)
    ensures forall k :: 0 <= k < |Split(s, sep)| ==> sep !in Split(s, sep)[k]
    decreases |s|
  {
    if s != [] {
      var s' := s[..|s| - 1];
      SplitPiecesLackSeparator(s', sep);
      var init := Split(s', sep);
      var r := Split(s, sep);
      if s[|s| - 1] != sep {
        assert forall k :: 0 <= k < |init| - 1 ==> r[k] == init[k];
        assert r[|r| - 1] == init[|init| - 1] + [s[|s| - 1]];
      } else {
        assert forall k :: 0 <= k < |init| ==> r[k] == init[k];
      }
    }
  }

  /** Concatenates `pieces` with `sep` between consecutive pieces
      (Python's `sep.join(pieces)`). */
  function Join(pieces: seq<string>, sep: char): string
    requires |pieces| >= 1
  {
    if |pieces| == 1 then pieces[0]
    else Join(pieces[..|pieces| - 1], sep) + [sep] + pieces[|pieces| - 1]
  }

  /* Feeding a character to a split in progress extends its join by that
     character. */
  lemma JoinFeed(pieces: seq<string>, c: char, sep: char)
    requires |pieces| >= 1
    ensures Join(Feed(pieces, c, sep), sep) == Join(pieces, sep) + [c]
  {
  }

  /** Joining the pieces of a split gives back the original string. */
  lemma {:induction false} JoinSplit(s: string, sep: char)
    ensures Join(Split(s, sep), sep) == s
    decreases |s|
  {
    if s != [] {
      var s' := s[..|s| - 1];
      var c := s[|s| - 1];
      SplitLast(s);
      JoinSplit(s', sep);
      SplitSnoc(s', c, sep);
      JoinFeed(Split(s', sep), c, sep);
    }
  }

  /* One step of `Split`: the effect of appending a character. */
  lemma SplitSnoc(s: string, c: char, sep: char)
    ensures Split(s + [c], sep) == Feed(Split(s, sep), c, sep)
  {
  }

  /** Splitting a string with a separator inserted between `a` and `b`
      yields the pieces of `a` followed by the pieces of `b`. */
  lemma {:induction false} SplitAround(a: string, b: string, sep: char)
    ensures Split(a + [sep] + b, sep) == Split(a, sep) + Split(b, sep)
    decreases |b|
  {
    if b == [] {
      SplitSnoc(a, sep, sep);
      assert a + [sep] + b == a + [sep];
    } else {
      var b' := b[..|b| - 1];
      var c := b[|b| - 1];
      var x := a + [sep] + b';
      assert b == b' + [c];
      assert a + [sep] + b == x + [c];
      SplitAround(a, b', sep);
      SplitAroundStep(x, a, b', c, sep);
      assert Split(a + [sep] + b, sep) == Split(x + [c], sep);
    }
  }

  /* The inductive step of `SplitAround`: appending one character to both
      `x` and its second part `b`. */
  lemma SplitAroundStep(x: string, a: string, b: string, c: char, sep: char)
    requires Split(x, sep) == Split(a, sep) + Split(b, sep)
    ensures Split(x + [c], sep) == Split(a, sep) + Split(b + [c], sep)
  {
    SplitSnoc(x, c, sep);
    SplitSnoc(b, c, sep);
    FeedConcat(Split(a, sep), Split(b, sep), c, sep);
  }

  /* Feeding a character only touches the last pieces. */
  lemma FeedConcat(xs: seq<string>, ys: seq<string>, c: char, sep: char)
    requires |ys| >= 1
    ensures Feed(xs + ys, c, sep) == xs + Feed(ys, c, sep)
  {
  }

  /** A string without the separator is a single piece. */
  lemma {:induction false} SplitWithoutSeparator(x: string, sep: char)
    requires sep !in x
    ensures Split(x, sep) == [x]
    decreases |x|
  {
    if x != [] {
      var x' := x[..|x| - 1];
      assert x == x' + [x[|x| - 1]];
      assert sep !in x';
      SplitWithoutSeparator(x', sep);
    }
  }

  /** Conversely to `JoinSplit`: any separator-free pieces are recovered by
      splitting their join, so `Split` is the unique such decomposition. */
  lemma {:induction false} SplitJoin(pieces: seq<string>, sep: char)
    requires |pieces| >= 1
    requires forall k :: 0 <= k < |pieces| ==> sep !in pieces[k]
    ensures Split(Join(pieces, sep), sep) == pieces
    decreases |pieces|
  {
    var last := pieces[|pieces| - 1];
    SplitWithoutSeparator(last, sep);
    if |pieces| > 1 {
      var init := pieces[..|pieces| - 1];
      SplitJoin(init, sep);
      SplitAround(Join(init, sep), last, sep);
      assert init + [last] == pieces;
    }
  }

  /** A split has one piece more than the string has separators. */
  lemma {:induction false} SplitCount(s: string, sep: char)
    ensures |Split(s, sep)| == multiset(s)[sep] + 1
    decreases |s|
  {
    if s != [] {
      var s' := s[..|s| - 1];
      assert s == s' + [s[|s| - 1]];
      assert multiset(s) == multiset(s') + multiset{s[|s| - 1]};
      SplitCount(s', sep);
    }
  }

  /* `AllBlank` and `SpaceOrSeparator` looked at one element at the end. */
  lemma AllBlankSnoc(pieces: seq<string>, x: string)
    ensures AllBlank(pieces + [x]) <==> AllBlank(pieces) && AllSpace(x)
  {
    assert forall k :: 0 <= k < |pieces| ==> (pieces + [x])[k] == pieces[k];
    assert (pieces + [x])[|pieces|] == x;
  }

  lemma AllBlankCons(pieces: seq<string>)
    requires pieces != []
    ensures AllBlank(pieces) <==> AllSpace(pieces[0]) && AllBlank(pieces[1..])
  {
  }

  lemma SpaceOrSeparatorSnoc(s: string, c: char, sep: char)
    ensures SpaceOrSeparator(s + [c], sep) <==>
      SpaceOrSeparator(s, sep) && (IsSpace(c) || c == sep)
  {
    assert forall i :: 0 <= i < |s| ==> (s + [c])[i] == s[i];
    assert (s + [c])[|s|] == c;
  }

  /** Every piece of the split is all whitespace exactly when every character
      of `s` is whitespace or the separator. */
  lemma {:induction false} SplitAllSpace(s: string, sep: char)
    ensures AllBlank(Split(s, sep)) <==> SpaceOrSeparator(s, sep)
    decreases |s|
  {
    if s != [] {
      var s' := s[..|s| - 1];
      var c := s[|s| - 1];
      assert s == s' + [c];
      SplitAllSpace(s', sep);
      SpaceOrSeparatorSnoc(s', c, sep);
      SplitSnoc(s', c, sep);
      var init := Split(s', sep);
      if c == sep {
        AllBlankSnoc(init, "");
      } else {
        var pre := init[..|init| - 1];
        var last := init[|init| - 1];
        assert init == pre + [last];
        AllBlankSnoc(pre, last);
        AllBlankSnoc(pre, last + [c]);
        AllSpaceConcat(last, [c]);
      }
    }
  }
}
