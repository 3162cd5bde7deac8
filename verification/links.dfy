/**
 Parsing of the comma-separated links text typed into the tracker's forms
 (main.py lines 84 and 114): split on ',', strip whitespace from every piece,
 and keep only the pieces that are non-empty after stripping, in order.
 */
module Links {
  import opened Text
  import opened Seqs

  /** The separator between links in the input text. */
  const Comma: char := ','

  /** What parsing produces: a non-empty string with no whitespace at
      either end. */
  predicate IsLink(x: string) {
    x != [] && Trimmed(x)
  }

  /** What one piece contributes to the parse: its stripped form, or
      nothing when that is empty. */
  function Kept(piece: string): (r: seq<string>)
    ensures |r| <= 1
    ensures r == [] <==> AllSpace(piece)
    ensures forall k :: 0 <= k < |r| ==> IsLink(r[k])
  {
    var t := Strip(piece);
    if t == [] then [] else [t]
  }

  /* A one-piece contribution holds just the non-empty stripped piece. */
  lemma KeptMembers(piece: string, t: string)
    ensures t in Kept(piece) <==> t != [] && Strip(piece) == t
  {
  }

  /** The filtering half of the parse, over pieces already split apart:
      the stripped form of every piece that is not all whitespace. */
  function KeepNonBlank(pieces: seq<string>): (r: seq<string>)
    ensures |r| <= |pieces|
    ensures forall k :: 0 <= k < |r| ==> IsLink(r[k])
  {
    if pieces == [] then []
    else Kept(pieces[0]) + KeepNonBlank(pieces[1..])
  }

  /** Filtering drops everything exactly when every piece is blank. */
  lemma {:induction false} KeepNonBlankEmpty(pieces: seq<string>)
    ensures KeepNonBlank(pieces) == [] <==> AllBlank(pieces)
    decreases |pieces|
  {
    if pieces != [] {
      var rest := pieces[1..];
      KeepNonBlankEmpty(rest);
      AllBlankCons(pieces);
      assert KeepNonBlank(pieces) == Kept(pieces[0]) + KeepNonBlank(rest);
    }
  }

  /** A string is kept exactly when it is the non-empty stripped form of
      some piece. */
  lemma {:induction false} KeepNonBlankMembers(pieces: seq<string>, t: string)
    ensures t in KeepNonBlank(pieces) <==>
      t != [] && exists k :: 0 <= k < |pieces| && Strip(pieces[k]) == t
    decreases |pieces|
  {
    if pieces != [] {
      var rest := pieces[1..];
      KeepNonBlankMembers(rest, t);
      KeptMembers(pieces[0], t);
      assert forall k :: 0 <= k < |rest| ==> rest[k] == pieces[k + 1];
    }
  }

  /** Filtering commutes with concatenation: the links from `a + b` are
      those from `a` followed by those from `b`, so no piece is reordered. */
  lemma {:induction false} KeepNonBlankConcat(a: seq<string>, b: seq<string>)
    ensures KeepNonBlank(a + b) == KeepNonBlank(a) + KeepNonBlank(b)
    decreases |a|
  {
    if a == [] {
      ConcatEmptyLeft(b);
    } else {
      var h := Kept(a[0]);
      assert KeepNonBlank(a + b) == h + KeepNonBlank(a[1..] + b) by {
        DropFirstOfConcat(a, b);
      }
      KeepNonBlankConcat(a[1..], b);
      ConcatAssoc(h, KeepNonBlank(a[1..]), KeepNonBlank(b));
    }
  }

  /** Parses a links text: every link is non-empty and trimmed. */
  function ParseLinks(text: string): (r: seq<string>)
    ensures forall k :: 0 <= k < |r| ==> IsLink(r[k])
  {
    KeepNonBlank(Split(text, Comma))
  }

  /** There are never more links than comma-separated pieces in the text. */
  lemma ParseLinksCount(text: string)
    ensures |ParseLinks(text)| <= multiset(text)[Comma] + 1
  {
    SplitCount(text, Comma);
  }

  /** Parsing distributes over a comma: the links of `a + "," + b` are the
      links of `a` followed by the links of `b`. */
  lemma ParseLinksAround(a: string, b: string)
    ensures ParseLinks(a + [Comma] + b) == ParseLinks(a) + ParseLinks(b)
  {
    SplitAround(a, b, Comma);
    KeepNonBlankConcat(Split(a, Comma), Split(b, Comma));
  }

  /** A text without commas yields its stripped form as the only link, or
      nothing when it is blank. Together with `ParseLinksAround` this
      determines the parse of every text. */
  lemma ParseLinksPiece(x: string)
    requires Comma !in x
    ensures ParseLinks(x) == if AllSpace(x) then [] else [Strip(x)]
  {
    SplitWithoutSeparator(x, Comma);
    assert [x][1..] == [];
  }

  /** Parsing the comma-join of comma-free pieces keeps exactly the
      non-blank pieces, stripped, in their original order. */
  lemma ParseLinksOfJoin(pieces: seq<string>)
    requires |pieces| >= 1
    requires forall k :: 0 <= k < |pieces| ==> Comma !in pieces[k]
    ensures ParseLinks(Join(pieces, Comma)) == KeepNonBlank(pieces)
  {
    SplitJoin(pieces, Comma);
  }

  /** A text yields no links exactly when it holds nothing but whitespace
      and commas (this includes the empty text). */
  lemma ParseLinksEmpty(text: string)
    ensures ParseLinks(text) == [] <==> SpaceOrSeparator(text, Comma)
  {
    SplitAllSpace(text, Comma);
    KeepNonBlankEmpty(Split(text, Comma));
  }

  /** A single link padded with whitespace parses to that link alone. */
  lemma ParseLinksPadded(pre: string, link: string, post: string)
    requires AllSpace(pre) && AllSpace(post) && IsLink(link)
    requires Comma !in pre + link + post
    ensures ParseLinks(pre + link + post) == [link]
  {
    ParseLinksPiece(pre + link + post);
    StripPadded(pre, link, post);
  }

  /** A leading link padded with whitespace contributes exactly that link
      before the links of the rest. */
  lemma ParseLinksPaddedAround(pre: string, link: string, post: string, rest: string)
    requires AllSpace(pre) && AllSpace(post) && IsLink(link)
    requires Comma !in pre + link + post
    ensures ParseLinks(pre + link + post + [Comma] + rest) == [link] + ParseLinks(rest)
  {
    ParseLinksAround(pre + link + post, rest);
    ParseLinksPadded(pre, link, post);
  }

  /** A leading blank piece contributes nothing. */
  lemma ParseLinksBlankAround(blank: string, rest: string)
    requires AllSpace(blank) && Comma !in blank
    ensures ParseLinks(blank + [Comma] + rest) == ParseLinks(rest)
  {
    ParseLinksAround(blank, rest);
    ParseLinksPiece(blank);
    ConcatEmptyLeft(ParseLinks(rest));
  }

  /* The worked example after its second comma: an empty piece, then a
     padded link. */
  lemma ExampleTail(c: char)
    requires !IsSpace(c) && c != Comma
    ensures ParseLinks([Comma, ' ', c]) == [[c]]
  {
    var last := [' '] + [c] + [];
    ParseLinksPadded([' '], [c], []);
    ParseLinksBlankAround([], last);
    assert [] + [Comma] + last == [Comma, ' ', c];
  }

  /* The worked example after its first comma. */
  lemma ExampleRest(b: char, c: char)
    requires !IsSpace(b) && !IsSpace(c)
    requires b != Comma && c != Comma
    ensures ParseLinks([' ', b, ' ', Comma, Comma, ' ', c]) == [[b], [c]]
  {
    var sp: string := [' '];
    var tail := [Comma, ' ', c];
    ExampleTail(c);
    ParseLinksPaddedAround(sp, [b], sp, tail);
    assert sp + [b] + sp + [Comma] + tail == [' ', b, ' ', Comma, Comma, ' ', c];
  }

  /** The worked example `"a, b ,, c"`, for any link characters `a`, `b`
      and `c`: it parses to `["a", "b", "c"]`. The spaces around each link
      are stripped and the empty piece between the two adjacent commas is
      dropped. */
  lemma ParseLinksExample(a: char, b: char, c: char)
    requires !IsSpace(a) && !IsSpace(b) && !IsSpace(c)
    requires a != Comma && b != Comma && c != Comma
    ensures ParseLinks([a, ',', ' ', b, ' ', ',', ',', ' ', c]) == [[a], [b], [c]]
  {
    var rest := [' ', b, ' ', Comma, Comma, ' ', c];
    ExampleRest(b, c);
    ParseLinksPaddedAround([], [a], [], rest);
    assert [] + [a] + [] + [Comma] + rest == [a, ',', ' ', b, ' ', ',', ',', ' ', c];
  }
}
