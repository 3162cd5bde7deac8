/**
 Generic facts about sequence concatenation and slicing. Stated once for an
 arbitrary element type, they are cheap to prove here and cheap to use on
 sequences of strings, where proving them in place would compare strings
 character by character.
 */
module Seqs {

  lemma ConcatAssoc<T>(x: seq<T>, y: seq<T>, z: seq<T>)
    ensures x + (y + z) == (x + y) + z
  {
  }

  lemma ConcatEmptyLeft<T>(x: seq<T>)
    ensures [] + x == x
  {
  }

  /** Dropping the first element of a concatenation with a non-empty left
      part drops it from the left part. */
  lemma DropFirstOfConcat<T>(x: seq<T>, y: seq<T>)
    requires x != []
    ensures (x + y)[0] == x[0]
    ensures (x + y)[1..] == x[1..] + y
  {
  }

  /** Dropping the last element of a concatenation with a non-empty right
      part drops it from the right part. */
  lemma DropLastOfConcat<T>(x: seq<T>, y: seq<T>)
    requires y != []
    ensures (x + y)[|x + y| - 1] == y[|y| - 1]
    ensures (x + y)[..|x + y| - 1] == x + y[..|y| - 1]
  {
  }

  /** A non-empty sequence is its prefix without the last element followed
      by that element. */
  lemma SplitLast<T>(x: seq<T>)
    requires x != []
    ensures x == x[..|x| - 1] + [x[|x| - 1]]
  {
  }

  /** The parts of a sequence with one element appended. */
  lemma SnocParts<T>(x: seq<T>, e: T)
    ensures |x + [e]| == |x| + 1
    ensures (x + [e])[..|x|] == x
    ensures (x + [e])[|x|] == e
  {
  }

  /** A sequence that starts with `x` is `x` followed by the rest. */
  lemma SplitPrefix<T>(x: seq<T>, y: seq<T>)
    requires x <= y
    ensures y == x + y[|x|..]
  {
  }
}
