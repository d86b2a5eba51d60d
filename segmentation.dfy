/**
  What it means for a word to be built from dictionary words.

  `SegmentableFrom(w, i, dict)` is the meaning of one entry `opt[i]` of the
  dynamic program in `Trie.IsWordCompound`: the suffix of `w` that starts at
  `i` splits into words of `dict`. `Compound(w, dict)` is the meaning of
  `opt[0]`: the first piece must be shorter than the whole word. Both are
  related below to an independent definition by an explicit list of pieces.
 */
module Segmentation {

  /** The concatenation of a list of pieces. */
  function Concat(pieces: seq<string>): string
  {
    if pieces == [] then [] else pieces[0] + Concat(pieces[1..])
  }

  /** `pieces` are non-empty words of `dict` whose concatenation is `s`. */
  ghost predicate IsSplit(pieces: seq<string>, s: string, dict: set<string>)
  {
    && (forall k :: 0 <= k < |pieces| ==> pieces[k] != [] && pieces[k] in dict)
    && Concat(pieces) == s
  }

  /** The suffix `w[i..]` splits into zero or more words of `dict`
      (zero exactly when the suffix is empty). */
  ghost predicate SegmentableFrom(w: string, i: nat, dict: set<string>)
    requires i <= |w|
    decreases |w| - i
  {
    i == |w| || exists k :: i < k <= |w| && w[i..k] in dict && SegmentableFrom(w, k, dict)
  }

  /** `w` is compound: a first piece of `dict` shorter than `w`, followed by
      a split of the rest, which is non-empty. */
  ghost predicate Compound(w: string, dict: set<string>)
  {
    exists k :: 0 < k < |w| && w[..k] in dict && SegmentableFrom(w, k, dict)
  }

  lemma ConcatCons(p: string, rest: seq<string>)
    ensures Concat([p] + rest) == p + Concat(rest)
  {
    assert ([p] + rest)[1..] == rest;
  }

  /** A suffix that is segmentable has an explicit split into pieces. */
  lemma {:induction false} SegmentableFromHasSplit(w: string, i: nat, dict: set<string>)
    returns (pieces: seq<string>)
    requires i <= |w| && SegmentableFrom(w, i, dict)
    ensures IsSplit(pieces, w[i..], dict)
    decreases |w| - i
  {
    if i == |w| {
      pieces := [];
    } else {
      var k :| i < k <= |w| && w[i..k] in dict && SegmentableFrom(w, k, dict);
      var rest := SegmentableFromHasSplit(w, k, dict);
      pieces := [w[i..k]] + rest;
      ConcatCons(w[i..k], rest);
      assert w[i..] == w[i..k] + w[k..];
    }
  }

  /** An explicit split of a suffix makes it segmentable. */
  lemma {:induction false} SplitIsSegmentable(pieces: seq<string>, w: string, i: nat, dict: set<string>)
    requires i <= |w| && IsSplit(pieces, w[i..], dict)
    ensures SegmentableFrom(w, i, dict)
    decreases |pieces|
  {
    if pieces != [] {
      var p := pieces[0];
      var k := i + |p|;
      assert pieces == [p] + pieces[1..];
      ConcatCons(p, pieces[1..]);
      assert w[i..] == p + Concat(pieces[1..]);
      assert k <= |w| && w[i..k] == p;
      assert w[k..] == Concat(pieces[1..]);
      SplitIsSegmentable(pieces[1..], w, k, dict);
    }
  }

  /** The concatenation of a list of non-empty pieces is empty only for the
      empty list. */
  lemma {:induction false} ConcatNonEmpty(pieces: seq<string>, dict: set<string>, s: string)
    requires IsSplit(pieces, s, dict) && pieces != []
    ensures |s| >= |pieces[0]| > 0
  {
    ConcatCons(pieces[0], pieces[1..]);
    assert pieces == [pieces[0]] + pieces[1..];
  }

  /** A word is compound exactly when it splits into two or more non-empty
      words of the dictionary. */
  lemma CompoundIffTwoPieces(w: string, dict: set<string>)
    ensures Compound(w, dict) <==> exists pieces :: |pieces| >= 2 && IsSplit(pieces, w, dict)
  {
    if Compound(w, dict) {
      var pieces := CompoundHasSplit(w, dict);
    }
    if pieces :| |pieces| >= 2 && IsSplit(pieces, w, dict) {
      SplitIsCompound(pieces, w, dict);
    }
  }

  lemma CompoundHasSplit(w: string, dict: set<string>) returns (pieces: seq<string>)
    requires Compound(w, dict)
    ensures |pieces| >= 2 && IsSplit(pieces, w, dict)
  {
    var k :| 0 < k < |w| && w[..k] in dict && SegmentableFrom(w, k, dict);
    var rest := SegmentableFromHasSplit(w, k, dict);
    pieces := [w[..k]] + rest;
    ConcatCons(w[..k], rest);
    assert w == w[..k] + w[k..];
  }

  lemma SplitIsCompound(pieces: seq<string>, w: string, dict: set<string>)
    requires |pieces| >= 2 && IsSplit(pieces, w, dict)
    ensures Compound(w, dict)
  {
    var p := pieces[0];
    var rest := pieces[1..];
    assert pieces == [p] + rest;
    ConcatCons(p, rest);
    assert IsSplit(rest, Concat(rest), dict);
    ConcatNonEmpty(rest, dict, Concat(rest));
    var k := |p|;
    assert 0 < k < |w| && w[..k] == p && w[k..] == Concat(rest);
    SplitIsSegmentable(rest, w, k, dict);
  }

  /** Words of zero or one character are never compound: there is no room
      for two non-empty pieces. */
  lemma ShortWordNotCompound(w: string, dict: set<string>)
    requires |w| <= 1
    ensures !Compound(w, dict)
  {
  }

  /** The whole word never serves as one of its own pieces: whether `w` is
      compound does not depend on whether `w` itself is in the dictionary.
      So a dictionary word that does not split into other dictionary words
      is not compound. */
  lemma WholeWordNotOwnPiece(w: string, dict: set<string>)
    ensures Compound(w, dict) <==> Compound(w, dict - {w})
  {
    if Compound(w, dict) {
      var k :| 0 < k < |w| && w[..k] in dict && SegmentableFrom(w, k, dict);
      SuffixWithoutWhole(w, k, dict);
      assert w[..k] != w;
    }
    if Compound(w, dict - {w}) {
      var k :| 0 < k < |w| && w[..k] in dict - {w} && SegmentableFrom(w, k, dict - {w});
      SuffixWithoutWhole(w, k, dict);
    }
  }

  /** A proper suffix `w[i..]` splits into words of `dict` exactly when it
      splits into words of `dict` other than `w`: every piece is shorter
      than `w`. */
  lemma {:induction false} SuffixWithoutWhole(w: string, i: nat, dict: set<string>)
    requires 0 < i <= |w|
    ensures SegmentableFrom(w, i, dict) <==> SegmentableFrom(w, i, dict - {w})
    decreases |w| - i
  {
    if i < |w| {
      if SegmentableFrom(w, i, dict) {
        var k :| i < k <= |w| && w[i..k] in dict && SegmentableFrom(w, k, dict);
        SuffixWithoutWhole(w, k, dict);
        assert |w[i..k]| < |w|;
      }
      if SegmentableFrom(w, i, dict - {w}) {
        var k :| i < k <= |w| && w[i..k] in dict - {w} && SegmentableFrom(w, k, dict - {w});
        SuffixWithoutWhole(w, k, dict);
      }
    }
  }

  /** Two non-empty words of the dictionary, joined, make a compound word. */
  lemma TwoWordsCompound(a: string, b: string, dict: set<string>)
    requires a != [] && b != [] && a in dict && b in dict
    ensures Compound(a + b, dict)
  {
    var w := a + b;
    assert w[..|a|] == a && w[|a|..|w|] == b;
    assert SegmentableFrom(w, |w|, dict);
    assert SegmentableFrom(w, |a|, dict);
  }
}
