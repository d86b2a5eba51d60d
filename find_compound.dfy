/**
  The search for the longest compound word of a list, and a client that
  builds the trie from the list as the program's entry point does.
 */
module FindCompound {
  import opened TrieNodes
  import opened Segmentation
  import opened Tries

  /** `s` is the answer for `words` over `dict`: the empty string when no
      word of the list is compound; otherwise a compound word of the list
      that no compound word of the list is longer than, and that no earlier
      compound word of the same length precedes. */
  ghost predicate IsLongestCompound(words: seq<string>, dict: set<string>, s: string)
  {
    && (forall k :: 0 <= k < |words| && Compound(words[k], dict) ==> |words[k]| <= |s|)
    && (s == [] ==> forall k :: 0 <= k < |words| ==> !Compound(words[k], dict))
    && (s != [] ==> exists i :: FirstLongest(words, dict, s, i))
  }

  /** `s` is compound and sits at position `i` of `words`, and every
      compound word before it is shorter. */
  ghost predicate FirstLongest(words: seq<string>, dict: set<string>, s: string, i: int)
  {
    && 0 <= i < |words| && words[i] == s && Compound(s, dict)
    && forall k :: 0 <= k < i && Compound(words[k], dict) ==> |words[k]| < |s|
  }

  /** There is only one answer: the conditions above leave no choice. */
  lemma LongestCompoundUnique(words: seq<string>, dict: set<string>, s: string, t: string)
    requires IsLongestCompound(words, dict, s) && IsLongestCompound(words, dict, t)
    ensures s == t
  {
    if s != [] && t != [] {
      var i :| FirstLongest(words, dict, s, i);
      var j :| FirstLongest(words, dict, t, j);
    }
  }

  /** Scans `words` in order, keeping the longest compound word met so far.
      A word is only tested when it is strictly longer than that word, so a
      later word of the same length never replaces it. */
  method LongestCompoundWord(trie: Trie, words: seq<string>) returns (solution: string)
    requires trie.Valid()
    requires forall k :: 0 <= k < |words| ==> trie.Supports(words[k])
    ensures IsLongestCompound(words, trie.Words, solution)
  {
    var maxLength := 0;
    solution := "";
    ghost var at := 0;
    for i := 0 to |words|
      invariant trie.Valid() && maxLength == |solution|
      invariant forall k :: 0 <= k < i && Compound(words[k], trie.Words) ==> |words[k]| <= maxLength
      invariant solution == [] ==> forall k :: 0 <= k < i ==> !Compound(words[k], trie.Words)
      invariant solution != [] ==> at < i && FirstLongest(words, trie.Words, solution, at)
    {
      var word := words[i];
      if |word| > maxLength {
        var compound := trie.IsWordCompound(word);
        if compound {
          maxLength := |word|;
          solution := word;
          at := i;
        }
      } else if solution == [] {
        ShortWordNotCompound(word, trie.Words);
      }
    }
  }

  /** Inserts every word of the list, one after the other. */
  method BuildTrie(words: seq<string>, optimizeMemory: bool) returns (trie: Trie)
    requires optimizeMemory || forall k, j :: 0 <= k < |words| && 0 <= j < |words[k]| ==> IsLower(words[k][j])
    ensures fresh(trie) && trie.Valid() && trie.optimizeMemory == optimizeMemory
    ensures trie.Words == set k | 0 <= k < |words| :: words[k]
  {
    trie := new Trie(optimizeMemory);
    for i := 0 to |words|
      invariant fresh(trie) && fresh(trie.Repr) && trie.Valid() && trie.optimizeMemory == optimizeMemory
      invariant trie.Words == set k | 0 <= k < i :: words[k]
    {
      trie.Insert(words[i]);
    }
  }

  /** In a list of "rat", two six-letter words made of "rat" and "cat",
      and "cat", the first six-letter word is the answer. */
  lemma FirstSixLetterWord(x: string, y: string, dict: set<string>)
    requires "rat" in dict && "cat" in dict
    requires {x, y} == {"ratcat", "catrat"}
    ensures IsLongestCompound(["rat", x, y, "cat"], dict, x)
  {
    TwoWordsCompound("rat", "cat", dict);
    TwoWordsCompound("cat", "rat", dict);
    assert "rat" + "cat" == "ratcat" && "cat" + "rat" == "catrat";
    assert FirstLongest(["rat", x, y, "cat"], dict, x, 1);
  }

  /** Two compound words of six letters, "ratcat" and "catrat", over the
      dictionary "rat", "cat", "ratcat", "catrat": the one listed first is
      the answer, in either order and for either kind of node. */
  method FirstOfEqualLength(optimizeMemory: bool) returns (a: string, b: string)
    ensures a == "ratcat" && b == "catrat"
  {
    var one := ["rat", "ratcat", "catrat", "cat"];
    var two := ["rat", "catrat", "ratcat", "cat"];
    var trie := BuildTrie(one, optimizeMemory);
    assert one[0] == "rat" && one[3] == "cat";
    assert "rat" in trie.Words && "cat" in trie.Words;
    a := LongestCompoundWord(trie, one);
    b := LongestCompoundWord(trie, two);
    FirstSixLetterWord("ratcat", "catrat", trie.Words);
    LongestCompoundUnique(one, trie.Words, a, "ratcat");
    FirstSixLetterWord("catrat", "ratcat", trie.Words);
    LongestCompoundUnique(two, trie.Words, b, "catrat");
  }
}
