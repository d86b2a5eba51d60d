/**
  The trie of dictionary words and the compound-word test that walks it.

  A `Trie` owns a root node of one representation, chosen when it is made
  (`optimizeMemory` picks the linked-list nodes). Its ghost state says what
  the nodes mean: `Words` is the set of inserted words and `NodeAt` maps each
  prefix of an inserted word to the node that spells it. `Valid` ties the
  nodes' edges and flags to that state, so each operation is specified by
  what it does to `Words` and `NodeAt`, whichever representation is in use.
 */
module Tries {
  import opened TrieNodes
  import opened Segmentation
  import opened TrieShapes

  /** What the dynamic program's entry `opt[k]` means once it is filled in:
      for `k > 0` that `w[k..]` splits into dictionary words; for `k == 0`
      that `w` is compound, except that the empty word gets `opt[n]`, which
      is true. */
  ghost predicate Entry(w: string, k: nat, dict: set<string>)
    requires k <= |w|
  {
    if k == 0 && |w| > 0 then Compound(w, dict) else SegmentableFrom(w, k, dict)
  }

  /** `p` is a prefix of `w`. */
  predicate IsPrefix(p: string, w: string)
  {
    |p| <= |w| && p == w[..|p|]
  }

  /** The prefixes of `w` of length at most `i`. */
  ghost function Prefixes(w: string, i: nat): set<string>
    requires i <= |w|
  {
    set k | 0 <= k <= i :: w[..k]
  }

  /** `m1` is `m0` with the prefixes of `w` of length at most `i` added;
      the nodes `m0` had are kept. */
  ghost predicate Grown(m0: map<string, NodeRef>, m1: map<string, NodeRef>, w: string, i: nat)
    requires i <= |w|
  {
    && m1.Keys == m0.Keys + Prefixes(w, i)
    && forall p :: p in m0 ==> m1[p] == m0[p]
  }

  /** Adding the node of the next prefix keeps the map grown. */
  lemma GrownStep(m0: map<string, NodeRef>, m1: map<string, NodeRef>, m2: map<string, NodeRef>,
                  w: string, i: nat, next: NodeRef)
    requires i < |w| && Grown(m0, m1, w, i)
    requires m2 == m1[w[..i + 1] := next] && (w[..i + 1] in m1 ==> m2 == m1)
    ensures Grown(m0, m2, w, i + 1)
  {
    assert Prefixes(w, i + 1) == Prefixes(w, i) + {w[..i + 1]};
  }

  /** The prefixes of the whole word are exactly its prefixes. */
  lemma PrefixesAll(w: string, p: string)
    ensures p in Prefixes(w, |w|) <==> IsPrefix(p, w)
  {
  }

  function Min(x: int, y: int): int
  {
    if x <= y then x else y
  }

  /** One past the last position a piece starting at `i` may end at: the
      end of the word, except that the piece starting at 0 may not be the
      whole word. */
  function PieceEnd(n: nat, i: nat): (e: nat)
    requires i < n
    ensures i <= e <= n
    ensures i > 0 ==> e == n
    ensures i == 0 ==> e == n - 1
  {
    i + Min(n - i, n - 1)
  }

  /** The recurrence the table follows: the entry at `i` holds exactly when
      some piece `w[i..k]`, ending no later than `PieceEnd`, is a word and
      the entry at `k` holds. */
  lemma EntryRecurrence(w: string, i: nat, dict: set<string>)
    requires i < |w|
    ensures Entry(w, i, dict) <==>
      exists k :: i < k <= PieceEnd(|w|, i) && w[i..k] in dict && Entry(w, k, dict)
  {
    if i == 0 {
      forall k | 0 < k <= |w|
        ensures w[i..k] == w[..k]
      {
      }
    }
  }

  /** The entries after `i` of the table `t` are filled in. */
  ghost predicate FilledAfter(w: string, t: seq<bool>, i: nat, dict: set<string>)
    requires |t| == |w| + 1
  {
    forall k :: i < k <= |w| ==> t[k] == Entry(w, k, dict)
  }

  /** A piece that is a word, followed by a set entry, sets the entry. */
  lemma EntryFound(w: string, t: seq<bool>, i: nat, k: nat, dict: set<string>)
    requires |t| == |w| + 1 && FilledAfter(w, t, i, dict)
    requires i < |w| && i < k <= PieceEnd(|w|, i) && w[i..k] in dict && t[k]
    ensures Entry(w, i, dict)
  {
    EntryRecurrence(w, i, dict);
  }

  /** When no piece that is a word is followed by a set entry, the entry
      stays clear. */
  lemma EntryMissing(w: string, t: seq<bool>, i: nat, dict: set<string>)
    requires |t| == |w| + 1 && FilledAfter(w, t, i, dict) && i < |w|
    requires forall k :: i < k <= PieceEnd(|w|, i) ==> !(w[i..k] in dict && t[k])
    ensures !Entry(w, i, dict)
  {
    EntryRecurrence(w, i, dict);
  }

  class Trie {
    /** Whether the nodes are the linked-list kind (`MemNode`) rather than
        the array kind (`Node`). */
    const optimizeMemory: bool
    const root: NodeRef
    /** The words inserted so far. */
    ghost var Words: set<string>
    /** The node reached by spelling each prefix of an inserted word. */
    ghost var NodeAt: map<string, NodeRef>
    /** The prefix whose node each handle belongs to. */
    ghost var Owner: map<object, string>
    /** The objects of all the nodes. */
    ghost var Repr: set<object>

    /** Array nodes only have slots for 'a' to 'z'. */
    ghost predicate Supports(w: string)
    {
      optimizeMemory || forall i :: 0 <= i < |w| ==> IsLower(w[i])
    }

    ghost function Abs(): Shape
      reads this
    {
      Shape(root, optimizeMemory, NodeAt, Owner, Words)
    }

    ghost predicate Valid()
      reads this, Repr
    {
      this !in Repr && Sound(Abs(), Repr)
    }

    constructor (optimizeMemory: bool)
      ensures Valid() && fresh(Repr)
      ensures this.optimizeMemory == optimizeMemory && Words == {} && NodeAt.Keys == {""}
    {
      this.optimizeMemory := optimizeMemory;
      if optimizeMemory {
        var m := new MemNode(None);
        root := Mem(m);
        Repr := {m};
      } else {
        var a := new Node(None);
        root := Arr(a);
        Repr := {a, a.children};
      }
      Words := {};
      NodeAt := map["" := root];
      new;
      Owner := map[Handle(root) := ""];
      RootSound(Abs(), Repr);
    }

    /** Adds to the node of `p` a child for `c`, where there was none. */
    method Extend(node: NodeRef, ghost p: string, c: char) returns (child: NodeRef)
      requires Valid() && p in NodeAt && NodeAt[p] == node
      requires p + [c] !in NodeAt && (optimizeMemory || IsLower(c))
      modifies this, Repr
      ensures Valid() && fresh(Repr - old(Repr))
      ensures Words == old(Words) && NodeAt == old(NodeAt)[p + [c] := child]
    {
      NodeFacts(Abs(), Repr, p);
      EdgeFact(Abs(), Repr, p, c);
      child := AddChild(node, c);
      ExtendSound(Repr, Abs(), node, p, c, child);
      NodeAt := NodeAt[p + [c] := child];
      Owner := Owner[Handle(child) := p + [c]];
      Repr := Repr + Objs(child);
    }

    /** One step of `Insert`'s walk: the child of `node` for `c`, added
        when it is missing. */
    method Descend(node: NodeRef, ghost p: string, c: char) returns (next: NodeRef)
      requires Valid() && p in NodeAt && NodeAt[p] == node && (optimizeMemory || IsLower(c))
      modifies this, Repr
      ensures Valid() && fresh(Repr - old(Repr)) && Words == old(Words)
      ensures NodeAt == old(NodeAt)[p + [c] := next]
      ensures p + [c] in old(NodeAt) ==> NodeAt == old(NodeAt) && Repr == old(Repr)
    {
      NodeFacts(Abs(), Repr, p);
      EdgeFact(Abs(), Repr, p, c);
      var r := GetChild(node, c);
      if r.None? {
        next := Extend(node, p, c);
      } else {
        next := r.value;
      }
    }

    /** Walks down from the root along `w`, adding each missing edge, and
        marks the last node as the end of a word. Afterwards the prefixes of
        `w` are spelled, and nothing else is added; a word already spelled
        adds no node. */
    method Insert(w: string)
      requires Valid() && Supports(w)
      modifies this, Repr
      ensures Valid() && fresh(Repr - old(Repr))
      ensures Words == old(Words) + {w}
      ensures forall p :: p in NodeAt <==> p in old(NodeAt) || IsPrefix(p, w)
      ensures forall p :: p in old(NodeAt) ==> NodeAt[p] == old(NodeAt)[p]
      ensures w in old(NodeAt) ==> NodeAt == old(NodeAt) && Repr == old(Repr)
    {
      var current := root;
      for i := 0 to |w|
        invariant Valid() && fresh(Repr - old(Repr)) && Words == old(Words)
        invariant Grown(old(NodeAt), NodeAt, w, i)
        invariant w[..i] in NodeAt && current == NodeAt[w[..i]]
        invariant w in old(NodeAt) ==> NodeAt == old(NodeAt) && Repr == old(Repr)
      {
        ghost var before := NodeAt;
        assert w[..i] + [w[i]] == w[..i + 1];
        current := Descend(current, w[..i], w[i]);
        GrownStep(old(NodeAt), before, NodeAt, w, i, current);
      }
      assert w[..|w|] == w;
      forall p
        ensures p in NodeAt <==> p in old(NodeAt) || IsPrefix(p, w)
      {
        PrefixesAll(w, p);
      }
      Mark(current, w);
    }

    /** Sets the word flag of the node of `p`, which makes `p` a word. */
    method Mark(node: NodeRef, ghost p: string)
      requires Valid() && p in NodeAt && NodeAt[p] == node
      modifies this, Repr
      ensures Valid() && Words == old(Words) + {p}
      ensures NodeAt == old(NodeAt) && Repr == old(Repr)
    {
      NodeFacts(Abs(), Repr, p);
      SetWord(node);
      MarkSound(Repr, Abs(), node, p);
      Words := Words + {p};
    }

    /** Walks down from the root along `w`; true when every edge exists and
        the last node marks a word. */
    method Lookup(w: string) returns (found: bool)
      requires Valid() && Supports(w)
      ensures found == (w in Words)
    {
      var current := root;
      for i := 0 to |w|
        invariant Valid() && w[..i] in NodeAt && current == NodeAt[w[..i]]
      {
        assert w[..i] + [w[i]] == w[..i + 1];
        NodeFacts(Abs(), Repr, w[..i]);
        EdgeFact(Abs(), Repr, w[..i], w[i]);
        var next := GetChild(current, w[i]);
        if next.None? {
          assert w[..|w|][..i + 1] == w[..i + 1];
          return false;
        }
        current := next.value;
      }
      assert w[..|w|] == w;
      NodeFacts(Abs(), Repr, w);
      found := IsWord(current);
    }

    /** Fills the table `opt` from the end of `w` backwards: `opt[i]` is set
        when some piece starting at `i` is a word and the entry after it is
        set. The answer is `opt[0]`, which for the empty word is the entry
        `opt[n]` set at the start. */
    method IsWordCompound(w: string) returns (r: bool)
      requires Valid() && Supports(w)
      ensures r == (w == [] || Compound(w, Words))
    {
      var n := |w|;
      var opt := new bool[n + 1](_ => false);
      opt[n] := true;
      for i := n downto 0
        invariant forall k :: i <= k <= n ==> opt[k] == Entry(w, k, Words)
        invariant forall k :: 0 <= k < i ==> !opt[k]
      {
        var found := PieceFollows(w, opt, i);
        if found {
          opt[i] := true;
        }
      }
      r := opt[0];
    }

    /** The inner loop of `IsWordCompound`: whether some piece starting at
        `i` is a word whose entry after it is set. The walk down the trie
        stops at the first missing edge, since no longer piece can then be
        a word. */
    method PieceFollows(w: string, opt: array<bool>, i: nat) returns (found: bool)
      requires Valid() && Supports(w)
      requires opt.Length == |w| + 1 && i < |w|
      requires FilledAfter(w, opt[..], i, Words)
      ensures found == Entry(w, i, Words)
    {
      var n := |w|;
      var current := root;
      var end := PieceEnd(n, i);
      ghost var t := opt[..];
      assert w[i..i] == "" && NodeOf(Abs(), "") == root;
      for j := i to end
        invariant Valid() && w[i..j] in NodeAt && current == NodeAt[w[i..j]]
        invariant forall k :: i < k <= j ==> !(w[i..k] in Words && t[k])
      {
        assert w[i..j] + [w[j]] == w[i..j + 1];
        NodeFacts(Abs(), Repr, w[i..j]);
        EdgeFact(Abs(), Repr, w[i..j], w[j]);
        var next := GetChild(current, w[j]);
        if next.None? {
          NoWordBeyond(Abs(), Repr, w, i, j, end);
          EntryMissing(w, t, i, Words);
          return false;
        }
        current := next.value;
        NodeFacts(Abs(), Repr, w[i..j + 1]);
        if IsWord(current) && opt[j + 1] {
          EntryFound(w, t, i, j + 1, Words);
          return true;
        }
      }
      EntryMissing(w, t, i, Words);
      return false;
    }
  }
}
