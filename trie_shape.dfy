/**
  What the nodes of a trie mean.

  A `Shape` is the ghost picture of a trie: its root, whether its nodes are
  the linked kind, the node reached by spelling each prefix, the prefix that
  owns each node's handle, and the set of inserted words. `Sound(s, nodes)`
  ties the nodes in the heap, whose objects make up `nodes`, to that
  picture: the edges leaving each node are exactly the one-letter
  extensions of its prefix, and a node marks a word exactly when its prefix
  was inserted. The lemmas at the end show that the two changes a trie makes
  to its nodes, adding a child and marking a word, keep it sound.
 */
module TrieShapes {
  import opened TrieNodes

  datatype Shape = Shape(
    root: NodeRef,
    mem: bool,
    nodeAt: map<string, NodeRef>,
    owner: map<object, string>,
    words: set<string>)

  /** Every prefix of a key of `m` is a key of `m`. */
  ghost predicate Closed(m: map<string, NodeRef>)
  {
    forall p, k :: p in m && 0 <= k <= |p| ==> p[..k] in m
  }

  /** The node that spells `p`. The facts `Sound` states about a prefix
      are drawn only for the prefixes whose node a proof names this way,
      which keeps them out of the way of unrelated reasoning. */
  ghost function NodeOf(s: Shape, p: string): NodeRef
    requires p in s.nodeAt
  {
    s.nodeAt[p]
  }

  /** Every node's objects, and the children of every linked node, lie in
      `nodes`, and all nodes are of the one kind. */
  ghost predicate Owned(s: Shape, nodes: set<object>)
    reads nodes
  {
    forall p {:trigger NodeOf(s, p)} :: p in s.nodeAt ==>
      && Objs(NodeOf(s, p)) <= nodes && NodeOf(s, p).Mem? == s.mem
      && (NodeOf(s, p).Mem? ==>
            forall k {:trigger k in NodeOf(s, p).m.Kids} :: k in NodeOf(s, p).m.Kids ==> k in nodes)
  }

  /** No node is shared between two prefixes: each handle has one owner. */
  ghost predicate Separate(s: Shape)
  {
    forall p {:trigger NodeOf(s, p)} :: p in s.nodeAt ==>
      Handle(NodeOf(s, p)) in s.owner && s.owner[Handle(NodeOf(s, p))] == p
  }

  /** The empty prefix is spelled by the root, and every prefix of a spelled
      prefix is spelled. */
  ghost predicate Rooted(s: Shape)
  {
    "" in s.nodeAt && NodeOf(s, "") == s.root && Closed(s.nodeAt)
  }

  ghost predicate NodesIntact(s: Shape, nodes: set<object>)
    requires Owned(s, nodes)
    reads nodes
  {
    forall p {:trigger NodeOf(s, p)} :: p in s.nodeAt ==> Intact(NodeOf(s, p))
  }

  /** The edge for `c` leaves the node of `p` exactly when `p + [c]` is
      spelled, and leads to its node. */
  ghost predicate EdgesMatch(s: Shape, nodes: set<object>)
    requires Owned(s, nodes)
    reads nodes
  {
    forall p, c {:trigger ChildOf(NodeOf(s, p), c)} :: p in s.nodeAt ==>
      ChildOf(NodeOf(s, p), c) == if p + [c] in s.nodeAt then Some(NodeOf(s, p + [c])) else None
  }

  /** A node marks a word exactly when its prefix was inserted. */
  ghost predicate MarksMatch(s: Shape, nodes: set<object>)
    requires Owned(s, nodes)
    reads nodes
  {
    && (forall w {:trigger w in s.words} :: w in s.words ==> w in s.nodeAt)
    && (forall p {:trigger NodeOf(s, p)} :: p in s.nodeAt ==> (IsWord(NodeOf(s, p)) <==> p in s.words))
  }

  ghost predicate Sound(s: Shape, nodes: set<object>)
    reads nodes
  {
    && Owned(s, nodes) && Separate(s) && Rooted(s)
    && NodesIntact(s, nodes) && EdgesMatch(s, nodes) && MarksMatch(s, nodes)
  }

  /** What a sound trie says about the node of one prefix `p`. */
  lemma NodeFacts(s: Shape, nodes: set<object>, p: string)
    requires Sound(s, nodes) && p in s.nodeAt
    ensures Objs(s.nodeAt[p]) <= nodes && s.nodeAt[p].Mem? == s.mem
    ensures Intact(s.nodeAt[p]) && (IsWord(s.nodeAt[p]) <==> p in s.words)
  {
    assert NodeOf(s, p) == s.nodeAt[p];
  }

  /** The edge for `c` out of the node of a spelled prefix `p` leads to the
      node of `p + [c]`, and exists exactly when `p + [c]` is spelled. */
  lemma EdgeFact(s: Shape, nodes: set<object>, p: string, c: char)
    requires Sound(s, nodes) && p in s.nodeAt
    ensures ChildOf(s.nodeAt[p], c) == if p + [c] in s.nodeAt then Some(s.nodeAt[p + [c]]) else None
  {
    assert ChildOf(NodeOf(s, p), c) == ChildOf(s.nodeAt[p], c);
  }

  /** Once the piece `w[i..j + 1]` is not spelled, no longer piece starting
      at `i` is a word. */
  lemma NoWordBeyond(s: Shape, nodes: set<object>, w: string, i: nat, j: nat, end: nat)
    requires Sound(s, nodes) && i <= j < end <= |w| && w[i..j + 1] !in s.nodeAt
    ensures forall k :: j < k <= end ==> w[i..k] !in s.words
  {
    forall k | j < k <= end
      ensures w[i..k] !in s.words
    {
      assert w[i..k][..j + 1 - i] == w[i..j + 1];
      Unspelled(s, nodes, w[i..j + 1], w[i..k]);
    }
  }

  /** Every prefix of a spelled prefix is spelled, and every word is
      spelled: a prefix `p` that is not spelled starts no spelled prefix
      and no word. */
  lemma Unspelled(s: Shape, nodes: set<object>, p: string, q: string)
    requires Sound(s, nodes) && p !in s.nodeAt && |p| <= |q| && q[..|p|] == p
    ensures q !in s.nodeAt && q !in s.words
  {
  }

  /** A trie whose only node is a root with no children and no mark is
      sound, and holds no word. */
  lemma RootSound(s: Shape, nodes: set<object>)
    requires s.nodeAt == map["" := s.root] && s.owner == map[Handle(s.root) := ""] && s.words == {}
    requires Objs(s.root) == nodes && s.root.Mem? == s.mem
    requires Intact(s.root) && (s.root.Mem? ==> s.root.m.Kids == [])
    requires !IsWord(s.root) && forall c :: ChildOf(s.root, c) == None
    ensures Sound(s, nodes)
  {
    forall p, c | p in s.nodeAt
      ensures ChildOf(NodeOf(s, p), c) == if p + [c] in s.nodeAt then Some(NodeOf(s, p + [c])) else None
    {
      assert p == "" && p + [c] != "";
    }
  }

  /** Changing only the object `changed` of the node of `p`, and not that
      node's place in its parent's list, leaves every other node intact and
      with the edges and the mark it had. */
  twostate lemma OthersUnchanged(nodes: set<object>, new s: Shape, new p: string, new changed: object)
    requires old(allocated(s)) && old(Sound(s, nodes)) && p in s.nodeAt && changed in Objs(s.nodeAt[p])
    requires forall o :: o in nodes && o != changed ==> unchanged(o)
    requires s.nodeAt[p].Mem? ==> unchanged(s.nodeAt[p].m`next)
    ensures forall r :: r in s.nodeAt && r != p ==> Intact(s.nodeAt[r])
    ensures forall r, d :: r in s.nodeAt && r != p ==>
      ChildOf(s.nodeAt[r], d) == if r + [d] in s.nodeAt then Some(s.nodeAt[r + [d]]) else None
    ensures forall r :: r in s.nodeAt && r != p ==> (IsWord(s.nodeAt[r]) <==> r in s.words)
  {
    var m := s.nodeAt;
    forall r | r in m && r != p
      ensures Intact(m[r]) && (IsWord(m[r]) <==> r in s.words)
      ensures forall d :: ChildOf(m[r], d) == if r + [d] in m then Some(m[r + [d]]) else None
    {
      var n := NodeOf(s, r);
      assert Handle(n) != Handle(m[p]) by {
        assert s.owner[Handle(n)] == r && s.owner[Handle(NodeOf(s, p))] == p;
      }
      assert changed !in Objs(n);
      assert unchanged(Objs(n));
      assert old(Intact(n));
      if n.Mem? {
        var kids := n.m.Kids;
        forall i | 0 <= i < |kids|
          ensures kids[i].next == old(kids[i].next)
        {
          var k := kids[i];
          assert old(k in NodeOf(s, r).m.Kids);
          if k == changed {
            assert m[p].Mem?;
          }
        }
        assert n.m.Linked();
      }
    }
  }

  /** The trie stays sound when `AddChild` has hung `child` under the node
      of `p` for `c`, once the picture records the new prefix. */
  twostate lemma ExtendSound(nodes: set<object>, new s: Shape, new node: NodeRef, new p: string,
                             new c: char, new child: NodeRef)
    requires old(allocated(s)) && old(Sound(s, nodes)) && p in s.nodeAt && s.nodeAt[p] == node && p + [c] !in s.nodeAt
    requires child.Mem? == node.Mem? && fresh(Objs(child))
    requires !IsWord(child) && (forall d :: ChildOf(child, d) == None)
    requires Intact(child) && (child.Mem? ==> child.m.Kids == [])
    requires Intact(node) && (node.Mem? ==> node.m.Kids == [child.m] + old(node.m.Kids))
    requires node.Mem? ==> unchanged(node.m`next) && unchanged(node.m`isWord)
    requires ChildOf(node, c) == Some(child)
    requires forall d :: d != c ==> ChildOf(node, d) == old(ChildOf(node, d))
    requires forall o :: o in nodes && o != Handle(node) ==> unchanged(o)
    ensures Sound(s.(nodeAt := s.nodeAt[p + [c] := child], owner := s.owner[Handle(child) := p + [c]]),
                  nodes + Objs(child))
  {
    var m := s.nodeAt;
    var s1 := s.(nodeAt := m[p + [c] := child], owner := s.owner[Handle(child) := p + [c]]);
    assert NodeOf(s, p) == node;
    OthersUnchanged(nodes, s, p, Handle(node));
    SameNodes(s, s1);
    ClosedAdd(m, p, c, child);
    IntactAdd(m, s1.nodeAt, p, c, child);
    EdgesAdd(m, s1.nodeAt, p, c, child);
    MarksAdd(m, s1.nodeAt, s.words, p, c, child);
    assert Owned(s1, nodes + Objs(child));
  }

  /** The trie stays sound when the node of `w` has been marked, once the
      picture counts `w` among the words. */
  twostate lemma MarkSound(nodes: set<object>, new s: Shape, new node: NodeRef, new w: string)
    requires old(allocated(s)) && old(Sound(s, nodes)) && w in s.nodeAt && s.nodeAt[w] == node
    requires IsWord(node) && Intact(node) && (forall d :: ChildOf(node, d) == old(ChildOf(node, d)))
    requires node.Mem? ==> unchanged(node.m`next) && node.m.Kids == old(node.m.Kids)
    requires forall o :: o in nodes && o != Holder(node) ==> unchanged(o)
    ensures Sound(s.(words := s.words + {w}), nodes)
  {
    var s1 := s.(words := s.words + {w});
    OthersUnchanged(nodes, s, w, Holder(node));
    SameNodes(s, s1);
    assert Owned(s1, nodes);
    assert NodesIntact(s1, nodes);
    assert EdgesMatch(s1, nodes);
    assert MarksMatch(s1, nodes);
  }

  /** A prefix spelled in `s` names the same node in `s1`, when `s1` has
      all of the prefixes `s` has. */
  lemma SameNodes(s: Shape, s1: Shape)
    requires forall p :: p in s.nodeAt ==> p in s1.nodeAt && s1.nodeAt[p] == s.nodeAt[p]
    ensures forall p {:trigger NodeOf(s1, p)} :: p in s.nodeAt ==> NodeOf(s1, p) == NodeOf(s, p)
  {
  }

  /** Adding the one-character extension of a key keeps `m` closed. */
  lemma ClosedAdd(m: map<string, NodeRef>, p: string, c: char, child: NodeRef)
    requires Closed(m) && p in m
    ensures Closed(m[p + [c] := child])
  {
    var q := p + [c];
    forall r, k | r in m[q := child] && 0 <= k <= |r|
      ensures r[..k] in m[q := child]
    {
      if r != q {
        assert r in m;
      } else if k <= |p| {
        assert r[..k] == p[..k];
      } else {
        assert r[..k] == r;
      }
    }
  }

  lemma IntactAdd(m: map<string, NodeRef>, m1: map<string, NodeRef>, p: string, c: char, child: NodeRef)
    requires p in m && m1 == m[p + [c] := child]
    requires forall r :: r in m && r != p ==> Intact(m[r])
    requires Intact(m[p]) && Intact(child)
    ensures forall r :: r in m1 ==> Intact(m1[r])
  {
  }

  /** The edges after `child` is hung under `p` for `c`: the node of `p`
      gains the edge for `c`, `child` has none, every other edge stays. */
  lemma EdgesAdd(m: map<string, NodeRef>, m1: map<string, NodeRef>, p: string, c: char, child: NodeRef)
    requires Closed(m) && p in m && p + [c] !in m && m1 == m[p + [c] := child]
    requires forall r, d :: r in m && r != p ==>
      ChildOf(m[r], d) == if r + [d] in m then Some(m[r + [d]]) else None
    requires forall d :: d != c ==> ChildOf(m[p], d) == if p + [d] in m then Some(m[p + [d]]) else None
    requires ChildOf(m[p], c) == Some(child) && forall d :: ChildOf(child, d) == None
    ensures forall r, d :: r in m1 ==> ChildOf(m1[r], d) == if r + [d] in m1 then Some(m1[r + [d]]) else None
  {
    var q := p + [c];
    forall r, d | r in m1
      ensures ChildOf(m1[r], d) == if r + [d] in m1 then Some(m1[r + [d]]) else None
    {
      if r == q {
        assert (r + [d])[..|q|] == q;
      } else if r != p {
        assert (r + [d])[..|r|] == r && q[..|p|] == p;
      } else if d != c {
        assert (r + [d])[|p|] != q[|p|];
      }
    }
  }

  lemma MarksAdd(m: map<string, NodeRef>, m1: map<string, NodeRef>, words: set<string>,
                 p: string, c: char, child: NodeRef)
    requires p in m && p + [c] !in m && m1 == m[p + [c] := child]
    requires forall w :: w in words ==> w in m
    requires forall r :: r in m ==> (IsWord(m[r]) <==> r in words)
    requires !IsWord(child)
    ensures forall r :: r in m1 ==> (IsWord(m1[r]) <==> r in words)
  {
  }
}
