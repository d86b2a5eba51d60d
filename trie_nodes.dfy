/**
  The two trie-node representations and the one contract they share.

  `MemNode` keeps its children in a singly linked list (`firstChild`, then
  `next` from child to child) and puts each new child at the head. `Node`
  keeps a 26-slot array indexed by the letter. Both offer `GetChild`, which
  returns the child for a character or nothing, and `AddChild`, which creates
  a child for a character. `NodeRef` holds a node of either kind; `ChildOf`
  and `IsWord` are the abstract view the trie is written against.
 */
module TrieNodes {

  datatype Option<T> = None | Some(value: T)

  /** Number of child slots in an array node: the letters 'a' to 'z'. */
  const AlphabetSize: nat := 26

  predicate IsLower(c: char)
  {
    'a' <= c <= 'z'
  }

  /** Slot of a lower-case letter in an array node: its distance from 'a'. */
  function Slot(c: char): (k: nat)
    requires IsLower(c)
    ensures k < AlphabetSize
  {
    (c as int) - ('a' as int)
  }

  /** Index of the first node in `kids` whose key is `c`, or `|kids|` when
      there is none. */
  function FirstKeyIndex(kids: seq<MemNode>, c: char): (k: nat)
    ensures k <= |kids|
    ensures forall j :: 0 <= j < k ==> kids[j].key != Some(c)
    ensures k < |kids| ==> kids[k].key == Some(c)
  {
    if kids == [] then 0
    else if kids[0].key == Some(c) then 0
    else 1 + FirstKeyIndex(kids[1..], c)
  }

  /** A trie node whose children form a linked list. */
  class MemNode {
    const key: Option<char>
    /** The next child of this node's parent. */
    var next: MemNode?
    var isWord: bool
    /** Head of the list of this node's children. */
    var firstChild: MemNode?
    /** The children, in the order the list visits them. */
    ghost var Kids: seq<MemNode>

    /** The list starting at `firstChild` and following `next` visits
        exactly `Kids`, in order. */
    ghost predicate Linked()
      reads this, Kids
    {
      && firstChild == (if Kids == [] then null else Kids[0])
      && (forall i :: 0 <= i < |Kids| - 1 ==> Kids[i].next == Kids[i + 1])
      && (Kids != [] ==> Kids[|Kids| - 1].next == null)
    }

    /** The child that a lookup of `c` finds: the first one on the list whose
        key is `c`. */
    ghost function ChildFor(c: char): (r: MemNode?)
      reads this
      ensures r == null <==> forall j :: 0 <= j < |Kids| ==> Kids[j].key != Some(c)
      ensures r != null ==> r.key == Some(c) && r in Kids
    {
      var k := FirstKeyIndex(Kids, c);
      if k < |Kids| then Kids[k] else null
    }

    constructor (key: Option<char>)
      ensures this.key == key && next == null && !isWord
      ensures firstChild == null && Kids == [] && Linked()
    {
      this.key := key;
      next := null;
      isWord := false;
      firstChild := null;
      Kids := [];
    }

    /** Walks the list from `firstChild` until a node with key `c`. */
    method GetChild(c: char) returns (r: MemNode?)
      requires Linked()
      ensures r == ChildFor(c)
    {
      var current := firstChild;
      ghost var i := 0;
      while current != null && current.key != Some(c)
        invariant 0 <= i <= |Kids|
        invariant current == if i < |Kids| then Kids[i] else null
        invariant forall j :: 0 <= j < i ==> Kids[j].key != Some(c)
        decreases |Kids| - i
      {
        current := current.next;
        i := i + 1;
      }
      r := current;
    }

    /** Puts a fresh child with key `c` at the head of the list. */
    method AddChild(c: char) returns (child: MemNode)
      requires Linked()
      modifies this`firstChild, this`Kids
      ensures fresh(child) && child.key == Some(c) && !child.isWord
      ensures child.firstChild == null && child.Kids == [] && child.Linked()
      ensures Kids == [child] + old(Kids) && Linked()
      ensures ChildFor(c) == child
      ensures forall d :: d != c ==> ChildFor(d) == old(ChildFor(d))
    {
      child := new MemNode(Some(c));
      child.next := firstChild;
      firstChild := child;
      Kids := [child] + Kids;
      assert forall i :: 1 <= i < |Kids| ==> Kids[i] == old(Kids)[i - 1];
      forall d | d != c
        ensures ChildFor(d) == old(ChildFor(d))
      {
        assert Kids[1..] == old(Kids);
      }
    }
  }

  /** A trie node whose children sit in a fixed array, one slot per letter. */
  class Node {
    const key: Option<char>
    const children: array<Node?>
    var isWord: bool

    /** The child in the slot of `c`; characters outside 'a' to 'z' have
        no slot. */
    function ChildFor(c: char): (r: Node?)
      reads children
      ensures !IsLower(c) ==> r == null
      ensures IsLower(c) && children.Length == AlphabetSize ==> r == children[Slot(c)]
    {
      if IsLower(c) && Slot(c) < children.Length then children[Slot(c)] else null
    }

    constructor (key: Option<char>)
      ensures this.key == key && !isWord
      ensures fresh(children) && children.Length == AlphabetSize
      ensures forall d :: ChildFor(d) == null
    {
      this.key := key;
      children := new Node?[AlphabetSize](_ => null);
      isWord := false;
    }

    method GetChild(c: char) returns (r: Node?)
      requires IsLower(c) && children.Length == AlphabetSize
      ensures r == ChildFor(c)
    {
      r := children[Slot(c)];
    }

    /** Stores a fresh child with key `c` in the slot of `c`. */
    method AddChild(c: char) returns (child: Node)
      requires IsLower(c) && children.Length == AlphabetSize
      modifies children
      ensures fresh(child) && fresh(child.children) && child.key == Some(c) && !child.isWord
      ensures child.children.Length == AlphabetSize && forall d :: child.ChildFor(d) == null
      ensures children[Slot(c)] == child
      ensures forall k :: 0 <= k < AlphabetSize && k != Slot(c) ==> children[k] == old(children[k])
      ensures ChildFor(c) == child
      ensures forall d :: d != c ==> ChildFor(d) == old(ChildFor(d))
    {
      child := new Node(Some(c));
      children[Slot(c)] := child;
    }
  }

  /** A node of either representation. */
  datatype NodeRef = Mem(m: MemNode) | Arr(a: Node)

  /** The objects that make up one node. */
  ghost function Objs(n: NodeRef): set<object>
  {
    match n
    case Mem(m) => {m}
    case Arr(a) => {a, a.children}
  }

  /** The object that `AddChild` changes: the linked node itself, or the
      array of an array node. */
  ghost function Handle(n: NodeRef): object
  {
    match n
    case Mem(m) => m
    case Arr(a) => a.children
  }

  /** The object that holds the word flag of a node. */
  ghost function Holder(n: NodeRef): object
  {
    match n
    case Mem(m) => m
    case Arr(a) => a
  }

  /** The node is well formed: its child list is intact, or its array has
      one slot per letter. */
  ghost predicate Intact(n: NodeRef)
    reads if n.Mem? then {n.m} + set k | k in n.m.Kids else {}
  {
    match n
    case Mem(m) => m.Linked()
    case Arr(a) => a.children.Length == AlphabetSize
  }

  /** `GetChild` and `AddChild` may be called on `n` with `c`: the node is
      intact, and an array node is only ever asked about a letter. */
  ghost predicate Steppable(n: NodeRef, c: char)
    reads if n.Mem? then {n.m} + set k | k in n.m.Kids else {}
  {
    Intact(n) && (n.Arr? ==> IsLower(c))
  }

  /** The child of `n` for `c`, whichever the representation. */
  ghost function ChildOf(n: NodeRef, c: char): Option<NodeRef>
    reads Objs(n)
  {
    match n
    case Mem(m) => var x := m.ChildFor(c); if x == null then None else Some(Mem(x))
    case Arr(a) => var x := a.ChildFor(c); if x == null then None else Some(Arr(x))
  }

  function IsWord(n: NodeRef): bool
    reads Objs(n)
  {
    match n
    case Mem(m) => m.isWord
    case Arr(a) => a.isWord
  }

  method GetChild(n: NodeRef, c: char) returns (r: Option<NodeRef>)
    requires Steppable(n, c)
    ensures r == ChildOf(n, c)
  {
    match n
    case Mem(m) =>
      var x := m.GetChild(c);
      r := if x == null then None else Some(Mem(x));
    case Arr(a) =>
      var x := a.GetChild(c);
      r := if x == null then None else Some(Arr(x));
  }

  /** Adds a child for `c` to `n`. The new child is of the same kind, has no
      children and marks no word; `n` keeps its flag and its other edges. */
  method AddChild(n: NodeRef, c: char) returns (child: NodeRef)
    requires Steppable(n, c)
    modifies Handle(n)
    ensures child.Mem? == n.Mem? && fresh(Objs(child))
    ensures !IsWord(child) && forall d :: ChildOf(child, d) == None
    ensures Intact(child) && (child.Mem? ==> child.m.Kids == [])
    ensures Intact(n) && (n.Mem? ==> n.m.Kids == [child.m] + old(n.m.Kids))
    ensures n.Mem? ==> n.m.next == old(n.m.next) && n.m.isWord == old(n.m.isWord)
    ensures ChildOf(n, c) == Some(child)
    ensures forall d :: d != c ==> ChildOf(n, d) == old(ChildOf(n, d))
  {
    match n
    case Mem(m) =>
      var x := m.AddChild(c);
      child := Mem(x);
    case Arr(a) =>
      var x := a.AddChild(c);
      child := Arr(x);
  }

  /** Marks `n` as the last node of a word; its edges stay as they were. */
  method SetWord(n: NodeRef)
    requires Intact(n)
    modifies Holder(n)
    ensures IsWord(n) && Intact(n)
    ensures forall d :: ChildOf(n, d) == old(ChildOf(n, d))
    ensures n.Mem? ==> n.m.next == old(n.m.next) && n.m.Kids == old(n.m.Kids)
  {
    match n
    case Mem(m) => m.isWord := true;
    case Arr(a) => a.isWord := true;
  }
}
