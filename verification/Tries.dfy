/** The tree bins of the allocator.  A tree bin is a bitwise trie on chunk sizes: every level of the
    tree halves the interval of sizes a subtree may hold.  Chunks of one size hang off a single tree
    node in a ring.  `Tree` is the abstract shape; `Rep` says that the words of memory spell it out. */
module Tries {
  import opened Rings
  import opened BinIndex

  /** The link words of free chunks, by chunk address.  Pointers are addresses, 0 is the null pointer. */
  datatype Links = Links(
    fd: map<int, int>, bk: map<int, int>,
    child0: map<int, int>, child1: map<int, int>,
    parent: map<int, int>, index: map<int, int>)
  {
    function Child(right: bool, a: int): int {
      At(if right then child1 else child0, a)
    }

    function SetChild(right: bool, a: int, v: int): Links {
      if right then this.(child1 := child1[a := v]) else this.(child0 := child0[a := v])
    }
  }

  ghost predicate SameRing(k: Links, k': Links, a: int) {
    At(k'.fd, a) == At(k.fd, a) && At(k'.bk, a) == At(k.bk, a)
  }

  ghost predicate SameTree(k: Links, k': Links, a: int) {
    && At(k'.child0, a) == At(k.child0, a) && At(k'.child1, a) == At(k.child1, a)
    && At(k'.parent, a) == At(k.parent, a) && At(k'.index, a) == At(k.index, a)
  }

  ghost predicate SameWords(k: Links, k': Links, a: int) {
    SameRing(k, k', a) && SameTree(k, k', a)
  }

  datatype Tree = Nil | Node(ring: seq<int>, size: int, left: Tree, right: Tree)
  {
    predicate Leaf() {
      Node? && left.Nil? && right.Nil?
    }
  }

  function Elems(ring: seq<int>): set<int> {
    set a | a in ring
  }

  function Addrs(t: Tree): set<int> {
    match t
    case Nil => {}
    case Node(ring, _, l, r) => Elems(ring) + Addrs(l) + Addrs(r)
  }

  function Sizes(t: Tree): set<int> {
    match t
    case Nil => {}
    case Node(_, size, l, r) => {size} + Sizes(l) + Sizes(r)
  }

  /** The addresses of the ring members that sit in the tree itself. */
  function Heads(t: Tree): set<int> {
    match t
    case Nil => {}
    case Node(ring, _, l, r) => (if |ring| > 0 then {ring[0]} else {}) + Heads(l) + Heads(r)
  }

  function SizeOf(t: Tree, a: int): int
    requires a in Addrs(t)
  {
    if a in t.ring then t.size else if a in Addrs(t.left) then SizeOf(t.left, a) else SizeOf(t.right, a)
  }

  ghost predicate Apart(ring: seq<int>, l: Tree, r: Tree) {
    && (forall a :: a in ring ==> a !in Addrs(l) && a !in Addrs(r))
    && Addrs(l) !! Addrs(r)
  }

  /** A subtree at a node whose sizes lie in `[lo, lo + 2^e)`: sizes are distinct, and the children
      hold the lower and the upper half. */
  ghost predicate Shape(t: Tree, lo: int, e: int) {
    match t
    case Nil => true
    case Node(ring, size, l, r) =>
      && e >= 0 && lo <= size < lo + Pow2(e)
      && |ring| > 0 && Distinct(ring)
      && (e == 0 ==> l.Nil? && r.Nil?)
      && (e > 0 ==> Shape(l, lo, e - 1) && Shape(r, lo + Pow2(e - 1), e - 1))
      && size !in Sizes(l) && size !in Sizes(r)
      && Apart(ring, l, r)
  }

  ghost predicate RingTail(k: Links, ring: seq<int>) {
    forall i :: 1 <= i < |ring| ==>
      At(k.parent, ring[i]) == 0 && At(k.child0, ring[i]) == 0 && At(k.child1, ring[i]) == 0
  }

  ghost predicate RingIndex(k: Links, ring: seq<int>, bin: int) {
    forall i :: 0 <= i < |ring| ==> At(k.index, ring[i]) == bin && ring[i] > 0
  }

  /** The words of memory at root pointer `p` spell out the tree `t` below parent pointer `par`. */
  ghost predicate Rep(k: Links, t: Tree, p: int, par: int, bin: int) {
    match t
    case Nil => p == 0
    case Node(ring, size, l, r) =>
      && |ring| > 0 && p == ring[0] && par != 0
      && IsRing(k.fd, k.bk, ring)
      && At(k.parent, p) == par
      && RingIndex(k, ring, bin) && RingTail(k, ring)
      && Rep(k, l, At(k.child0, p), p, bin)
      && Rep(k, r, At(k.child1, p), p, bin)
  }

  // ---------------------------------------------------------------- facts about shapes

  lemma {:induction false} ShapeSizes(t: Tree, lo: int, e: int, s: int)
    requires Shape(t, lo, e) && s in Sizes(t)
    ensures e >= 0 && lo <= s < lo + Pow2(e)
  {
    if s != t.size {
      if s in Sizes(t.left) {
        ShapeSizes(t.left, lo, e - 1, s);
      } else {
        ShapeSizes(t.right, lo + Pow2(e - 1), e - 1, s);
      }
    }
  }

  lemma {:induction false} SizeOfInSizes(t: Tree, a: int)
    requires a in Addrs(t)
    ensures SizeOf(t, a) in Sizes(t)
  {
    if a !in t.ring {
      SizeOfInSizes(if a in Addrs(t.left) then t.left else t.right, a);
    }
  }

  lemma {:induction false} SizeHasChunk(t: Tree, lo: int, e: int, s: int) returns (a: int)
    requires Shape(t, lo, e) && s in Sizes(t)
    ensures a in Heads(t) && a in Addrs(t) && SizeOf(t, a) == s
  {
    if s == t.size {
      a := t.ring[0];
    } else if s in Sizes(t.left) {
      a := SizeHasChunk(t.left, lo, e - 1, s);
    } else {
      a := SizeHasChunk(t.right, lo + Pow2(e - 1), e - 1, s);
    }
  }

  lemma {:induction false} HeadsInAddrs(t: Tree)
    ensures Heads(t) <= Addrs(t)
  {
    if t.Node? {
      HeadsInAddrs(t.left);
      HeadsInAddrs(t.right);
    }
  }

  /** Sizes in the left subtree are all smaller than sizes in the right one. */
  lemma LeftSmaller(t: Tree, lo: int, e: int, s: int, s': int)
    requires Shape(t, lo, e) && t.Node? && s in Sizes(t.left) && s' in Sizes(t.right)
    ensures s < s'
  {
    ShapeSizes(t.left, lo, e - 1, s);
    ShapeSizes(t.right, lo + Pow2(e - 1), e - 1, s');
  }

  // ---------------------------------------------------------------- frame

  lemma {:induction false} RepFrame(k: Links, k': Links, t: Tree, p: int, par: int, bin: int)
    requires Rep(k, t, p, par, bin)
    requires forall a :: a in Addrs(t) ==> SameWords(k, k', a)
    ensures Rep(k', t, p, par, bin)
  {
    if t.Node? {
      assert forall a :: a in t.ring ==> a in Addrs(t);
      RingFrame(k.fd, k.bk, k'.fd, k'.bk, t.ring);
      assert forall i :: 0 <= i < |t.ring| ==> t.ring[i] in t.ring;
      assert SameWords(k, k', p);
      RepFrame(k, k', t.left, At(k.child0, p), p, bin);
      RepFrame(k, k', t.right, At(k.child1, p), p, bin);
    }
  }

  /** The same tree below another parent. */
  lemma Reparent(k: Links, k': Links, t: Tree, p: int, par: int, par': int, bin: int)
    requires Rep(k, t, p, par, bin) && par' != 0
    requires t.Node? ==> Apart(t.ring, t.left, t.right)
    requires forall a :: a in Addrs(t) && a != p ==> SameWords(k, k', a)
    requires p in Addrs(t) ==> SameWords(k, k'.(parent := k'.parent[p := At(k.parent, p)]), p)
    requires p in Addrs(t) ==> At(k'.parent, p) == par'
    ensures Rep(k', t, p, par', bin)
  {
    if t.Node? {
      assert forall a :: a in t.ring ==> a in Addrs(t);
      RingFrame(k.fd, k.bk, k'.fd, k'.bk, t.ring);
      assert forall i :: 0 <= i < |t.ring| ==> t.ring[i] in t.ring;
      assert p in t.ring;
      RepFrame(k, k', t.left, At(k.child0, p), p, bin);
      RepFrame(k, k', t.right, At(k.child1, p), p, bin);
    }
  }

  // ---------------------------------------------------------------- insertion

  /** Where the walk down the trie for a new chunk ends: at an empty child, or at a node of its size. */
  datatype Stop = Below(node: int, right: bool) | Behind(node: int)

  ghost function Walk(t: Tree, s: int, lo: int, e: int): Stop
    requires Shape(t, lo, e) && t.Node?
    requires lo <= s < lo + Pow2(e)
    decreases t
  {
    if t.size == s then Behind(t.ring[0])
    else
      var right := s >= lo + Pow2(e - 1);
      if (if right then t.right else t.left).Nil? then Below(t.ring[0], right)
      else if right then Walk(t.right, s, lo + Pow2(e - 1), e - 1)
      else Walk(t.left, s, lo, e - 1)
  }

  ghost function Insert(t: Tree, x: int, s: int, lo: int, e: int): Tree
    requires Shape(t, lo, e) && lo <= s < lo + Pow2(if e < 0 then 0 else e)
    decreases t
  {
    if t.Nil? then Node([x], s, Nil, Nil)
    else if t.size == s then t.(ring := InsertAfterFirst(t.ring, x))
    else if s >= lo + Pow2(e - 1) then t.(right := Insert(t.right, x, s, lo + Pow2(e - 1), e - 1))
    else t.(left := Insert(t.left, x, s, lo, e - 1))
  }

  /** The words written when the walk ends. */
  ghost predicate LinkedAt(k: Links, k': Links, stop: Stop, x: int, bin: int) {
    && At(k'.index, x) == bin && At(k'.child0, x) == 0 && At(k'.child1, x) == 0
    && match stop {
         case Below(node, right) =>
           && At(k'.parent, x) == node && At(k'.fd, x) == x && At(k'.bk, x) == x
           && k'.Child(right, node) == x && k'.Child(!right, node) == k.Child(!right, node)
           && At(k'.parent, node) == At(k.parent, node) && At(k'.index, node) == At(k.index, node)
           && SameRing(k, k', node)
           && forall a :: a != x && a != node ==> SameRing(k, k', a) && SameTree(k, k', a)
         case Behind(node) =>
           var f := At(k.fd, node);
           && At(k'.parent, x) == 0
           && k'.fd == k.fd[node := x][x := f] && k'.bk == k.bk[f := x][x := node]
           && (forall a :: a != x ==> SameTree(k, k', a))
           && (forall a :: a != x && a != node && a != f ==> SameRing(k, k', a))
       }
  }

  lemma {:induction false} InsertMembers(t: Tree, x: int, s: int, lo: int, e: int)
    requires Shape(t, lo, e) && e >= 0 && lo <= s < lo + Pow2(e) && x !in Addrs(t)
    ensures var t' := Insert(t, x, s, lo, e);
            Addrs(t') == Addrs(t) + {x} && Sizes(t') == Sizes(t) + {s}
    decreases t
  {
    if t.Node? {
      if t.size == s {
        InsertedMembers(t.ring, x);
      } else if s >= lo + Pow2(e - 1) {
        InsertMembers(t.right, x, s, lo + Pow2(e - 1), e - 1);
      } else {
        InsertMembers(t.left, x, s, lo, e - 1);
      }
    }
  }

  lemma {:induction false} InsertShape(t: Tree, x: int, s: int, lo: int, e: int)
    requires Shape(t, lo, e) && e >= 0 && lo <= s < lo + Pow2(e) && x !in Addrs(t)
    ensures Shape(Insert(t, x, s, lo, e), lo, e)
    decreases t, 1
  {
    if t.Node? {
      if t.size == s {
        InsertedMembers(t.ring, x);
      } else {
        OneSize(t, lo, e, s);
        if s >= lo + Pow2(e - 1) {
          InsertShapeRight(t, x, s, lo, e);
        } else {
          InsertShapeLeft(t, x, s, lo, e);
        }
      }
    }
  }

  lemma OpenShape(t: Tree, lo: int, e: int)
    requires Shape(t, lo, e) && t.Node?
    ensures e >= 0 && lo <= t.size < lo + Pow2(e) && |t.ring| > 0 && Distinct(t.ring)
    ensures e == 0 ==> t.left.Nil? && t.right.Nil?
    ensures e > 0 ==> Shape(t.left, lo, e - 1) && Shape(t.right, lo + Pow2(e - 1), e - 1)
    ensures e > 0 ==> Pow2(e) == 2 * Pow2(e - 1)
    ensures t.size !in Sizes(t.left) && t.size !in Sizes(t.right) && Apart(t.ring, t.left, t.right)
    ensures Addrs(t) == Elems(t.ring) + Addrs(t.left) + Addrs(t.right)
    ensures Sizes(t) == {t.size} + Sizes(t.left) + Sizes(t.right)
  {}

  lemma CloseShape(t: Tree, lo: int, e: int)
    requires t.Node? && e > 0 && lo <= t.size < lo + Pow2(e) && |t.ring| > 0 && Distinct(t.ring)
    requires Shape(t.left, lo, e - 1) && Shape(t.right, lo + Pow2(e - 1), e - 1)
    requires t.size !in Sizes(t.left) && t.size !in Sizes(t.right) && Apart(t.ring, t.left, t.right)
    ensures Shape(t, lo, e)
  {}

  lemma OneSize(t: Tree, lo: int, e: int, s: int)
    requires Shape(t, lo, e) && t.Node? && e >= 0 && lo <= s < lo + Pow2(e) && t.size != s
    ensures e > 0
  {}

  lemma InsertShapeRight(t: Tree, x: int, s: int, lo: int, e: int)
    requires Shape(t, lo, e) && e > 0 && lo <= s < lo + Pow2(e) && x !in Addrs(t)
    requires t.Node? && t.size != s && s >= lo + Pow2(e - 1)
    ensures Shape(t.(right := Insert(t.right, x, s, lo + Pow2(e - 1), e - 1)), lo, e)
    decreases t, 0
  {
    hide Shape, Addrs, Sizes, Insert;
    OpenShape(t, lo, e);
    var r := Insert(t.right, x, s, lo + Pow2(e - 1), e - 1);
    InsertMembers(t.right, x, s, lo + Pow2(e - 1), e - 1);
    InsertShape(t.right, x, s, lo + Pow2(e - 1), e - 1);
    CloseShape(t.(right := r), lo, e);
  }

  lemma InsertShapeLeft(t: Tree, x: int, s: int, lo: int, e: int)
    requires Shape(t, lo, e) && e > 0 && lo <= s < lo + Pow2(e) && x !in Addrs(t)
    requires t.Node? && t.size != s && s < lo + Pow2(e - 1)
    ensures Shape(t.(left := Insert(t.left, x, s, lo, e - 1)), lo, e)
    decreases t, 0
  {
    hide Shape, Addrs, Sizes, Insert;
    OpenShape(t, lo, e);
    var l := Insert(t.left, x, s, lo, e - 1);
    InsertMembers(t.left, x, s, lo, e - 1);
    InsertShape(t.left, x, s, lo, e - 1);
    CloseShape(t.(left := l), lo, e);
  }

  lemma {:induction false} InsertSizeOf(t: Tree, x: int, s: int, lo: int, e: int, a: int)
    requires Shape(t, lo, e) && e >= 0 && lo <= s < lo + Pow2(e) && x !in Addrs(t)
    requires a == x || a in Addrs(t)
    ensures var t' := Insert(t, x, s, lo, e);
            a in Addrs(t') && SizeOf(t', a) == if a == x then s else SizeOf(t, a)
    decreases t
  {
    hide Pow2, Shape, Addrs, SizeOf;
    if t.Nil? {
      NilMembers();
      SizeOfNew(x, s);
      return;
    }
    ChildShape(t, s, lo, e);
    if t.size == s {
      SizeOfRing(t, x, a);
    } else {
      var right := s >= lo + Pow2(e - 1);
      var child := if right then t.right else t.left;
      var lo' := if right then lo + Pow2(e - 1) else lo;
      ChildFresh(t, x, a);
      InsertMembers(child, x, s, lo', e - 1);
      if a == x || a in Addrs(child) {
        InsertSizeOf(child, x, s, lo', e - 1, a);
      }
      SizeOfAbove(t, right, Insert(child, x, s, lo', e - 1), x, s, a);
    }
  }

  lemma ChildShape(t: Tree, s: int, lo: int, e: int)
    requires Shape(t, lo, e) && e >= 0 && lo <= s < lo + Pow2(e) && t.Node?
    ensures Apart(t.ring, t.left, t.right) && |t.ring| > 0 && Distinct(t.ring)
    ensures t.size != s ==>
      var right := s >= lo + Pow2(e - 1);
      var lo' := if right then lo + Pow2(e - 1) else lo;
      e > 0 && Shape(if right then t.right else t.left, lo', e - 1) && lo' <= s < lo' + Pow2(e - 1)
  {
    if t.size != s {
      OneSize(t, lo, e, s);
    }
    hide Shape, Addrs, Distinct, Apart, Pow2;
    OpenShape(t, lo, e);
  }

  lemma ChildFresh(t: Tree, x: int, a: int)
    requires t.Node? && x !in Addrs(t)
    ensures x !in Addrs(t.left) && x !in Addrs(t.right)
  {}

  lemma SizeOfNew(x: int, s: int)
    ensures var t := Node([x], s, Nil, Nil); Addrs(t) == {x} && SizeOf(t, x) == s
  {}

  lemma SizeOfRing(t: Tree, x: int, a: int)
    requires t.Node? && |t.ring| > 0 && Distinct(t.ring) && x !in Addrs(t) && (a == x || a in Addrs(t))
    ensures var t' := t.(ring := InsertAfterFirst(t.ring, x));
      a in Addrs(t') && SizeOf(t', a) == if a == x then t.size else SizeOf(t, a)
  {
    ElemsIn(t.ring);
    InsertedMembers(t.ring, x);
  }

  /** A child takes in a new chunk: sizes below other children stay. */
  lemma SizeOfAbove(t: Tree, right: bool, child': Tree, x: int, s: int, a: int)
    requires t.Node? && Apart(t.ring, t.left, t.right) && x !in Addrs(t) && (a == x || a in Addrs(t))
    requires var child := if right then t.right else t.left;
      && Addrs(child') == Addrs(child) + {x}
      && (a == x || a in Addrs(child) ==> SizeOf(child', a) == if a == x then s else SizeOf(child, a))
    ensures var t' := if right then t.(right := child') else t.(left := child');
      a in Addrs(t') && SizeOf(t', a) == if a == x then s else SizeOf(t, a)
  {
    NodeAddrs(t);
    NodeAddrs(if right then t.(right := child') else t.(left := child'));
    ElemsIn(t.ring);
  }

  lemma InsertedMembers(ring: seq<int>, x: int)
    requires |ring| > 0 && Distinct(ring) && x !in ring
    ensures var r := InsertAfterFirst(ring, x);
            Distinct(r) && r[0] == ring[0] && forall a :: a in r <==> a in ring || a == x
  {
    var r := InsertAfterFirst(ring, x);
    assert forall i :: 2 <= i < |r| ==> r[i] == ring[i - 1];
    forall a
      ensures a in r <==> a in ring || a == x
    {
      if a in ring {
        var i :| 0 <= i < |ring| && ring[i] == a;
        assert r[if i == 0 then 0 else i + 1] == a;
      }
      if a in r {
        var i :| 0 <= i < |r| && r[i] == a;
        assert i >= 2 ==> a == ring[i - 1];
      }
      assert r[1] == x;
    }
    forall i, j | 0 <= i < j < |r|
      ensures r[i] != r[j]
    {
      if i == 0 && j >= 2 {
        assert r[j] == ring[j - 1] && r[i] == ring[0];
      } else if i == 1 {
        assert r[j] == ring[j - 1];
        assert ring[j - 1] in ring;
      }
    }
  }

  /** The walk stops at a tree node, and only words of ring members and of the new chunk are written. */
  lemma {:induction false} WalkStops(t: Tree, s: int, lo: int, e: int)
    requires Shape(t, lo, e) && t.Node? && lo <= s < lo + Pow2(e)
    ensures Walk(t, s, lo, e).node in Addrs(t)
    decreases t
  {
    assert t.ring[0] in t.ring;
    if t.size != s {
      if s >= lo + Pow2(e - 1) {
        if t.right.Node? {
          WalkStops(t.right, s, lo + Pow2(e - 1), e - 1);
        }
      } else if t.left.Node? {
        WalkStops(t.left, s, lo, e - 1);
      }
    }
  }

  lemma {:induction false} InsertRep(
    k: Links, k': Links, t: Tree, p: int, par: int, bin: int, x: int, s: int, lo: int, e: int)
    requires Rep(k, t, p, par, bin) && Shape(t, lo, e) && t.Node?
    requires lo <= s < lo + Pow2(e) && x !in Addrs(t) && x > 0
    requires LinkedAt(k, k', Walk(t, s, lo, e), x, bin)
    ensures Rep(k', Insert(t, x, s, lo, e), p, par, bin)
    decreases t, 1
  {
    if t.size == s {
      InsertRepSame(k, k', t, p, par, bin, x);
    } else {
      OneSize(t, lo, e, s);
      var right := s >= lo + Pow2(e - 1);
      var child, other := if right then t.right else t.left, if right then t.left else t.right;
      var lo' := if right then lo + Pow2(e - 1) else lo;
      assert Pow2(e) == 2 * Pow2(e - 1);
      InsertRepChild(k, k', t, p, par, bin, x, s, lo', e - 1, Walk(t, s, lo, e),
                     right, child, other, Insert(child, x, s, lo', e - 1), Insert(t, x, s, lo, e));
    }
  }

  /** The head ring of a tree and its children, taken apart and put together again. */
  lemma CloseRep(k: Links, t: Tree, p: int, par: int, bin: int)
    requires t.Node? && |t.ring| > 0 && p == t.ring[0] && par != 0
    requires IsRing(k.fd, k.bk, t.ring) && At(k.parent, p) == par
    requires RingIndex(k, t.ring, bin) && RingTail(k, t.ring)
    requires Rep(k, t.left, At(k.child0, p), p, bin)
    requires Rep(k, t.right, At(k.child1, p), p, bin)
    ensures Rep(k, t, p, par, bin)
  {}

  lemma RingWordsFrame(k: Links, k': Links, ring: seq<int>, bin: int)
    requires IsRing(k.fd, k.bk, ring) && RingIndex(k, ring, bin) && RingTail(k, ring)
    requires forall a :: a in ring ==> SameRing(k, k', a)
    requires At(k'.index, ring[0]) == At(k.index, ring[0])
    requires forall a :: a in ring && a != ring[0] ==> SameTree(k, k', a)
    ensures IsRing(k'.fd, k'.bk, ring) && RingIndex(k', ring, bin) && RingTail(k', ring)
  {
    RingFrame(k.fd, k.bk, k'.fd, k'.bk, ring);
    assert forall i :: 1 <= i < |ring| ==> ring[i] in ring && ring[i] != ring[0];
  }

  lemma OpenRep(k: Links, t: Tree, p: int, par: int, bin: int)
    requires Rep(k, t, p, par, bin) && t.Node?
    ensures |t.ring| > 0 && p == t.ring[0] && p in t.ring && p > 0 && par != 0
    ensures IsRing(k.fd, k.bk, t.ring) && At(k.parent, p) == par
    ensures RingIndex(k, t.ring, bin) && RingTail(k, t.ring)
    ensures Rep(k, t.left, At(k.child0, p), p, bin)
    ensures Rep(k, t.right, At(k.child1, p), p, bin)
    ensures Addrs(t) == Elems(t.ring) + Addrs(t.left) + Addrs(t.right)
  {}

  lemma InsertRepSame(k: Links, k': Links, t: Tree, p: int, par: int, bin: int, x: int)
    requires Rep(k, t, p, par, bin) && t.Node? && x !in Addrs(t) && x > 0
    requires Apart(t.ring, t.left, t.right) && Distinct(t.ring)
    requires LinkedAt(k, k', Behind(p), x, bin)
    ensures |t.ring| > 0 && Rep(k', t.(ring := InsertAfterFirst(t.ring, x)), p, par, bin)
  {
    hide Rep, Addrs, Distinct;
    OpenRep(k, t, p, par, bin);
    var ring := InsertAfterFirst(t.ring, x);
    InsertAfterFirstLinks(k.fd, k.bk, t.ring, x);
    hide InsertAfterFirst, IsRing;
    assert SameTree(k, k', p);
    InsertedWords(k, k', t.ring, x, bin);
    RepFrame(k, k', t.left, At(k.child0, p), p, bin);
    RepFrame(k, k', t.right, At(k.child1, p), p, bin);
    CloseRep(k', t.(ring := ring), p, par, bin);
  }

  lemma InsertedWords(k: Links, k': Links, ring: seq<int>, x: int, bin: int)
    requires |ring| > 0 && Distinct(ring) && RingIndex(k, ring, bin) && RingTail(k, ring) && x !in ring && x > 0
    requires LinkedAt(k, k', Behind(ring[0]), x, bin)
    ensures var r := InsertAfterFirst(ring, x);
            r[0] == ring[0] && RingIndex(k', r, bin) && RingTail(k', r)
  {
    var r := InsertAfterFirst(ring, x);
    assert forall i :: 0 <= i < |ring| ==> ring[i] in ring;
    assert forall i :: 2 <= i < |r| ==> r[i] == ring[i - 1];
    assert forall i :: 0 <= i < |ring| ==> SameTree(k, k', ring[i]);
  }

  lemma InsertRepChild(
    k: Links, k': Links, t: Tree, p: int, par: int, bin: int, x: int, s: int, lo: int, e: int,
    stop: Stop, right: bool, child: Tree, other: Tree, child': Tree, t': Tree)
    requires Rep(k, t, p, par, bin) && t.Node? && x !in Addrs(t) && x > 0
    requires Apart(t.ring, t.left, t.right)
    requires child == (if right then t.right else t.left) && other == if right then t.left else t.right
    requires t' == if right then t.(right := child') else t.(left := child')
    requires LinkedAt(k, k', stop, x, bin)
    requires child.Nil? ==> stop == Below(p, right) && child' == Node([x], s, Nil, Nil)
    requires child.Node? ==>
      && Shape(child, lo, e) && lo <= s < lo + Pow2(e) && stop == Walk(child, s, lo, e)
      && child' == Insert(child, x, s, lo, e)
    ensures Rep(k', t', p, par, bin)
    decreases t, 0
  {
    hide Rep, Addrs, Shape, Walk, Insert, Pow2;
    OpenRep(k, t, p, par, bin);
    var c, o := k.Child(right, p), k.Child(!right, p);
    if child.Nil? {
      RingWordsFrame(k, k', t.ring, bin);
      RepFrame(k, k', other, o, p, bin);
      NewNodeRep(k', x, s, p, bin);
    } else {
      WalkStops(child, s, lo, e);
      BehindInRing(k, child, c, p, bin, s, lo, e);
      UntouchedOutside(k, k', stop, x, bin, Addrs(child));
      InsertRep(k, k', child, c, p, bin, x, s, lo, e);
      hide LinkedAt, IsRing;
      assert forall a :: a in t.ring ==> SameWords(k, k', a);
      RingWordsFrame(k, k', t.ring, bin);
      RepFrame(k, k', other, o, p, bin);
      assert SameWords(k, k', p);
    }
    CloseRep(k', t', p, par, bin);
  }

  lemma UntouchedOutside(k: Links, k': Links, stop: Stop, x: int, bin: int, inside: set<int>)
    requires LinkedAt(k, k', stop, x, bin) && stop.node in inside
    requires stop.Behind? ==> At(k.fd, stop.node) in inside
    ensures forall a :: a !in inside && a != x ==> SameWords(k, k', a)
  {}

  lemma NewNodeRep(k: Links, x: int, s: int, par: int, bin: int)
    requires At(k.fd, x) == x && At(k.bk, x) == x && At(k.parent, x) == par && At(k.index, x) == bin
    requires At(k.child0, x) == 0 && At(k.child1, x) == 0 && x > 0 && par != 0
    ensures Rep(k, Node([x], s, Nil, Nil), x, par, bin)
  {
    assert IsRing(k.fd, k.bk, [x]);
  }

  /** When the walk ends behind a node, the ring neighbour it touches is in the same tree. */
  lemma {:induction false} BehindInRing(k: Links, t: Tree, p: int, par: int, bin: int, s: int, lo: int, e: int)
    requires Rep(k, t, p, par, bin) && Shape(t, lo, e) && t.Node? && lo <= s < lo + Pow2(e)
    ensures var stop := Walk(t, s, lo, e); stop.Behind? ==> At(k.fd, stop.node) in Addrs(t)
    decreases t
  {
    if t.size == s {
      Neighbours(k.fd, k.bk, t.ring, 0);
      assert At(k.fd, p) in t.ring;
    } else if s >= lo + Pow2(e - 1) {
      if t.right.Node? {
        BehindInRing(k, t.right, At(k.child1, p), p, bin, s, lo + Pow2(e - 1), e - 1);
      }
    } else if t.left.Node? {
      BehindInRing(k, t.left, At(k.child0, p), p, bin, s, lo, e - 1);
    }
  }

  // ---------------------------------------------------------------- the subtree at a node

  /** The subtree whose tree node is `x`. */
  ghost function SubAt(t: Tree, x: int): Tree
    requires x in Heads(t)
  {
    if |t.ring| > 0 && t.ring[0] == x then t
    else if x in Heads(t.left) then SubAt(t.left, x)
    else SubAt(t.right, x)
  }

  /** The same tree with the subtree at `x` replaced. */
  ghost function Graft(t: Tree, x: int, sub: Tree): Tree
    requires x in Heads(t)
  {
    if |t.ring| > 0 && t.ring[0] == x then sub
    else if x in Heads(t.left) then t.(left := Graft(t.left, x, sub))
    else t.(right := Graft(t.right, x, sub))
  }

  /** A tree that can stand wherever `t` can, and brings nothing new. */
  ghost predicate Fits(t: Tree, t': Tree) {
    && Addrs(t') <= Addrs(t) && Sizes(t') <= Sizes(t)
    && forall lo, e :: Shape(t, lo, e) ==> Shape(t', lo, e)
  }

  lemma OpenHeads(t: Tree, x: int, lo: int, e: int)
    requires Shape(t, lo, e) && x in Heads(t)
    ensures t.Node? && |t.ring| > 0 && (t.ring[0] == x || (e > 0 && (x in Heads(t.left) || x in Heads(t.right))))
    ensures t.ring[0] == x ==> SubAt(t, x) == t && forall s :: Graft(t, x, s) == s
    ensures t.ring[0] != x && x in Heads(t.left) ==>
      SubAt(t, x) == SubAt(t.left, x) && forall s :: Graft(t, x, s) == t.(left := Graft(t.left, x, s))
    ensures t.ring[0] != x && x !in Heads(t.left) ==>
      SubAt(t, x) == SubAt(t.right, x) && forall s :: Graft(t, x, s) == t.(right := Graft(t.right, x, s))
  {}

  lemma {:induction false} SubAtMembers(t: Tree, x: int, lo: int, e: int)
    requires Shape(t, lo, e) && x in Heads(t)
    ensures var sub := SubAt(t, x);
            && sub.Node? && |sub.ring| > 0 && sub.ring[0] == x && x in sub.ring
            && Addrs(sub) <= Addrs(t) && Sizes(sub) <= Sizes(t) && x in Addrs(sub)
            && exists lo', e' :: Shape(sub, lo', e')
    decreases t
  {
    hide Shape, SubAt, Heads;
    OpenHeads(t, x, lo, e);
    OpenShape(t, lo, e);
    if t.ring[0] == x {
      assert x in t.ring;
    } else if x in Heads(t.left) {
      SubAtMembers(t.left, x, lo, e - 1);
    } else {
      SubAtMembers(t.right, x, lo + Pow2(e - 1), e - 1);
    }
  }

  lemma SetSwap(a: set<int>, b: set<int>, old_: set<int>, new_: set<int>)
    requires old_ <= a && old_ !! b
    ensures b + (a - old_ + new_) == (b + a) - old_ + new_
  {}

  lemma {:induction false} GraftMembers(t: Tree, x: int, sub: Tree, lo: int, e: int)
    requires Shape(t, lo, e) && x in Heads(t)
    ensures Addrs(Graft(t, x, sub)) == Addrs(t) - Addrs(SubAt(t, x)) + Addrs(sub)
    decreases t
  {
    hide Shape, SubAt, Heads, Graft, Sizes, Distinct, Pow2, Addrs, Elems;
    OpenHeads(t, x, lo, e);
    OpenShape(t, lo, e);
    if t.ring[0] == x {
      SetSwap(Addrs(t), {}, Addrs(t), Addrs(sub));
    } else if x in Heads(t.left) {
      SubAtMembers(t.left, x, lo, e - 1);
      GraftMembers(t.left, x, sub, lo, e - 1);
      LeftReplaced(t, Graft(t.left, x, sub), Addrs(SubAt(t, x)), Addrs(sub));
    } else {
      SubAtMembers(t.right, x, lo + Pow2(e - 1), e - 1);
      GraftMembers(t.right, x, sub, lo + Pow2(e - 1), e - 1);
      RightReplaced(t, Graft(t.right, x, sub), Addrs(SubAt(t, x)), Addrs(sub));
    }
  }

  lemma RestApart(t: Tree)
    requires t.Node? && Apart(t.ring, t.left, t.right)
    ensures Addrs(t.left) !! Elems(t.ring) + Addrs(t.right) && Addrs(t.right) !! Elems(t.ring) + Addrs(t.left)
  {
    hide Addrs;
    forall a | a in Elems(t.ring)
      ensures a !in Addrs(t.left) && a !in Addrs(t.right)
    {
      ElemsIn(t.ring);
    }
  }

  lemma LeftReplaced(t: Tree, left: Tree, old_: set<int>, new_: set<int>)
    requires t.Node? && Apart(t.ring, t.left, t.right) && old_ <= Addrs(t.left) && Addrs(left) == Addrs(t.left) - old_ + new_
    ensures Addrs(t.(left := left)) == Addrs(t) - old_ + new_
  {
    var rest := Elems(t.ring) + Addrs(t.right);
    RestApart(t);
    SetSwap(Addrs(t.left), rest, old_, new_);
    assert Addrs(t) == rest + Addrs(t.left) && Addrs(t.(left := left)) == rest + Addrs(left);
  }

  lemma RightReplaced(t: Tree, right: Tree, old_: set<int>, new_: set<int>)
    requires t.Node? && Apart(t.ring, t.left, t.right) && old_ <= Addrs(t.right) && Addrs(right) == Addrs(t.right) - old_ + new_
    ensures Addrs(t.(right := right)) == Addrs(t) - old_ + new_
  {
    var rest := Elems(t.ring) + Addrs(t.left);
    RestApart(t);
    SetSwap(Addrs(t.right), rest, old_, new_);
    assert Addrs(t) == rest + Addrs(t.right) && Addrs(t.(right := right)) == rest + Addrs(right);
  }

  lemma {:induction false} GraftSizes(t: Tree, x: int, sub: Tree, lo: int, e: int)
    requires Shape(t, lo, e) && x in Heads(t) && Sizes(sub) <= Sizes(SubAt(t, x))
    ensures Sizes(Graft(t, x, sub)) <= Sizes(t)
    decreases t
  {
    hide Shape, SubAt, Heads, Graft, Addrs, Distinct;
    OpenHeads(t, x, lo, e);
    OpenShape(t, lo, e);
    if t.ring[0] == x {
    } else if x in Heads(t.left) {
      GraftSizes(t.left, x, sub, lo, e - 1);
    } else {
      GraftSizes(t.right, x, sub, lo + Pow2(e - 1), e - 1);
    }
  }

  lemma {:induction false} GraftShape(t: Tree, x: int, sub: Tree, lo: int, e: int)
    requires Shape(t, lo, e) && x in Heads(t) && Fits(SubAt(t, x), sub)
    ensures Shape(Graft(t, x, sub), lo, e)
    decreases t
  {
    hide Shape, SubAt, Heads, Graft, Addrs, Sizes, Distinct;
    OpenHeads(t, x, lo, e);
    OpenShape(t, lo, e);
    if t.ring[0] == x {
    } else if x in Heads(t.left) {
      var l := Graft(t.left, x, sub);
      SubAtMembers(t.left, x, lo, e - 1);
      GraftMembers(t.left, x, sub, lo, e - 1);
      GraftSizes(t.left, x, sub, lo, e - 1);
      GraftShape(t.left, x, sub, lo, e - 1);
      CloseShape(t.(left := l), lo, e);
    } else {
      var r := Graft(t.right, x, sub);
      SubAtMembers(t.right, x, lo + Pow2(e - 1), e - 1);
      GraftMembers(t.right, x, sub, lo + Pow2(e - 1), e - 1);
      GraftSizes(t.right, x, sub, lo + Pow2(e - 1), e - 1);
      GraftShape(t.right, x, sub, lo + Pow2(e - 1), e - 1);
      CloseShape(t.(right := r), lo, e);
    }
  }

  lemma OpenSizeOf(t: Tree, lo: int, e: int, a: int)
    requires Shape(t, lo, e) && a in Addrs(t)
    ensures a in t.ring ==> SizeOf(t, a) == t.size
    ensures a in Addrs(t.left) ==> SizeOf(t, a) == SizeOf(t.left, a)
    ensures a in Addrs(t.right) ==> SizeOf(t, a) == SizeOf(t.right, a)
  {}

  /** Members outside the replaced subtree keep their sizes, the others have those of the new one. */
  lemma {:induction false} GraftSizeOf(t: Tree, x: int, sub: Tree, lo: int, e: int, a: int)
    requires Shape(t, lo, e) && x in Heads(t) && Fits(SubAt(t, x), sub)
    requires a in Addrs(sub) || (a in Addrs(t) && a !in Addrs(SubAt(t, x)))
    ensures var t' := Graft(t, x, sub);
            a in Addrs(t') && SizeOf(t', a) == if a in Addrs(sub) then SizeOf(sub, a) else SizeOf(t, a)
    decreases t
  {
    hide Shape, SubAt, Heads, Graft, Sizes, Distinct, SizeOf, Addrs;
    OpenHeads(t, x, lo, e);
    OpenShape(t, lo, e);
    GraftMembers(t, x, sub, lo, e);
    GraftShape(t, x, sub, lo, e);
    if t.ring[0] != x {
      var t' := Graft(t, x, sub);
      var right := x !in Heads(t.left);
      var child, lo' := if right then t.right else t.left, if right then lo + Pow2(e - 1) else lo;
      SubAtMembers(child, x, lo', e - 1);
      GraftMembers(child, x, sub, lo', e - 1);
      OpenShape(t', lo, e);
      OpenSizeOf(t', lo, e, a);
      if a in Addrs(sub) || a in Addrs(child) {
        GraftSizeOf(child, x, sub, lo', e - 1, a);
      }
      if a in Addrs(t) {
        OpenSizeOf(t, lo, e, a);
      }
    }
  }

  lemma {:induction false} SubAtSizeOf(t: Tree, x: int, lo: int, e: int, a: int)
    requires Shape(t, lo, e) && x in Heads(t) && a in Addrs(SubAt(t, x))
    ensures a in Addrs(t) && SizeOf(t, a) == SizeOf(SubAt(t, x), a)
    decreases t
  {
    hide Shape, SubAt, Heads, Sizes, Distinct, Addrs, SizeOf, Apart;
    OpenHeads(t, x, lo, e);
    OpenShape(t, lo, e);
    if t.ring[0] == x {
    } else if x in Heads(t.left) {
      SubAtSizeOf(t.left, x, lo, e - 1, a);
      SizeOfChild(t, false, a);
    } else {
      SubAtSizeOf(t.right, x, lo + Pow2(e - 1), e - 1, a);
      SizeOfChild(t, true, a);
    }
  }

  lemma SizeOfChild(t: Tree, right: bool, a: int)
    requires t.Node? && Apart(t.ring, t.left, t.right) && a in Addrs(if right then t.right else t.left)
    ensures a in Addrs(t) && SizeOf(t, a) == SizeOf(if right then t.right else t.left, a)
  {
    NodeAddrs(t);
    ElemsIn(t.ring);
  }

  /** Every member is in the ring of some tree node. */
  lemma {:induction false} MemberHead(t: Tree, lo: int, e: int, a: int) returns (x: int)
    requires Shape(t, lo, e) && a in Addrs(t)
    ensures x in Heads(t) && SubAt(t, x).Node? && a in SubAt(t, x).ring
    decreases t
  {
    hide Shape, SubAt, Sizes, Distinct;
    OpenShape(t, lo, e);
    if a in t.ring {
      x := t.ring[0];
      OpenHeads(t, x, lo, e);
    } else if a in Addrs(t.left) {
      x := MemberHead(t.left, lo, e - 1, a);
      HeadsInAddrs(t.left);
      OpenHeads(t, x, lo, e);
    } else {
      x := MemberHead(t.right, lo + Pow2(e - 1), e - 1, a);
      HeadsInAddrs(t.left);
      HeadsInAddrs(t.right);
      OpenHeads(t, x, lo, e);
    }
  }

  /** The words of the subtree, and its parent pointer. */
  lemma {:induction false} SubAtRep(k: Links, t: Tree, p: int, par: int, bin: int, x: int, lo: int, e: int)
    requires Rep(k, t, p, par, bin) && Shape(t, lo, e) && x in Heads(t)
    ensures var xp := At(k.parent, x);
            && Rep(k, SubAt(t, x), x, xp, bin)
            && (x == p ==> xp == par)
            && (x != p ==>
                 && xp in Addrs(t) && xp !in Addrs(SubAt(t, x))
                 && (At(k.child0, xp) == x || At(k.child1, xp) == x))
    decreases t
  {
    hide Shape, SubAt, Rep, Sizes, Distinct, IsRing;
    OpenHeads(t, x, lo, e);
    OpenShape(t, lo, e);
    OpenRep(k, t, p, par, bin);
    if x != p {
      HeadsInAddrs(t.left);
      HeadsInAddrs(t.right);
      var right := x !in Heads(t.left);
      var child, lo' := if right then t.right else t.left, if right then lo + Pow2(e - 1) else lo;
      SubAtMembers(child, x, lo', e - 1);
      SubAtRep(k, child, k.Child(right, p), p, bin, x, lo', e - 1);
    }
  }

  /** What happens to the words outside the replaced subtree: only the pointer to it changes. */
  ghost predicate Repointed(k: Links, k': Links, outside: set<int>, x: int, r: int) {
    var xp := At(k.parent, x);
    && (forall a :: a in outside ==> SameRing(k, k', a))
    && (forall a :: a in outside && a != xp ==> SameTree(k, k', a))
    && (xp in outside ==>
         && At(k'.parent, xp) == At(k.parent, xp) && At(k'.index, xp) == At(k.index, xp)
         && At(k'.child0, xp) == (if At(k.child0, xp) == x then r else At(k.child0, xp))
         && At(k'.child1, xp) == (if At(k.child0, xp) == x then At(k.child1, xp) else r))
  }

  lemma {:induction false} GraftRep(
    k: Links, k': Links, t: Tree, p: int, par: int, bin: int, x: int, sub: Tree, r: int, lo: int, e: int)
    requires Rep(k, t, p, par, bin) && Shape(t, lo, e) && x in Heads(t) && x != p
    requires Repointed(k, k', Addrs(t) - Addrs(SubAt(t, x)), x, r)
    requires Rep(k', sub, r, At(k.parent, x), bin)
    ensures Rep(k', Graft(t, x, sub), p, par, bin)
    decreases t
  {
    hide Shape, SubAt, Rep, Sizes, Distinct, IsRing, Graft, Pow2, Addrs, Repointed;
    OpenHeads(t, x, lo, e);
    OpenShape(t, lo, e);
    OpenRep(k, t, p, par, bin);
    HeadsInAddrs(t.left);
    HeadsInAddrs(t.right);
    ElemsIn(t.ring);
    var right := x !in Heads(t.left);
    var child, other := if right then t.right else t.left, if right then t.left else t.right;
    var lo' := if right then lo + Pow2(e - 1) else lo;
    SubAtMembers(child, x, lo', e - 1);
    SubAtRep(k, child, k.Child(right, p), p, bin, x, lo', e - 1);
    hide Heads;
    assert forall a :: a in t.ring ==> a in Addrs(t) - Addrs(SubAt(t, x));
    GraftRepChild(k, k', t, p, par, bin, x, sub, r, lo', e - 1, right, child, other);
  }

  lemma GraftRepChild(
    k: Links, k': Links, t: Tree, p: int, par: int, bin: int, x: int, sub: Tree, r: int, lo: int, e: int,
    right: bool, child: Tree, other: Tree)
    requires Rep(k, t, p, par, bin) && t.Node? && Apart(t.ring, t.left, t.right)
    requires child == (if right then t.right else t.left) && other == if right then t.left else t.right
    requires Shape(child, lo, e) && x in Heads(child) && x in Addrs(SubAt(child, x))
    requires Addrs(SubAt(child, x)) <= Addrs(child)
    requires Repointed(k, k', Addrs(t) - Addrs(SubAt(child, x)), x, r)
    requires var xp := At(k.parent, x);
      if x == k.Child(right, p) then xp == p
      else xp in Addrs(child) && xp !in Addrs(SubAt(child, x))
    requires Rep(k', sub, r, At(k.parent, x), bin)
    ensures Rep(k', if right then t.(right := Graft(child, x, sub)) else t.(left := Graft(child, x, sub)), p, par, bin)
    decreases t, 0
  {
    hide Shape, SubAt, Rep, Sizes, Distinct, IsRing, Graft, Pow2, Heads, Addrs;
    OpenRep(k, t, p, par, bin);
    var c, o := k.Child(right, p), k.Child(!right, p);
    var xp := At(k.parent, x);
    assert forall a :: a in t.ring ==> a !in Addrs(child) && a !in Addrs(other);
    assert p in Addrs(t) - Addrs(SubAt(child, x));
    RootHead(k, child, c, p, bin, x);
    if x == c {
      RootNotIn(k, other, o, p, bin, x);
    } else {
      assert SameTree(k, k', p);
    }
    RingWordsFrame(k, k', t.ring, bin);
    assert xp !in Addrs(other);
    RepFrame(k, k', other, o, p, bin);
    if x == c {
      OpenHeads(child, x, lo, e);
    } else {
      GraftRep(k, k', child, c, p, bin, x, sub, r, lo, e);
    }
    CloseRep(k', if right then t.(right := Graft(child, x, sub)) else t.(left := Graft(child, x, sub)), p, par, bin);
  }

  lemma RootHead(k: Links, t: Tree, p: int, par: int, bin: int, x: int)
    requires Rep(k, t, p, par, bin) && x in Heads(t)
    ensures t.Node? && |t.ring| > 0 && t.ring[0] == p && p != 0
  {}

  lemma RootNotIn(k: Links, t: Tree, p: int, par: int, bin: int, x: int)
    requires Rep(k, t, p, par, bin) && x !in Addrs(t) && x != 0
    ensures p != x
  {
    if t.Node? {
      OpenRep(k, t, p, par, bin);
    }
  }

  // ---------------------------------------------------------------- removal

  /** The rightmost leaf, the tree without it, and the node and side its pointer is stored at. */
  ghost function LeafOf(t: Tree): (leaf: Tree)
    requires t.Node?
    ensures leaf.Leaf()
  {
    if t.right.Node? then LeafOf(t.right) else if t.left.Node? then LeafOf(t.left) else t
  }

  ghost function DropLeaf(t: Tree): (t': Tree)
    requires t.Node?
  {
    if t.right.Node? then t.(right := DropLeaf(t.right))
    else if t.left.Node? then t.(left := DropLeaf(t.left))
    else Nil
  }

  ghost function LeafOwner(t: Tree): (int, bool)
    requires t.Node? && !t.Leaf()
  {
    var right := t.right.Node?;
    var child := if right then t.right else t.left;
    if child.Leaf() then (if |t.ring| > 0 then t.ring[0] else 0, right) else LeafOwner(child)
  }

  lemma OpenLeaf(t: Tree)
    requires t.Node?
    ensures t.Leaf() ==> LeafOf(t) == t && DropLeaf(t) == Nil
    ensures t.right.Node? ==> LeafOf(t) == LeafOf(t.right) && DropLeaf(t) == t.(right := DropLeaf(t.right))
    ensures t.right.Nil? && t.left.Node? ==> LeafOf(t) == LeafOf(t.left) && DropLeaf(t) == t.(left := DropLeaf(t.left))
  {}

  lemma {:induction false} LeafMembers(t: Tree, lo: int, e: int)
    requires Shape(t, lo, e) && t.Node?
    ensures var leaf := LeafOf(t);
            && |leaf.ring| > 0 && Distinct(leaf.ring) && Addrs(leaf) == Elems(leaf.ring)
            && Elems(leaf.ring) <= Addrs(t) && leaf.size in Sizes(t)
    decreases t
  {
    hide Shape, Distinct, LeafOf, DropLeaf;
    OpenShape(t, lo, e);
    OpenLeaf(t);
    if t.right.Node? {
      LeafMembers(t.right, lo + Pow2(e - 1), e - 1);
    } else if t.left.Node? {
      LeafMembers(t.left, lo, e - 1);
    }
  }

  lemma {:induction false} DropLeafAddrs(t: Tree, lo: int, e: int)
    requires Shape(t, lo, e) && t.Node?
    ensures Addrs(DropLeaf(t)) == Addrs(t) - Elems(LeafOf(t).ring)
    decreases t
  {
    hide Shape, Distinct, Sizes, LeafOf, DropLeaf, Pow2;
    OpenShape(t, lo, e);
    OpenLeaf(t);
    var leaf := Elems(LeafOf(t).ring);
    if t.right.Node? {
      LeafMembers(t.right, lo + Pow2(e - 1), e - 1);
      DropLeafAddrs(t.right, lo + Pow2(e - 1), e - 1);
      SetSwap(Addrs(t.right), Elems(t.ring) + Addrs(t.left), leaf, {});
    } else if t.left.Node? {
      LeafMembers(t.left, lo, e - 1);
      DropLeafAddrs(t.left, lo, e - 1);
      SetSwap(Addrs(t.left), Elems(t.ring) + Addrs(t.right), leaf, {});
    }
  }

  lemma {:induction false} DropLeafSizes(t: Tree, lo: int, e: int)
    requires Shape(t, lo, e) && t.Node?
    ensures Sizes(DropLeaf(t)) == Sizes(t) - {LeafOf(t).size}
    decreases t
  {
    hide Shape, Distinct, Addrs, LeafOf, DropLeaf;
    OpenShape(t, lo, e);
    OpenLeaf(t);
    var s := LeafOf(t).size;
    if t.right.Node? {
      LeafMembers(t.right, lo + Pow2(e - 1), e - 1);
      DropLeafSizes(t.right, lo + Pow2(e - 1), e - 1);
      if s in Sizes(t.left) {
        ShapeSizes(t.left, lo, e - 1, s);
        ShapeSizes(t.right, lo + Pow2(e - 1), e - 1, s);
      }
      SetSwap(Sizes(t.right), {t.size} + Sizes(t.left), {s}, {});
    } else if t.left.Node? {
      LeafMembers(t.left, lo, e - 1);
      DropLeafSizes(t.left, lo, e - 1);
      SetSwap(Sizes(t.left), {t.size} + Sizes(t.right), {s}, {});
    }
  }

  lemma NilShape(lo: int, e: int)
    ensures Shape(Nil, lo, e)
  {}

  lemma {:induction false} DropLeafShape(t: Tree, lo: int, e: int)
    requires Shape(t, lo, e) && t.Node?
    ensures Shape(DropLeaf(t), lo, e)
    decreases t
  {
    hide Shape, Distinct, Addrs, Sizes, LeafOf, DropLeaf, Pow2;
    OpenLeaf(t);
    if t.Leaf() {
      NilShape(lo, e);
    } else {
      OpenShape(t, lo, e);
      var right := t.right.Node?;
      var child, lo' := if right then t.right else t.left, if right then lo + Pow2(e - 1) else lo;
      DropLeafShape(child, lo', e - 1);
      DropLeafAddrs(child, lo', e - 1);
      DropLeafSizes(child, lo', e - 1);
      hide Elems;
      CloseShape(DropLeaf(t), lo, e);
    }
  }

  lemma LeafSizeOf(t: Tree, a: int)
    requires t.Leaf() && a in Addrs(t)
    ensures a in t.ring && SizeOf(t, a) == t.size
  {}

  lemma {:induction false} DropLeafSizeOf(t: Tree, lo: int, e: int, a: int)
    requires Shape(t, lo, e) && t.Node? && a in Addrs(t)
    ensures if a in LeafOf(t).ring then SizeOf(t, a) == LeafOf(t).size
            else a in Addrs(DropLeaf(t)) && SizeOf(DropLeaf(t), a) == SizeOf(t, a)
    decreases t
  {
    hide Shape, Distinct, Addrs, Sizes, SizeOf, LeafOf, DropLeaf, Pow2;
    OpenLeaf(t);
    if t.Leaf() {
      LeafSizeOf(t, a);
    } else {
      DropLeafAddrs(t, lo, e);
      DropLeafShape(t, lo, e);
      OpenShape(t, lo, e);
      OpenSizeOf(t, lo, e, a);
      var right := t.right.Node?;
      var child, lo' := if right then t.right else t.left, if right then lo + Pow2(e - 1) else lo;
      LeafMembers(child, lo', e - 1);
      DropLeafAddrs(child, lo', e - 1);
      OpenShape(DropLeaf(t), lo, e);
      if a in Addrs(child) {
        DropLeafSizeOf(child, lo', e - 1, a);
      }
      if a in Addrs(DropLeaf(t)) {
        OpenSizeOf(DropLeaf(t), lo, e, a);
      }
    }
  }

  lemma OpenOwner(t: Tree)
    requires t.Node? && !t.Leaf() && |t.ring| > 0
    ensures var right := t.right.Node?;
            var child := if right then t.right else t.left;
            child.Node? && LeafOwner(t) == if child.Leaf() then (t.ring[0], right) else LeafOwner(child)
  {}

  /** Clearing the pointer to the rightmost leaf leaves the tree without it; the leaf's own words stay. */
  lemma {:induction false} LeafRep(k: Links, k': Links, t: Tree, p: int, par: int, bin: int, lo: int, e: int)
    requires Rep(k, t, p, par, bin) && Shape(t, lo, e) && t.Node? && !t.Leaf()
    requires var (owner, right) := LeafOwner(t);
      && k'.Child(right, owner) == 0 && k'.Child(!right, owner) == k.Child(!right, owner)
      && At(k'.parent, owner) == At(k.parent, owner) && At(k'.index, owner) == At(k.index, owner)
      && SameRing(k, k', owner)
      && forall a :: a in Addrs(t) && a != owner ==> SameRing(k, k', a) && SameTree(k, k', a)
    ensures var (owner, right) := LeafOwner(t);
      && owner in Addrs(DropLeaf(t))
      && Rep(k', LeafOf(t), k.Child(right, owner), owner, bin)
    ensures Rep(k', DropLeaf(t), p, par, bin)
    decreases t
  {
    hide Shape, Distinct, Addrs, Sizes, LeafOf, DropLeaf, Rep, LeafOwner, IsRing, Pow2;
    OpenRep(k, t, p, par, bin);
    OpenShape(t, lo, e);
    OpenOwner(t);
    OpenLeaf(t);
    DropLeafAddrs(t, lo, e);
    var right := t.right.Node?;
    var child, lo' := if right then t.right else t.left, if right then lo + Pow2(e - 1) else lo;
    var c, o := k.Child(right, p), k.Child(!right, p);
    LeafMembers(child, lo', e - 1);
    OpenLeaf(child);
    if !child.Leaf() {
      OwnerIn(child, lo', e - 1);
      LeafRep(k, k', child, c, p, bin, lo', e - 1);
      DropLeafAddrs(child, lo', e - 1);
    }
    LeafRepNode(k, k', t, p, par, bin, right, child, if right then t.left else t.right, c, o,
                LeafOwner(t).0, DropLeaf(child));
  }

  lemma LeafRepNode(k: Links, k': Links, t: Tree, p: int, par: int, bin: int,
                    right: bool, child: Tree, other: Tree, c: int, o: int, owner: int, child': Tree)
    requires Rep(k, t, p, par, bin) && t.Node? && Apart(t.ring, t.left, t.right)
    requires child == (if right then t.right else t.left) && other == if right then t.left else t.right
    requires c == k.Child(right, p) && o == k.Child(!right, p)
    requires forall a :: a in Addrs(t) && a != owner ==> SameRing(k, k', a) && SameTree(k, k', a)
    requires if child.Leaf() then
        && owner == p && k'.Child(right, p) == 0 && k'.Child(!right, p) == o && SameRing(k, k', p)
        && At(k'.parent, p) == At(k.parent, p) && At(k'.index, p) == At(k.index, p) && child' == Nil
      else
        owner in Addrs(child) && Rep(k', child', c, p, bin)
    ensures child.Leaf() ==> Rep(k', child, c, p, bin)
    ensures Rep(k', if right then t.(right := child') else t.(left := child'), p, par, bin)
  {
    hide Distinct, Addrs, Rep, IsRing;
    OpenRep(k, t, p, par, bin);
    assert forall a :: a in t.ring ==> a in Addrs(t) && (a != owner || a == p);
    RingWordsFrame(k, k', t.ring, bin);
    RepFrame(k, k', other, o, p, bin);
    if child.Leaf() {
      RepFrame(k, k', child, c, p, bin);
      NilRep(k', p, bin);
    } else {
      assert SameTree(k, k', p);
    }
    CloseRep(k', if right then t.(right := child') else t.(left := child'), p, par, bin);
  }

  lemma NilRep(k: Links, par: int, bin: int)
    ensures Rep(k, Nil, 0, par, bin)
  {}

  lemma {:induction false} OwnerIn(t: Tree, lo: int, e: int)
    requires Shape(t, lo, e) && t.Node? && !t.Leaf()
    ensures LeafOwner(t).0 in Addrs(t)
    decreases t
  {
    hide Shape, Distinct, Sizes, LeafOwner;
    OpenShape(t, lo, e);
    OpenOwner(t);
    if t.right.Node? {
      if !t.right.Leaf() {
        OwnerIn(t.right, lo + Pow2(e - 1), e - 1);
      }
    } else if !t.left.Leaf() {
      OwnerIn(t.left, lo, e - 1);
    }
  }

  /** The subtree after its tree node was taken out: the node's ring neighbour takes its place, or, if
      the node was alone, the rightmost leaf below it. */
  ghost function RemoveRoot(t: Tree): Tree
    requires t.Node? && |t.ring| > 0
  {
    if |t.ring| > 1 then t.(ring := LastToFront(Without(t.ring, 0)))
    else if t.Leaf() then Nil
    else Node(LeafOf(t).ring, LeafOf(t).size, DropLeaf(t).left, DropLeaf(t).right)
  }

  lemma WithoutElems(ring: seq<int>, i: int)
    requires Distinct(ring) && 0 <= i < |ring| && |ring| > 1
    ensures Distinct(Without(ring, i)) && Elems(Without(ring, i)) == Elems(ring) - {ring[i]}
  {
    var r := Without(ring, i);
    assert forall j :: 0 <= j < |r| ==> r[j] == ring[if j < i then j else j + 1];
    forall a
      ensures a in r <==> a in ring && a != ring[i]
    {
      if a in ring && a != ring[i] {
        var j :| 0 <= j < |ring| && ring[j] == a;
        assert r[if j < i then j else j - 1] == a;
      }
    }
  }

  lemma RotatedElems(ring: seq<int>)
    requires Distinct(ring) && |ring| > 0
    ensures Distinct(LastToFront(ring)) && Elems(LastToFront(ring)) == Elems(ring)
  {
    var r := LastToFront(ring);
    assert forall j :: 1 <= j < |r| ==> r[j] == ring[j - 1];
    forall a
      ensures a in r <==> a in ring
    {
      if a in ring {
        var j :| 0 <= j < |ring| && ring[j] == a;
        assert r[if j == |ring| - 1 then 0 else j + 1] == a;
      }
    }
  }

  lemma NodeAddrs(t: Tree)
    requires t.Node?
    ensures Addrs(t) == Elems(t.ring) + Addrs(t.left) + Addrs(t.right)
    ensures Sizes(t) == {t.size} + Sizes(t.left) + Sizes(t.right)
    ensures t.Leaf() ==> Addrs(t) == Elems(t.ring) && Sizes(t) == {t.size}
  {}

  lemma SwapRingShape(t: Tree, ring: seq<int>, lo: int, e: int)
    requires Shape(t, lo, e) && t.Node? && |ring| > 0 && Distinct(ring) && Elems(ring) <= Elems(t.ring)
    ensures Shape(t.(ring := ring), lo, e)
  {
    assert forall a :: a in ring ==> a in Elems(ring);
  }

  lemma RingNoneSet(ring: seq<int>)
    requires |ring| == 1
    ensures Elems(ring) == {ring[0]}
  {}

  lemma {:induction false} RemoveRootMembers(t: Tree, lo: int, e: int)
    requires Shape(t, lo, e) && t.Node? && |t.ring| > 0
    ensures Addrs(RemoveRoot(t)) == Addrs(t) - {t.ring[0]} && Sizes(RemoveRoot(t)) <= Sizes(t)
  {
    hide Shape, Distinct, Addrs, Sizes, LeafOf, DropLeaf, Pow2, Elems;
    OpenShape(t, lo, e);
    NodeAddrs(t);
    var x := t.ring[0];
    XNotBelow(t, lo, e);
    if |t.ring| > 1 {
      WithoutElems(t.ring, 0);
      RotatedElems(Without(t.ring, 0));
      NodeAddrs(RemoveRoot(t));
      SetSwap(Elems(t.ring), Addrs(t.left) + Addrs(t.right), {x}, {});
    } else if t.Leaf() {
      RingNoneSet(t.ring);
      NilMembers();
    } else {
      RingNoneSet(t.ring);
      LeafMembers(t, lo, e);
      DropLeafAddrs(t, lo, e);
      DropLeafSizes(t, lo, e);
      OpenLeaf(t);
      NodeAddrs(DropLeaf(t));
      NodeAddrs(RemoveRoot(t));
      DropLeafShape(t, lo, e);
      XNotBelow(DropLeaf(t), lo, e);
      LeafBelow(t, lo, e);
      SetMove(Addrs(t), x, Elems(LeafOf(t).ring), Addrs(DropLeaf(t).left) + Addrs(DropLeaf(t).right));
    }
  }

  lemma SetMove(whole: set<int>, x: int, moved: set<int>, rest: set<int>)
    requires {x} + rest == whole - moved && x !in moved && x !in rest && moved <= whole
    ensures moved + rest == whole - {x}
  {
    forall a
      ensures a in moved + rest <==> a in whole - {x}
    {
      assert a in {x} + rest <==> a in whole - moved;
    }
  }

  lemma NilMembers()
    ensures Addrs(Nil) == {} && Sizes(Nil) == {}
  {}

  lemma XNotBelow(t: Tree, lo: int, e: int)
    requires Shape(t, lo, e) && t.Node? && |t.ring| > 0
    ensures t.ring[0] in Elems(t.ring) && t.ring[0] !in Addrs(t.left) && t.ring[0] !in Addrs(t.right)
  {
    assert t.ring[0] in t.ring;
  }

  lemma LeafBelow(t: Tree, lo: int, e: int)
    requires Shape(t, lo, e) && t.Node? && !t.Leaf()
    ensures Elems(LeafOf(t).ring) <= Addrs(t.left) + Addrs(t.right)
    ensures LeafOf(t).size in Sizes(t.left) + Sizes(t.right)
  {
    hide Shape, Distinct, Addrs, Sizes, LeafOf, DropLeaf, Pow2, Elems;
    OpenShape(t, lo, e);
    OpenLeaf(t);
    if t.right.Node? {
      LeafMembers(t.right, lo + Pow2(e - 1), e - 1);
    } else {
      LeafMembers(t.left, lo, e - 1);
    }
  }

  lemma RemoveRootShape(t: Tree, lo: int, e: int)
    requires Shape(t, lo, e) && t.Node? && |t.ring| > 0
    ensures Shape(RemoveRoot(t), lo, e)
  {
    hide Shape, Distinct, Addrs, Sizes, LeafOf, DropLeaf, Pow2, Elems;
    if |t.ring| > 1 {
      OpenShape(t, lo, e);
      WithoutElems(t.ring, 0);
      RotatedElems(Without(t.ring, 0));
      SwapRingShape(t, LastToFront(Without(t.ring, 0)), lo, e);
    } else if t.Leaf() {
      NilShape(lo, e);
    } else {
      LeafMembers(t, lo, e);
      DropLeafShape(t, lo, e);
      DropLeafAddrs(t, lo, e);
      DropLeafSizes(t, lo, e);
      OpenLeaf(t);
      var d := DropLeaf(t);
      OpenShape(t, lo, e);
      OpenShape(d, lo, e);
      NodeAddrs(d);
      ShapeSizes(t, lo, e, LeafOf(t).size);
      assert Apart(LeafOf(t).ring, d.left, d.right) by {
        ElemsIn(LeafOf(t).ring);
      }
      NotLeafPositive(t, lo, e);
      CloseShape(RemoveRoot(t), lo, e);
    }
  }

  lemma ElemsIn(ring: seq<int>)
    ensures forall a :: a in ring <==> a in Elems(ring)
  {}

  lemma NotLeafPositive(t: Tree, lo: int, e: int)
    requires Shape(t, lo, e) && t.Node? && !t.Leaf()
    ensures e > 0
  {}

  lemma RemoveRootFits(t: Tree, lo: int, e: int)
    requires Shape(t, lo, e) && t.Node? && |t.ring| > 0
    ensures Fits(t, RemoveRoot(t))
  {
    hide RemoveRoot, Addrs, Sizes;
    RemoveRootMembers(t, lo, e);
    forall lo', e' | Shape(t, lo', e')
      ensures Shape(RemoveRoot(t), lo', e')
    {
      RemoveRootShape(t, lo', e');
    }
  }

  lemma RemoveRootSizeOf(t: Tree, lo: int, e: int, a: int)
    requires Shape(t, lo, e) && t.Node? && |t.ring| > 0 && a in Addrs(RemoveRoot(t))
    ensures a in Addrs(t) && SizeOf(RemoveRoot(t), a) == SizeOf(t, a)
  {
    hide Shape, Distinct, Addrs, Sizes, LeafOf, DropLeaf, Pow2, Elems, SizeOf;
    RemoveRootMembers(t, lo, e);
    RemoveRootShape(t, lo, e);
    OpenSizeOf(t, lo, e, a);
    OpenSizeOf(RemoveRoot(t), lo, e, a);
    OpenShape(t, lo, e);
    NodeAddrs(t);
    NodeAddrs(RemoveRoot(t));
    if |t.ring| > 1 {
      WithoutElems(t.ring, 0);
      RotatedElems(Without(t.ring, 0));
      ElemsIn(t.ring);
      ElemsIn(RemoveRoot(t).ring);
    } else {
      OpenLeaf(t);
      DropLeafSizeOf(t, lo, e, a);
      if a !in LeafOf(t).ring {
        DropLeafShape(t, lo, e);
        OpenSizeOf(DropLeaf(t), lo, e, a);
        ElemsIn(LeafOf(t).ring);
      }
    }
  }

  /** A ring member that is not the tree node is taken out of the ring alone. */
  lemma RemoveMemberMembers(t: Tree, i: int, lo: int, e: int)
    requires Shape(t, lo, e) && t.Node? && 1 <= i < |t.ring|
    ensures var t' := t.(ring := Without(t.ring, i));
            Addrs(t') == Addrs(t) - {t.ring[i]} && Sizes(t') == Sizes(t)
  {
    hide Shape, Distinct, Addrs, Sizes, Pow2;
    var t' := t.(ring := Without(t.ring, i));
    OpenShape(t, lo, e);
    WithoutElems(t.ring, i);
    ElemsIn(t.ring);
    assert t.ring[i] in t.ring;
    SetSwap(Elems(t.ring), Addrs(t.left) + Addrs(t.right), {t.ring[i]}, {});
    NodeAddrs(t');
    NodeAddrs(t);
  }

  lemma RemoveMemberFits(t: Tree, i: int, lo: int, e: int)
    requires Shape(t, lo, e) && t.Node? && 1 <= i < |t.ring|
    ensures Fits(t, t.(ring := Without(t.ring, i)))
  {
    hide Shape, Pow2, Addrs, Sizes, Distinct;
    RemoveMemberMembers(t, i, lo, e);
    OpenShape(t, lo, e);
    WithoutElems(t.ring, i);
    forall lo', e' | Shape(t, lo', e')
      ensures Shape(t.(ring := Without(t.ring, i)), lo', e')
    {
      SwapRingShape(t, Without(t.ring, i), lo', e');
    }
  }

  lemma RemoveMemberSizeOf(t: Tree, i: int, lo: int, e: int, a: int)
    requires Shape(t, lo, e) && t.Node? && 1 <= i < |t.ring|
    requires a in Addrs(t) && a != t.ring[i]
    ensures var t' := t.(ring := Without(t.ring, i));
            a in Addrs(t') && SizeOf(t', a) == SizeOf(t, a)
  {
    hide Shape, Distinct, Addrs, Sizes, Pow2, SizeOf, Elems;
    var t' := t.(ring := Without(t.ring, i));
    RemoveMemberMembers(t, i, lo, e);
    OpenShape(t, lo, e);
    WithoutElems(t.ring, i);
    SwapRingShape(t, t'.ring, lo, e);
    OpenSizeOf(t, lo, e, a);
    OpenSizeOf(t', lo, e, a);
    NodeAddrs(t');
    ElemsIn(t.ring);
    ElemsIn(t'.ring);
  }

  /** What is left of the subtree at `x` once `x` is out of its ring, or its rightmost leaf `r` is cut
      off: a ring headed by `r`, and two subtrees still hanging off `x`. */
  ghost predicate Parts(k: Links, t: Tree, x: int, r: int, bin: int) {
    && t.Node? && |t.ring| > 0 && r == t.ring[0] && r > 0 && Apart(t.ring, t.left, t.right)
    && IsRing(k.fd, k.bk, t.ring) && RingIndex(k, t.ring, bin) && RingTail(k, t.ring)
    && At(k.child0, r) == 0 && At(k.child1, r) == 0
    && Rep(k, t.left, At(k.child0, x), x, bin) && Rep(k, t.right, At(k.child1, x), x, bin)
    && x !in Addrs(t) && x > 0
  }

  lemma RestRing(k: Links, k': Links, ring: seq<int>, bin: int)
    requires IsRing(k.fd, k.bk, ring) && RingIndex(k, ring, bin) && RingTail(k, ring) && |ring| > 1
    requires var f, r := At(k.fd, ring[0]), At(k.bk, ring[0]); k' == k.(fd := k.fd[r := f], bk := k.bk[f := r])
    ensures var rest := LastToFront(Without(ring, 0));
            && rest[0] == At(k.bk, ring[0]) && rest[0] in ring && rest[0] > 0 && At(k.fd, ring[0]) in ring
            && IsRing(k'.fd, k'.bk, rest) && RingIndex(k', rest, bin) && RingTail(k', rest)
            && At(k'.child0, rest[0]) == 0 && At(k'.child1, rest[0]) == 0
  {
    RemoveLinks(k.fd, k.bk, ring, 0);
    Neighbours(k.fd, k.bk, ring, 0);
    var w := Without(ring, 0);
    RotateRing(k'.fd, k'.bk, w);
    assert forall j :: 0 <= j < |w| ==> w[j] == ring[j + 1];
    var rest := LastToFront(w);
    assert forall j :: 1 <= j < |rest| ==> rest[j] == ring[j];
    assert rest[0] == ring[|ring| - 1];
    hide IsRing;
    assert RingTail(k', rest) && RingIndex(k', rest, bin);
  }

  lemma RingParts(k: Links, k': Links, t: Tree, x: int, xp: int, bin: int, lo: int, e: int)
    requires Rep(k, t, x, xp, bin) && Shape(t, lo, e) && t.Node? && |t.ring| > 1
    requires var f, r := At(k.fd, x), At(k.bk, x); k' == k.(fd := k.fd[r := f], bk := k.bk[f := r])
    ensures Parts(k', RemoveRoot(t), x, At(k.bk, x), bin)
  {
    hide Shape, Addrs, Sizes, Pow2, Rep, IsRing, Distinct, Without, LastToFront;
    OpenRep(k, t, x, xp, bin);
    OpenShape(t, lo, e);
    RemoveRootMembers(t, lo, e);
    RemoveRootShape(t, lo, e);
    OpenShape(RemoveRoot(t), lo, e);
    RestRing(k, k', t.ring, bin);
    RepFrame(k, k', t.left, At(k.child0, x), x, bin);
    RepFrame(k, k', t.right, At(k.child1, x), x, bin);
  }

  lemma LeafParts(k: Links, k': Links, t: Tree, x: int, xp: int, bin: int, lo: int, e: int)
    requires Rep(k, t, x, xp, bin) && Shape(t, lo, e) && t.Node? && |t.ring| == 1 && !t.Leaf()
    requires var (owner, right) := LeafOwner(t); k' == k.SetChild(right, owner, 0)
    ensures var (owner, right) := LeafOwner(t); Parts(k', RemoveRoot(t), x, k.Child(right, owner), bin)
  {
    hide Shape, Addrs, Sizes, Pow2, Rep, LeafOf, DropLeaf, LeafOwner, IsRing, Distinct;
    OpenRep(k, t, x, xp, bin);
    OpenShape(t, lo, e);
    RemoveRootMembers(t, lo, e);
    RemoveRootShape(t, lo, e);
    OpenShape(RemoveRoot(t), lo, e);
    OpenLeaf(t);
    var (owner, right) := LeafOwner(t);
    LeafRep(k, k', t, x, xp, bin, lo, e);
    OpenRep(k', DropLeaf(t), x, xp, bin);
    OpenRep(k', LeafOf(t), k.Child(right, owner), owner, bin);
    NilPointers(k', LeafOf(t), k.Child(right, owner), owner, bin);
  }

  lemma NilPointers(k: Links, t: Tree, p: int, par: int, bin: int)
    requires Rep(k, t, p, par, bin) && t.Leaf()
    ensures At(k.child0, p) == 0 && At(k.child1, p) == 0
  {}

  /** The relinking writes: `r` takes over the parent and the children of `x`. */
  ghost predicate Relinked(k: Links, k': Links, x: int, r: int, xp: int) {
    var c0, c1 := At(k.child0, x), At(k.child1, x);
    && k'.fd == k.fd && k'.bk == k.bk && k'.index == k.index
    && At(k'.parent, r) == xp && At(k'.child0, r) == c0 && At(k'.child1, r) == c1
    && (c0 != 0 ==> At(k'.parent, c0) == r) && (c1 != 0 ==> At(k'.parent, c1) == r)
    && (forall a :: a != r && a != xp ==> At(k'.child0, a) == At(k.child0, a) && At(k'.child1, a) == At(k.child1, a))
    && (forall a :: a != r && (a == c0 ==> c0 == 0) && (a == c1 ==> c1 == 0) ==> At(k'.parent, a) == At(k.parent, a))
  }

  lemma RelinkRep(k: Links, k': Links, t: Tree, x: int, r: int, xp: int, bin: int, lo: int, e: int)
    requires Parts(k, t, x, r, bin) && Relinked(k, k', x, r, xp) && xp != 0 && xp !in Addrs(t)
    requires Shape(t, lo, e)
    ensures Rep(k', t, r, xp, bin)
  {
    hide Shape, Addrs, Sizes, Pow2, Rep, IsRing, Distinct;
    var c0, c1 := At(k.child0, x), At(k.child1, x);
    NodeAddrs(t);
    ElemsIn(t.ring);
    OpenShape(t, lo, e);
    RootPointer(k, t.left, c0, x, bin);
    RootPointer(k, t.right, c1, x, bin);
    assert r in t.ring;
    assert forall a :: a in Addrs(t.left) && a != c0 ==> SameWords(k, k', a);
    assert forall a :: a in Addrs(t.right) && a != c1 ==> SameWords(k, k', a);
    ChildrenApart(t, lo, e);
    Reparent(k, k', t.left, c0, x, r, bin);
    Reparent(k, k', t.right, c1, x, r, bin);
    TailWords(k, k', t.ring, c0, c1, xp);
    CloseRep(k', t, r, xp, bin);
  }

  lemma TailWords(k: Links, k': Links, ring: seq<int>, c0: int, c1: int, xp: int)
    requires |ring| > 0 && RingTail(k, ring) && Distinct(ring)
    requires xp !in ring && (c0 in ring ==> c0 == 0) && (c1 in ring ==> c1 == 0)
    requires forall a :: a != ring[0] && a != xp ==>
      At(k'.child0, a) == At(k.child0, a) && At(k'.child1, a) == At(k.child1, a)
    requires forall a :: a != ring[0] && (a == c0 ==> c0 == 0) && (a == c1 ==> c1 == 0) ==>
      At(k'.parent, a) == At(k.parent, a)
    ensures RingTail(k', ring)
  {
    forall i | 1 <= i < |ring|
      ensures At(k'.parent, ring[i]) == 0 && At(k'.child0, ring[i]) == 0 && At(k'.child1, ring[i]) == 0
    {
      assert ring[i] in ring && ring[i] != ring[0];
    }
  }

  lemma ChildrenApart(t: Tree, lo: int, e: int)
    requires Shape(t, lo, e) && t.Node?
    ensures t.left.Node? ==> Apart(t.left.ring, t.left.left, t.left.right)
    ensures t.right.Node? ==> Apart(t.right.ring, t.right.left, t.right.right)
  {}

  lemma RootPointer(k: Links, t: Tree, p: int, par: int, bin: int)
    requires Rep(k, t, p, par, bin)
    ensures if t.Node? then p in Addrs(t) && p > 0 else p == 0 && p !in Addrs(t)
  {
    if t.Node? {
      OpenRep(k, t, p, par, bin);
    }
  }

  /** A ring member that is not the tree node: two link writes. */
  lemma RemoveMemberRep(k: Links, k': Links, t: Tree, p: int, par: int, bin: int, i: int, lo: int, e: int)
    requires Rep(k, t, p, par, bin) && Shape(t, lo, e) && t.Node? && 1 <= i < |t.ring|
    requires var f, b := At(k.fd, t.ring[i]), At(k.bk, t.ring[i]);
      k' == k.(fd := k.fd[b := f], bk := k.bk[f := b])
    ensures Rep(k', t.(ring := Without(t.ring, i)), p, par, bin)
  {
    hide Shape, Addrs, Sizes, Pow2, Rep, Distinct;
    OpenRep(k, t, p, par, bin);
    OpenShape(t, lo, e);
    RemoveLinks(k.fd, k.bk, t.ring, i);
    var w := Without(t.ring, i);
    RingWithout(k, k', t.ring, i, bin);
    hide IsRing, Without, RingTail, RingIndex;
    RepFrame(k, k', t.left, At(k.child0, p), p, bin);
    RepFrame(k, k', t.right, At(k.child1, p), p, bin);
    CloseRep(k', t.(ring := w), p, par, bin);
  }

  lemma RingWithout(k: Links, k': Links, ring: seq<int>, i: int, bin: int)
    requires RingTail(k, ring) && RingIndex(k, ring, bin) && 1 <= i < |ring|
    requires k' == k.(fd := k'.fd, bk := k'.bk)
    ensures RingTail(k', Without(ring, i)) && RingIndex(k', Without(ring, i), bin)
  {
    var w := Without(ring, i);
    assert forall j :: 0 <= j < |w| ==> w[j] == ring[if j < i then j else j + 1];
  }

  /** The walk to the rightmost leaf, pointer by pointer. */
  lemma LeafStep(k: Links, t: Tree, p: int, par: int, bin: int)
    requires Rep(k, t, p, par, bin) && t.Node?
    ensures At(k.child1, p) != 0 <==> t.right.Node?
    ensures At(k.child0, p) != 0 <==> t.left.Node?
    ensures Rep(k, t.right, At(k.child1, p), p, bin) && Rep(k, t.left, At(k.child0, p), p, bin)
  {
    OpenRep(k, t, p, par, bin);
    RootPointer(k, t.left, At(k.child0, p), p, bin);
    RootPointer(k, t.right, At(k.child1, p), p, bin);
  }
}
