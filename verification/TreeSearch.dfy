/** Why the two walks of the best-fit search visit the best chunk: the walk towards the request's own
    size, which remembers the deepest right subtree it did not enter, and the walk along leftmost
    children.  Both are stated on sizes: `bound` is the best size found so far (or one past every
    word), and every better size has to be where the walk can still reach it. */
module TreeSearch {
  import opened BinIndex
  import opened Tries

  ghost predicate AllAtLeast(t: Tree, b: int) {
    forall s :: s in Sizes(t) ==> b <= s
  }

  ghost predicate AllBelow(t: Tree, b: int) {
    forall s :: s in Sizes(t) ==> s < b
  }

  /** Sizes that fit better than `bound` are below `cur`, below `rst`, or lose against all of `rst`. */
  ghost predicate Pending(sizes: set<int>, nb: int, bound: int, cur: Tree, rst: Tree) {
    forall s :: s in sizes && nb <= s < bound ==>
      s in Sizes(cur) || s in Sizes(rst) || (rst.Node? && AllBelow(rst, s))
  }

  ghost function Better(nb: int, bound: int, size: int): int {
    if nb <= size < bound then size else bound
  }

  /** One step down the path of the requested size. */
  lemma WalkStep(sizes: set<int>, nb: int, bound: int, cur: Tree, rst: Tree, lo: int, e: int)
    requires Shape(cur, lo, e) && cur.Node? && e >= 1 && lo <= nb < lo + Pow2(e)
    requires Pending(sizes, nb, bound, cur, rst) && AllAtLeast(rst, lo + Pow2(e))
    ensures var right := nb >= lo + Pow2(e - 1);
            var next := if right then cur.right else cur.left;
            var lo' := if right then lo + Pow2(e - 1) else lo;
            var rst' := if !right && cur.right.Node? then cur.right else rst;
            && Shape(next, lo', e - 1) && lo' <= nb < lo' + Pow2(e - 1)
            && Pending(sizes, nb, Better(nb, bound, cur.size), next, rst')
            && AllAtLeast(rst', lo' + Pow2(e - 1))
  {
    hide Shape, Sizes, Pow2;
    OpenShape(cur, lo, e);
    var right := nb >= lo + Pow2(e - 1);
    var next := if right then cur.right else cur.left;
    var rst' := if !right && cur.right.Node? then cur.right else rst;
    var bound' := Better(nb, bound, cur.size);
    NilMembers();
    forall s | s in Sizes(cur.left)
      ensures s < lo + Pow2(e - 1)
    {
      ShapeSizes(cur.left, lo, e - 1, s);
    }
    forall s | s in Sizes(cur.right)
      ensures lo + Pow2(e - 1) <= s < lo + Pow2(e)
    {
      ShapeSizes(cur.right, lo + Pow2(e - 1), e - 1, s);
    }
    forall s | s in sizes && nb <= s < bound'
      ensures s in Sizes(next) || s in Sizes(rst') || (rst'.Node? && AllBelow(rst', s))
    {
      if s in Sizes(cur) {
        assert s != cur.size;
      } else if rst' != rst {
        if s in Sizes(rst) {
          assert AllBelow(rst', s);
        } else {
          RstNotEmpty(rst);
          var s0 :| s0 in Sizes(rst);
          assert s0 < s && lo + Pow2(e) <= s0;
          assert AllBelow(rst', s);
        }
      }
    }
  }

  lemma RstNotEmpty(t: Tree)
    requires t.Node?
    ensures exists s :: s in Sizes(t)
  {
    assert t.size in Sizes(t);
  }

  /** Sizes that fit better than `bound` are below `cur`, or lose against all of it. */
  ghost predicate PendingLeft(sizes: set<int>, nb: int, bound: int, cur: Tree) {
    forall s :: s in sizes && nb <= s < bound ==> s in Sizes(cur) || (cur.Node? && AllBelow(cur, s))
  }

  function LeftmostChild(t: Tree): Tree
    requires t.Node?
  {
    if t.left.Node? then t.left else t.right
  }

  /** One step along the leftmost children. */
  lemma LeftStep(sizes: set<int>, nb: int, bound: int, cur: Tree, lo: int, e: int)
    requires Shape(cur, lo, e) && cur.Node? && nb <= bound
    requires PendingLeft(sizes, nb, bound, cur) && (bound == nb || AllAtLeast(cur, nb))
    ensures var next := LeftmostChild(cur);
            PendingLeft(sizes, nb, Better(nb, bound, cur.size), next) && (bound == nb || AllAtLeast(next, nb))
  {
    hide Shape, Pow2, Sizes;
    var bound' := Better(nb, bound, cur.size);
    var next := LeftmostChild(cur);
    OpenShape(cur, lo, e);
    NilMembers();
    forall s | s in sizes && nb <= s < bound'
      ensures s in Sizes(next) || (next.Node? && AllBelow(next, s))
    {
      if s in Sizes(cur) && s !in Sizes(next) {
        forall s' | s' in Sizes(cur.left)
          ensures s' < s
        {
          LeftSmaller(cur, lo, e, s', s);
        }
      }
    }
  }

  /** `trem < rsize` on unsigned words: the chunk fits, and fits better than the best one so far. */
  lemma FitsBetter(size: int, nb: int, rsize: int)
    requires 0 <= size < WORD && 0 < nb < WORD && 0 <= rsize <= WORD - nb
    ensures (size - nb) % WORD < rsize <==> nb <= size < nb + rsize
    ensures nb <= size ==> (size - nb) % WORD == size - nb
  {
    if size < nb {
      ModWord(size - nb + WORD, size - nb);
    } else {
      ModWord(size - nb, size - nb);
    }
  }

  lemma ModWord(r: int, x: int)
    requires 0 <= r < WORD && (x == r || x == r - WORD)
    ensures x % WORD == r
  {}
}
