/** Circular doubly linked lists of chunk addresses, as dlmalloc threads them through the `fd` and
    `bk` words of free chunks.  A list is described by the sequence of its members in `fd` order. */
module Rings {

  /** A word of memory; a word nobody has written yet reads as 0. */
  function At(m: map<int, int>, a: int): int {
    if a in m then m[a] else 0
  }

  ghost predicate Distinct(s: seq<int>) {
    forall i, j :: 0 <= i < j < |s| ==> s[i] != s[j]
  }

  ghost predicate Linked(fd: map<int, int>, bk: map<int, int>, a: int, b: int) {
    At(fd, a) == b && At(bk, b) == a
  }

  ghost predicate IsRing(fd: map<int, int>, bk: map<int, int>, ring: seq<int>) {
    && |ring| > 0
    && Distinct(ring)
    && (forall k :: 0 <= k < |ring| - 1 ==> Linked(fd, bk, ring[k], ring[k + 1]))
    && Linked(fd, bk, ring[|ring| - 1], ring[0])
  }

  /** The links of a ring only depend on the words of its members. */
  lemma RingFrame(fd: map<int, int>, bk: map<int, int>, fd': map<int, int>, bk': map<int, int>, ring: seq<int>)
    requires IsRing(fd, bk, ring)
    requires forall a :: a in ring ==> At(fd', a) == At(fd, a) && At(bk', a) == At(bk, a)
    ensures IsRing(fd', bk', ring)
  {
    forall k | 0 <= k < |ring| - 1
      ensures Linked(fd', bk', ring[k], ring[k + 1])
    {
      assert Linked(fd, bk, ring[k], ring[k + 1]);
      assert ring[k] in ring && ring[k + 1] in ring;
    }
    assert ring[0] in ring && ring[|ring| - 1] in ring;
  }

  function InsertAfterFirst(ring: seq<int>, x: int): seq<int>
    requires |ring| > 0
  {
    [ring[0], x] + ring[1..]
  }

  /** The four link writes of an insertion behind the first member. */
  lemma InsertAfterFirstLinks(fd: map<int, int>, bk: map<int, int>, ring: seq<int>, x: int)
    requires IsRing(fd, bk, ring) && x !in ring
    ensures var t := ring[0];
            var f := At(fd, t);
            f in ring && IsRing(fd[t := x][x := f], bk[f := x][x := t], InsertAfterFirst(ring, x))
  {
    var t := ring[0];
    var f := At(fd, t);
    var r := InsertAfterFirst(ring, x);
    var fd' := fd[t := x][x := f];
    var bk' := bk[f := x][x := t];
    assert Linked(fd, bk, ring[|ring| - 1], ring[0]);
    if |ring| > 1 {
      assert Linked(fd, bk, ring[0], ring[1]);
      assert f == ring[1];
    } else {
      assert f == ring[0];
    }
    assert Distinct(r) by {
      forall i, j | 0 <= i < j < |r|
        ensures r[i] != r[j]
      {
        if i == 1 || j == 1 {
          assert r[if i == 1 then j else i] in ring;
        } else {
          assert r[i] == ring[if i == 0 then 0 else i - 1] && r[j] == ring[j - 1];
        }
      }
    }
    forall k | 0 <= k < |r| - 1
      ensures Linked(fd', bk', r[k], r[k + 1])
    {
      if k >= 2 {
        assert r[k] == ring[k - 1] && r[k + 1] == ring[k];
        assert Linked(fd, bk, ring[k - 1], ring[k - 1 + 1]);
      }
    }
  }

  function Without(ring: seq<int>, k: int): seq<int>
    requires 0 <= k < |ring|
  {
    ring[..k] + ring[k + 1..]
  }

  /** The neighbours of member `k`, in `fd` and in `bk` direction. */
  lemma Neighbours(fd: map<int, int>, bk: map<int, int>, ring: seq<int>, k: int)
    requires IsRing(fd, bk, ring) && 0 <= k < |ring|
    ensures At(fd, ring[k]) == ring[if k == |ring| - 1 then 0 else k + 1]
    ensures At(bk, ring[k]) == ring[if k == 0 then |ring| - 1 else k - 1]
  {
    if k > 0 {
      assert Linked(fd, bk, ring[k - 1], ring[k - 1 + 1]);
    }
    if k < |ring| - 1 {
      assert Linked(fd, bk, ring[k], ring[k + 1]);
    }
  }

  /** The two link writes that take member `k` out of a ring of at least two. */
  lemma RemoveLinks(fd: map<int, int>, bk: map<int, int>, ring: seq<int>, k: int)
    requires IsRing(fd, bk, ring) && 0 <= k < |ring| && |ring| > 1
    ensures var f := At(fd, ring[k]);
            var b := At(bk, ring[k]);
            f in ring && b in ring && f != ring[k] && b != ring[k] &&
            IsRing(fd[b := f], bk[f := b], Without(ring, k))
  {
    Neighbours(fd, bk, ring, k);
    var f := At(fd, ring[k]);
    var b := At(bk, ring[k]);
    var r := Without(ring, k);
    var fd' := fd[b := f];
    var bk' := bk[f := b];
    assert forall i :: 0 <= i < |r| ==> r[i] == ring[if i < k then i else i + 1];
    forall i | 0 <= i < |r| - 1
      ensures Linked(fd', bk', r[i], r[i + 1])
    {
      if i == k - 1 {
      } else {
        var j := if i < k then i else i + 1;
        assert r[i] == ring[j] && r[i + 1] == ring[j + 1];
        assert Linked(fd, bk, ring[j], ring[j + 1]);
      }
    }
    if k == 0 {
      assert r[0] == ring[1] == f;
      assert r[|r| - 1] == ring[|ring| - 1] == b;
    } else if k == |ring| - 1 {
      assert r[0] == ring[0] == f;
      assert r[|r| - 1] == ring[|ring| - 2] == b;
    } else {
      assert r[0] == ring[0] && r[|r| - 1] == ring[|ring| - 1];
      assert Linked(fd, bk, ring[|ring| - 1], ring[0]);
    }
  }

  function LastToFront(ring: seq<int>): seq<int>
    requires |ring| > 0
  {
    [ring[|ring| - 1]] + ring[..|ring| - 1]
  }

  /** A ring may be read off from its last member. */
  lemma RotateRing(fd: map<int, int>, bk: map<int, int>, ring: seq<int>)
    requires IsRing(fd, bk, ring)
    ensures IsRing(fd, bk, LastToFront(ring))
  {
    var r := LastToFront(ring);
    var n := |ring|;
    assert forall i :: 1 <= i < n ==> r[i] == ring[i - 1];
    forall k | 0 <= k < n - 1
      ensures Linked(fd, bk, r[k], r[k + 1])
    {
      if k == 0 {
        assert Linked(fd, bk, ring[n - 1], ring[0]);
      } else {
        assert Linked(fd, bk, ring[k - 1], ring[k - 1 + 1]);
      }
    }
    if n > 1 {
      assert Linked(fd, bk, ring[n - 2], ring[n - 2 + 1]);
    }
  }
}
