/** The sector cache over a block device: 16 entries, replaced in order of use, write-back or
    write-through.  It is proved against the flat device that its user sees. */
module BlockCache {
  import opened LruLists

  const CACHE_SECTORS := 16

  type Block = seq<int>

  // ---------------------------------------------------------------- what the user sees

  ghost predicate Holds(es: seq<Entry>, i: int, l: int) {
    0 <= i < |es| && es[i].valid && es[i].lba == l
  }

  /** No sector is held twice. */
  ghost predicate HeldOnce(es: seq<Entry>, disk: seq<Block>) {
    && |es| == CACHE_SECTORS
    && (forall i {:trigger es[i]} :: 0 <= i < |es| && es[i].valid ==> 0 <= es[i].lba < |disk|)
    && (forall i, j {:trigger es[i], es[j]} :: 0 <= i < j < |es| && es[i].valid && es[j].valid ==> es[i].lba != es[j].lba)
  }

  /** Also, clean entries equal the device, and with write-through all are clean. */
  ghost predicate CacheOk(es: seq<Entry>, disk: seq<Block>, writeThrough: bool) {
    && HeldOnce(es, disk)
    && forall i {:trigger es[i]} :: 0 <= i < |es| && es[i].valid ==>
         (!es[i].dirty ==> es[i].data == disk[es[i].lba]) && (writeThrough ==> !es[i].dirty)
  }

  /** The sector the user sees: the cached one, or else that of the device. */
  ghost function ViewAt(es: seq<Entry>, disk: seq<Block>, l: int): Block
    requires 0 <= l < |disk|
  {
    if exists i :: Holds(es, i, l) then
      var i :| Holds(es, i, l);
      es[i].data
    else disk[l]
  }

  ghost function View(es: seq<Entry>, disk: seq<Block>): (v: seq<Block>)
    ensures |v| == |disk|
  {
    seq(|disk|, l requires 0 <= l < |disk| => ViewAt(es, disk, l))
  }

  lemma ViewHeld(es: seq<Entry>, disk: seq<Block>, i: int)
    requires HeldOnce(es, disk) && 0 <= i < |es| && es[i].valid
    ensures 0 <= es[i].lba < |disk| && View(es, disk)[es[i].lba] == es[i].data
  {
    assert Holds(es, i, es[i].lba);
  }

  lemma ViewFree(es: seq<Entry>, disk: seq<Block>, l: int)
    requires 0 <= l < |disk| && forall i :: 0 <= i < |es| ==> !Holds(es, i, l)
    ensures View(es, disk)[l] == disk[l]
  {}

  /** The same entries, up to their links. */
  ghost predicate SameSectors(es: seq<Entry>, es': seq<Entry>) {
    |es'| == |es| && forall i {:trigger es'[i]} :: 0 <= i < |es| ==>
      es'[i].lba == es[i].lba && es'[i].data == es[i].data && es'[i].valid == es[i].valid && es'[i].dirty == es[i].dirty
  }

  lemma Relinked(es: seq<Entry>, es': seq<Entry>, disk: seq<Block>, writeThrough: bool)
    requires CacheOk(es, disk, writeThrough) && SameSectors(es, es')
    ensures CacheOk(es', disk, writeThrough) && View(es', disk) == View(es, disk)
  {
    forall l | 0 <= l < |disk|
      ensures View(es', disk)[l] == View(es, disk)[l]
    {
      if i :| Holds(es, i, l) {
        assert Holds(es', i, l);
      } else {
        assert forall i :: Holds(es', i, l) ==> Holds(es, i, l);
      }
    }
  }

  /** An entry is written back, or only marked clean: the user sees no difference. */
  lemma WrittenBackView(es: seq<Entry>, disk: seq<Block>, i: int)
    requires HeldOnce(es, disk) && 0 <= i < |es| && es[i].valid
    ensures 0 <= es[i].lba < |disk|
    ensures var es', disk' := es[i := es[i].(dirty := false)], disk[es[i].lba := es[i].data];
      && HeldOnce(es', disk') && View(es', disk') == View(es, disk)
      && HeldOnce(es', disk) && View(es', disk) == View(es, disk)
  {
    var es', disk' := es[i := es[i].(dirty := false)], disk[es[i].lba := es[i].data];
    forall l | 0 <= l < |disk|
      ensures View(es', disk')[l] == View(es, disk)[l] == View(es', disk)[l]
    {
      if j :| Holds(es, j, l) {
        assert Holds(es', j, l);
        ViewHeld(es, disk, j);
        ViewHeld(es', disk', j);
        ViewHeld(es', disk, j);
      } else {
        assert forall j :: Holds(es', j, l) ==> Holds(es, j, l);
        assert Holds(es, i, es[i].lba);
      }
    }
  }

  /** A dirty entry is written back. */
  lemma WrittenBack(es: seq<Entry>, disk: seq<Block>, writeThrough: bool, i: int)
    requires CacheOk(es, disk, writeThrough) && 0 <= i < |es| && es[i].valid
    ensures 0 <= es[i].lba < |disk|
    ensures var es', disk' := es[i := es[i].(dirty := false)], disk[es[i].lba := es[i].data];
      CacheOk(es', disk', writeThrough) && View(es', disk') == View(es, disk)
  {
    WrittenBackView(es, disk, i);
  }

  /** An entry is dropped: the user sees the device's sector. */
  lemma Invalidated(es: seq<Entry>, disk: seq<Block>, writeThrough: bool, i: int)
    requires CacheOk(es, disk, writeThrough) && 0 <= i < |es|
    ensures var es' := es[i := es[i].(valid := false)];
      && CacheOk(es', disk, writeThrough)
      && (es[i].valid ==>
            0 <= es[i].lba < |disk| && View(es', disk) == View(es, disk)[es[i].lba := disk[es[i].lba]])
      && (es[i].valid && !es[i].dirty ==> View(es', disk) == View(es, disk))
      && (!es[i].valid ==> es' == es)
  {
    var es' := es[i := es[i].(valid := false)];
    if es[i].valid {
      ViewHeld(es, disk, i);
      var l0 := es[i].lba;
      forall l | 0 <= l < |disk|
        ensures View(es', disk)[l] == if l == l0 then disk[l] else View(es, disk)[l]
      {
        if j :| Holds(es, j, l) && j != i {
          assert Holds(es', j, l);
          ViewHeld(es, disk, j);
          ViewHeld(es', disk, j);
        } else {
          assert forall j :: Holds(es', j, l) ==> Holds(es, j, l) && j != i;
          if l != l0 {
            assert !Holds(es, i, l);
            ViewFree(es, disk, l);
          }
        }
      }
    }
  }

  /** Entry `i` takes sector `l`, which no other entry holds. */
  lemma Placed(es: seq<Entry>, disk: seq<Block>, writeThrough: bool, i: int, l: int, data: Block, dirty: bool)
    requires CacheOk(es, disk, writeThrough) && 0 <= i < |es| && 0 <= l < |disk|
    requires (es[i].valid ==> es[i].lba == l) && forall j :: Holds(es, j, l) ==> j == i
    requires (!dirty ==> data == disk[l]) && (writeThrough ==> !dirty)
    ensures var es' := es[i := es[i].(lba := l, data := data, valid := true, dirty := dirty)];
      CacheOk(es', disk, writeThrough) && View(es', disk) == View(es, disk)[l := data]
  {
    var es' := es[i := es[i].(lba := l, data := data, valid := true, dirty := dirty)];
    assert forall j :: 0 <= j < |es| && j != i && es[j].valid ==> es[j].lba != l by {
      forall j | 0 <= j < |es| && j != i && es[j].valid
        ensures es[j].lba != l
      {
        assert es[j].lba == l ==> Holds(es, j, l);
      }
    }
    ViewHeld(es', disk, i);
    forall k | 0 <= k < |disk| && k != l
      ensures View(es', disk)[k] == View(es, disk)[k]
    {
      if j :| Holds(es, j, k) {
        assert Holds(es', j, k);
        ViewHeld(es, disk, j);
        ViewHeld(es', disk, j);
      } else {
        assert forall j :: Holds(es', j, k) ==> Holds(es, j, k);
      }
    }
  }

  /** Once all entries are clean, the device is what the user sees. */
  lemma AllClean(es: seq<Entry>, disk: seq<Block>, writeThrough: bool)
    requires CacheOk(es, disk, writeThrough) && forall i :: 0 <= i < |es| && es[i].valid ==> !es[i].dirty
    ensures View(es, disk) == disk
  {
    forall l | 0 <= l < |disk|
      ensures View(es, disk)[l] == disk[l]
    {
      if i :| Holds(es, i, l) {
        ViewHeld(es, disk, i);
      } else {
        ViewFree(es, disk, l);
      }
    }
  }

  lemma NowClean(es: seq<Entry>, disk: seq<Block>, writeThrough: bool)
    requires CacheOk(es, disk, false) && forall i :: 0 <= i < |es| && es[i].valid ==> !es[i].dirty
    ensures CacheOk(es, disk, writeThrough)
  {}

  // ---------------------------------------------------------------- recency

  /** The distinct sectors that were accessed, the latest first. */
  ghost function Touched(recent: seq<int>, l: int): seq<int> { ToFront(recent, l) }

  ghost function Least(a: int, b: int): int { if a < b then a else b }

  /** The list holds the entries of the most recently accessed sectors, as many as there are entries. */
  ghost predicate Recency(es: seq<Entry>, order: seq<int>, recent: seq<int>) {
    && NoRepeats(recent) && |order| == Least(CACHE_SECTORS, |recent|)
    && forall k {:trigger order[k]} :: 0 <= k < |order| ==>
         0 <= order[k] < |es| && es[order[k]].valid && es[order[k]].lba == recent[k]
  }

  /** Every valid entry is in the list. */
  ghost predicate AllListed(es: seq<Entry>, order: seq<int>) {
    forall i {:trigger es[i]} :: 0 <= i < |es| && es[i].valid ==> i in order
  }

  lemma {:induction false} Distinct(order: seq<int>, n: int)
    requires NoRepeats(order) && n >= 0 && forall k :: 0 <= k < |order| ==> 0 <= order[k] < n
    ensures |order| <= n
    ensures |order| == n ==> forall i :: 0 <= i < n ==> i in order
    decreases n
  {
    assert order == [] || 0 <= order[0] < n;
    if n > 0 {
      if k :| 0 <= k < |order| && order[k] == n - 1 {
        var rest := order[..k] + order[k + 1..];
        Distinct(rest, n - 1);
        forall i | |order| == n && 0 <= i < n
          ensures i in order
        {
          if i < n - 1 {
            assert i in rest;
          }
        }
      } else {
        Distinct(order, n - 1);
      }
    }
  }

  lemma OrderInRange(es: seq<Entry>, head: int, tail: int, order: seq<int>)
    requires ListOk(es, head, tail, order)
    ensures forall k :: 0 <= k < |order| ==> 0 <= order[k] < |es|
    ensures |order| <= |es| && (|order| == |es| ==> forall i :: 0 <= i < |es| ==> i in order)
  {
    forall k | 0 <= k < |order|
      ensures 0 <= order[k] < |es|
    {
      assert LinkedAt(es, order, k);
    }
    Distinct(order, |es|);
  }

  lemma NoRepeatsToFront(order: seq<int>, e: int)
    requires NoRepeats(order)
    ensures NoRepeats(ToFront(order, e)) && |ToFront(order, e)| == if e in order then |order| else |order| + 1
  {
    if e in order {
      var k :| 0 <= k < |order| && order[k] == e;
      DropAt(order, k);
    } else {
      DropNone(order, e);
    }
  }

  /** An access finds its sector in the cache: both orders move it to the front. */
  lemma HitRecency(es: seq<Entry>, es': seq<Entry>, order: seq<int>, recent: seq<int>, e: int, l: int)
    requires Recency(es, order, recent) && NoRepeats(order) && Holds(es, e, l) && e in order && |es'| == |es|
    requires forall i :: 0 <= i < |es| ==> es'[i].valid == es[i].valid && es'[i].lba == es[i].lba
    ensures Recency(es', ToFront(order, e), Touched(recent, l)) && l in recent[..|order|]
  {
    var k :| 0 <= k < |order| && order[k] == e;
    assert recent[k] == l && recent[..|order|][k] == l;
    DropAt(order, k);
    DropAt(recent, k);
    NoRepeatsToFront(recent, l);
    MovedTogether(es, es', order, recent, k);
  }

  /** Both orders move their `k`-th place to the front. */
  lemma MovedTogether(es: seq<Entry>, es': seq<Entry>, order: seq<int>, recent: seq<int>, k: int)
    requires 0 <= k < |order| <= |recent| && |es'| == |es|
    requires forall j {:trigger order[j]} :: 0 <= j < |order| ==>
      0 <= order[j] < |es| && es[order[j]].valid && es[order[j]].lba == recent[j]
    requires forall i :: 0 <= i < |es| ==> es'[i].valid == es[i].valid && es'[i].lba == es[i].lba
    ensures var order', recent' := [order[k]] + (order[..k] + order[k + 1..]), [recent[k]] + (recent[..k] + recent[k + 1..]);
      forall j {:trigger order'[j]} :: 0 <= j < |order'| ==>
        0 <= order'[j] < |es'| && es'[order'[j]].valid && es'[order'[j]].lba == recent'[j]
  {
    var order', recent' := [order[k]] + (order[..k] + order[k + 1..]), [recent[k]] + (recent[..k] + recent[k + 1..]);
    forall j | 0 <= j < |order'|
      ensures 0 <= order'[j] < |es'| && es'[order'[j]].valid && es'[order'[j]].lba == recent'[j]
    {
      var i := if j == 0 then k else if j <= k then j - 1 else j;
      assert order'[j] == order[i] && recent'[j] == recent[i];
    }
  }

  /** The entry for a missed sector: one that was in no use, or else the last of the list. */
  lemma MissRecency(es: seq<Entry>, es': seq<Entry>, head: int, tail: int, order: seq<int>, recent: seq<int>, e: int, l: int)
    requires Recency(es, order, recent) && ListOk(es, head, tail, order) && |es| == CACHE_SECTORS
    requires 0 <= e < |es| && (if es[e].valid then forall i :: 0 <= i < |es| ==> es[i].valid else true)
    requires es[e].valid ==> tail == e
    requires forall i :: 0 <= i < |es| ==> !Holds(es, i, l)
    requires AllListed(es, order) && |es'| == |es| && es'[e].valid && es'[e].lba == l
    requires forall i :: 0 <= i < |es| && i != e ==> es'[i].valid == es[i].valid && es'[i].lba == es[i].lba
    ensures Recency(es', ToFront(order, e), Touched(recent, l)) && l !in recent[..|order|]
  {
    OrderInRange(es, head, tail, order);
    var n := |order|;
    assert forall k :: 0 <= k < n ==> recent[k] != l by {
      forall k | 0 <= k < n
        ensures recent[k] != l
      {
        assert !Holds(es, order[k], l);
      }
    }
    NoRepeatsToFront(recent, l);
    DropBeyond(recent, l, n);
    if es[e].valid {
      AllListedFull(es, order);
      DropAt(order, n - 1);
      DropBeyond(recent, l, n - 1);
      Shifted(es, es', order, recent, e, l, n - 1);
    } else {
      assert e !in order;
      DropNone(order, e);
      NotFull(order, e);
      DropNone(recent, l);
      Shifted(es, es', order, recent, e, l, n);
    }
  }

  /** The first `m` of both orders move one place down. */
  lemma Shifted(es: seq<Entry>, es': seq<Entry>, order: seq<int>, recent: seq<int>, e: int, l: int, m: int)
    requires Recency(es, order, recent) && 0 <= m <= |order| && NoRepeats(order) && NoRepeats(Touched(recent, l))
    requires 0 <= e < |es| == |es'| && es'[e].valid && es'[e].lba == l
    requires forall i :: 0 <= i < |es| && i != e ==> es'[i].valid == es[i].valid && es'[i].lba == es[i].lba
    requires ToFront(order, e) == [e] + order[..m] && e !in order[..m]
    requires |Drop(recent, l)| >= m && Drop(recent, l)[..m] == recent[..m]
    requires m + 1 == Least(CACHE_SECTORS, |Touched(recent, l)|)
    ensures Recency(es', ToFront(order, e), Touched(recent, l))
  {
    var order', recent' := ToFront(order, e), Touched(recent, l);
    forall k | 0 <= k < |order'|
      ensures 0 <= order'[k] < |es'| && es'[order'[k]].valid && es'[order'[k]].lba == recent'[k]
    {
      if k > 0 {
        assert order'[k] == order[k - 1] == order[..m][k - 1];
        assert recent'[k] == Drop(recent, l)[..m][k - 1] == recent[k - 1];
      }
    }
  }

  lemma AllListedFull(es: seq<Entry>, order: seq<int>)
    requires |es| == CACHE_SECTORS && (forall i :: 0 <= i < |es| ==> es[i].valid) && AllListed(es, order)
    requires NoRepeats(order) && forall k :: 0 <= k < |order| ==> 0 <= order[k] < |es|
    ensures |order| == CACHE_SECTORS
  {
    forall i | 0 <= i < CACHE_SECTORS
      ensures i in order
    {
      assert es[i].valid;
    }
    Covers(order, CACHE_SECTORS);
    Distinct(order, CACHE_SECTORS);
  }

  lemma {:induction false} Covers(order: seq<int>, n: int)
    requires n >= 0 && forall i :: 0 <= i < n ==> i in order
    ensures |order| >= n
    decreases n
  {
    if n > 0 {
      assert n - 1 in order;
      var k :| 0 <= k < |order| && order[k] == n - 1;
      var rest := order[..k] + order[k + 1..];
      forall i | 0 <= i < n - 1
        ensures i in rest
      {
        assert i in order;
        var j :| 0 <= j < |order| && order[j] == i;
        assert rest[if j < k then j else j - 1] == i;
      }
      Covers(rest, n - 1);
    }
  }

  lemma NotFull(order: seq<int>, e: int)
    requires NoRepeats(order) && 0 <= e < CACHE_SECTORS && e !in order
    requires forall k :: 0 <= k < |order| ==> 0 <= order[k] < CACHE_SECTORS
    ensures |order| < CACHE_SECTORS
  {
    Distinct(order, CACHE_SECTORS);
  }

  /** Dropping a sector that is not among the first `n` keeps those. */
  lemma DropBeyond(recent: seq<int>, l: int, n: int)
    requires NoRepeats(recent) && 0 <= n <= |recent| && l !in recent[..n]
    ensures |Drop(recent, l)| >= n && Drop(recent, l)[..n] == recent[..n]
  {
    if l in recent {
      var k :| 0 <= k < |recent| && recent[k] == l;
      assert forall j :: 0 <= j < n ==> recent[j] in recent[..n];
      DropAt(recent, k);
    } else {
      DropNone(recent, l);
    }
  }

  // ---------------------------------------------------------------- the cache

  class CacheBlockDev {
    /** The device below; a reliable one never fails. */
    var disk: seq<Block>
    const reliable: bool

    const entries: array<Entry>
    const writeThrough: bool
    var lruHead: int
    var lruTail: int
    var nreads: nat
    var nreadHits: nat
    var nwrites: nat
    var nwriteHits: nat

    /** The list of entries, the distinct sectors accessed so far, and whether some access disturbed the cache. */
    ghost var order: seq<int>
    ghost var recent: seq<int>
    ghost var disturbed: bool

    ghost predicate Listed()
      reads this, entries
    {
      ListOk(entries[..], lruHead, lruTail, order) && AllListed(entries[..], order)
    }

    ghost predicate Valid()
      reads this, entries
    {
      && CacheOk(entries[..], disk, writeThrough) && Listed()
      && (!disturbed ==> Recency(entries[..], order, recent))
    }

    /** The flat device that the user sees. */
    ghost function Flat(): seq<Block>
      reads this, entries
    {
      View(entries[..], disk)
    }

    constructor (device: seq<Block>, through: bool, neverFails: bool)
      ensures Valid() && Flat() == device && disk == device && writeThrough == through && recent == [] && !disturbed
      ensures reliable == neverFails
      ensures fresh(entries)
    {
      disk, writeThrough, reliable := device, through, neverFails;
      entries := new Entry[CACHE_SECTORS](_ => Entry(0, [], false, false, NIL, NIL));
      lruHead, lruTail := NIL, NIL;
      nreads, nreadHits, nwrites, nwriteHits := 0, 0, 0, 0;
      order, recent, disturbed := [], [], false;
      new;
      AllClean(entries[..], disk, writeThrough);
    }

    method SetEntry(i: int, x: Entry)
      requires 0 <= i < entries.Length
      modifies entries
      ensures entries[..] == old(entries[..])[i := x]
    {
      entries[i] := x;
    }

    /** The part of `lru_move_to_front` that takes the entry out of the list. */
    method UnlinkEntry(e: int)
      requires 0 <= e < entries.Length && NIL <= entries[e].prev < entries.Length && NIL <= entries[e].next < entries.Length
      modifies entries, this`lruTail
      ensures entries[..] == Unlinked(old(entries[..]), e)
      ensures lruTail == if old(lruTail) == e then old(entries[e].prev) else old(lruTail)
    {
      var p, n := entries[e].prev, entries[e].next;
      if p != NIL {
        SetEntry(p, entries[p].(next := n));
      }
      if n != NIL {
        SetEntry(n, entries[n].(prev := p));
      }
      if lruTail == e {
        lruTail := p;
      }
    }

    /** The part of `lru_move_to_front` that puts the entry at the head. */
    method PushEntry(e: int)
      requires 0 <= e < entries.Length && NIL <= lruHead < entries.Length
      modifies entries, this`lruHead, this`lruTail
      ensures entries[..] == Pushed(old(entries[..]), e, old(lruHead))
      ensures lruHead == e && lruTail == if old(lruTail) == NIL then e else old(lruTail)
    {
      SetEntry(e, entries[e].(prev := NIL, next := lruHead));
      if lruHead != NIL {
        SetEntry(lruHead, entries[lruHead].(prev := e));
      }
      lruHead := e;
      if lruTail == NIL {
        lruTail := e;
      }
    }

    /** `lru_move_to_front` */
    method LruMoveToFront(e: int)
      requires ListOk(entries[..], lruHead, lruTail, order) && 0 <= e < entries.Length
      modifies entries, this`lruHead, this`lruTail, this`order
      ensures ListOk(entries[..], lruHead, lruTail, order) && order == ToFront(old(order), e)
      ensures SameSectors(old(entries[..]), entries[..])
    {
      hide ListOk, NoRepeats, Pushed, Unlinked, ToFront;
      ghost var es := entries[..];
      FrontAlready(es, lruHead, lruTail, order, e);
      if lruHead == e {
        return;
      }
      MovedToFront(es, lruHead, lruTail, order, e);
      ListLinks(es, lruHead, lruTail, order, e);
      order := ToFront(order, e);
      UnlinkEntry(e);
      PushEntry(e);
    }

    /** `cache_lookup` */
    method CacheLookup(lba: int) returns (e: int)
      requires entries.Length == CACHE_SECTORS
      ensures e == NIL || Holds(entries[..], e, lba)
      ensures e == NIL ==> forall i :: 0 <= i < entries.Length ==> !Holds(entries[..], i, lba)
    {
      for i := 0 to CACHE_SECTORS
        invariant forall j :: 0 <= j < i ==> !Holds(entries[..], j, lba)
      {
        if entries[i].valid && entries[i].lba == lba {
          return i;
        }
      }
      return NIL;
    }

    /** `cache_invalidate`: what the user sees of that sector is what the device holds. */
    method CacheInvalidate(lba: int)
      requires Valid() && disturbed && 0 <= lba < |disk|
      modifies entries
      ensures Valid() && Flat() == old(Flat())[lba := disk[lba]] && forall i :: !Holds(entries[..], i, lba)
      ensures forall i, l :: Holds(entries[..], i, l) ==> Holds(old(entries[..]), i, l)
    {
      hide ListOk;
      var e := CacheLookup(lba);
      if e != NIL {
        ghost var es := entries[..];
        Invalidated(es, disk, writeThrough, e);
        SetEntry(e, entries[e].(valid := false));
        ListSame(es, entries[..], lruHead, lruTail, order);
      } else {
        ViewFree(entries[..], disk, lba);
      }
    }

    /** The entry that is given up: the last of the list, written back first if need be. */
    ghost predicate GivenUp(es: seq<Entry>, e: int)
      requires |es| == CACHE_SECTORS
      reads this, entries
    {
      && entries.Length == CACHE_SECTORS && 0 <= e < CACHE_SECTORS && !entries[e].valid
      && CacheOk(entries[..], disk, writeThrough) && Listed()
      && (es[e].valid ==> lruTail == e && forall i :: 0 <= i < |es| ==> es[i].valid)
      && forall i :: 0 <= i < |es| && i != e ==> entries[i] == es[i]
    }

    /** `cache_evict` */
    method CacheEvict() returns (e: int)
      requires Valid() && forall i :: 0 <= i < entries.Length ==> entries[i].valid
      modifies entries, this`disk
      ensures |disk| == |old(disk)| && Flat() == old(Flat())
      ensures e == NIL ==> entries[..] == old(entries[..]) && disk == old(disk)
      ensures e != NIL ==> GivenUp(old(entries[..]), e)
      ensures reliable ==> e != NIL
    {
      hide ListOk, NoRepeats, Recency;
      ghost var es := entries[..];
      assert 0 in order by {
        assert es[0].valid;
      }
      LastListed(es, lruHead, lruTail, order);
      var victim := lruTail;
      ViewHeld(es, disk, victim);
      if entries[victim].dirty {
        var failed: bool := *;
        failed := failed && !reliable;
        if failed {
          return NIL;
        }
        WrittenBack(es, disk, writeThrough, victim);
        disk := disk[entries[victim].lba := entries[victim].data];
        SetEntry(victim, entries[victim].(dirty := false));
      }
      ghost var es1 := entries[..];
      Invalidated(es1, disk, writeThrough, victim);
      SetEntry(victim, entries[victim].(valid := false));
      ListSame(es, entries[..], lruHead, lruTail, order);
      e := victim;
    }

    /** `cache_alloc_entry` */
    method CacheAllocEntry() returns (e: int)
      requires Valid()
      modifies entries, this`disk
      ensures |disk| == |old(disk)| && Flat() == old(Flat())
      ensures e == NIL ==> entries[..] == old(entries[..]) && disk == old(disk)
      ensures e != NIL ==> GivenUp(old(entries[..]), e)
      ensures reliable ==> e != NIL
    {
      hide ListOk, Recency;
      for i := 0 to CACHE_SECTORS
        invariant forall j :: 0 <= j < i ==> entries[j].valid
      {
        if !entries[i].valid {
          return i;
        }
      }
      e := CacheEvict();
    }

    /** Entry `e` holds the sector `l` that is accessed; all but its place in the list is as it should be. */
    ghost predicate Used(e: int, l: int)
      reads this, entries
    {
      && ListOk(entries[..], lruHead, lruTail, order) && CacheOk(entries[..], disk, writeThrough) && Holds(entries[..], e, l)
      && (forall i {:trigger entries[..][i]} :: 0 <= i < entries.Length && i != e && entries[..][i].valid ==> i in order)
      && (!disturbed ==> Recency(entries[..], ToFront(order, e), Touched(recent, l)))
    }

    /** The last step of an access. */
    method MoveUsed(e: int, l: int)
      requires Used(e, l)
      modifies entries, this`lruHead, this`lruTail, this`order, this`recent
      ensures Valid() && Flat() == old(Flat()) && recent == Touched(old(recent), l) && Holds(entries[..], e, l)
      ensures entries[e].data == old(entries[e].data)
    {
      hide ListOk, NoRepeats, Recency, CacheOk;
      ghost var es, order0 := entries[..], order;
      recent := Touched(recent, l);
      LruMoveToFront(e);
      Relinked(es, entries[..], disk, writeThrough);
      ToFrontMembers(order0, e);
      SameRecency(es, entries[..], order, recent);
    }

    /** A missed sector gets its entry. */
    lemma MissUsed(es: seq<Entry>, order0: seq<int>, recent0: seq<int>, e: int, l: int)
      requires !disturbed ==> Recency(es, order0, recent0)
      requires ListOk(es, lruHead, lruTail, order0) && |es| == CACHE_SECTORS == entries.Length && AllListed(es, order0)
      requires 0 <= e < |es| && (es[e].valid ==> lruTail == e && forall i :: 0 <= i < |es| ==> es[i].valid)
      requires forall i :: 0 <= i < |es| ==> !Holds(es, i, l)
      requires Holds(entries[..], e, l)
      requires forall i :: 0 <= i < |es| && i != e ==> entries[i].valid == es[i].valid && entries[i].lba == es[i].lba
      ensures !disturbed ==> Recency(entries[..], ToFront(order0, e), Touched(recent0, l)) && l !in recent0[..|order0|]
    {
      hide ListOk, Recency, AllListed, NoRepeats;
      if !disturbed {
        MissRecency(es, entries[..], lruHead, lruTail, order0, recent0, e, l);
      }
    }

    /** A sector that is not in the cache is read into an entry. */
    method FetchBlock(cur: int) returns (ok: bool, e: int)
      requires Valid() && 0 <= cur < |disk| && forall i :: 0 <= i < entries.Length ==> !Holds(entries[..], i, cur)
      modifies entries, this`disk, this`disturbed
      ensures |disk| == |old(disk)| && Flat() == old(Flat())
      ensures !ok ==> Valid()
      ensures ok ==> disturbed == old(disturbed) && Used(e, cur) && entries[e].data == Flat()[cur]
      ensures ok && !disturbed ==> cur !in recent[..|order|]
      ensures reliable ==> ok
    {
      hide ListOk, NoRepeats, Recency;
      ghost var es := entries[..];
      e := CacheAllocEntry();
      if e == NIL {
        return false, e;
      }
      ghost var es1 := entries[..];
      Missing(es, es1, e, cur);
      var failed: bool := *;
      failed := failed && !reliable;
      if failed {
        var garbage: Block := *;
        DataOnly(es1, disk, writeThrough, e, garbage);
        SetEntry(e, entries[e].(data := garbage));
        ListSame(es1, entries[..], lruHead, lruTail, order);
        disturbed := true;
        return false, e;
      }
      Placed(es1, disk, writeThrough, e, cur, disk[cur], false);
      ViewFree(es1, disk, cur);
      SetEntry(e, entries[e].(data := disk[cur], lba := cur, valid := true, dirty := false));
      ListSame(es1, entries[..], lruHead, lruTail, order);
      MissUsed(es, order, recent, e, cur);
      ViewHeld(entries[..], disk, e);
      ok := true;
    }

    /** One sector of `read_blocks`. */
    method ReadBlock(cur: int) returns (ok: bool, block: Block)
      requires Valid() && 0 <= cur < |disk|
      modifies entries, this`disk, this`lruHead, this`lruTail, this`order, this`recent, this`nreadHits, this`disturbed
      ensures Valid() && |disk| == |old(disk)| && Flat() == old(Flat())
      ensures ok ==> disturbed == old(disturbed) && block == Flat()[cur] && recent == Touched(old(recent), cur)
      ensures ok && !disturbed ==>
        nreadHits == old(nreadHits) + if cur in old(recent)[..Least(CACHE_SECTORS, |old(recent)|)] then 1 else 0
      ensures reliable ==> ok
    {
      assert |entries[..]| == CACHE_SECTORS;
      hide ListOk, NoRepeats, CacheOk, AllListed;
      block := [];
      var e := CacheLookup(cur);
      if e == NIL {
        ok, e := FetchBlock(cur);
        if !ok {
          return;
        }
      } else {
        ok := true;
        HitUsed(e, cur);
        nreadHits := nreadHits + 1;
      }
      block := entries[e].data;
      MoveUsed(e, cur);
    }

    /** An entry that holds the accessed sector. */
    lemma HitUsed(e: int, l: int)
      requires Valid() && Holds(entries[..], e, l)
      ensures Used(e, l) && 0 <= l < |disk| && entries[e].data == Flat()[l]
      ensures !disturbed ==> l in recent[..|order|]
    {
      hide ListOk, NoRepeats;
      ViewHeld(entries[..], disk, e);
      ListDistinct(entries[..], lruHead, lruTail, order);
      if !disturbed {
        HitRecency(entries[..], entries[..], order, recent, e, l);
      }
    }

    /** `read_blocks` without bypass: the sectors of the flat device.  A sector counts as a hit exactly when it
        is one of the 16 accessed last. */
    method ReadBlocks(lba: int, count: nat) returns (ok: bool, blocks: seq<Block>)
      requires Valid() && 0 <= lba && lba + count <= |disk|
      modifies entries, this`disk, this`lruHead, this`lruTail, this`order, this`recent, this`nreads, this`nreadHits,
               this`disturbed
      ensures Valid() && |disk| == |old(disk)| && Flat() == old(Flat())
      ensures ok ==> disturbed == old(disturbed) && blocks == Flat()[lba..lba + count]
      ensures ok ==> recent == TouchedAll(old(recent), lba, count)
      ensures ok && !disturbed ==> nreadHits == old(nreadHits) + Hits(old(recent), lba, count)
      ensures reliable ==> ok
    {
      hide ListOk, CacheOk, AllListed, View, Recency;
      nreads := nreads + count;
      blocks := [];
      ok := true;
      for i := 0 to count
        invariant Valid() && ok && |disk| == |old(disk)| && Flat() == old(Flat()) && disturbed == old(disturbed)
        invariant blocks == Flat()[lba..lba + i] && recent == TouchedAll(old(recent), lba, i)
        invariant !disturbed ==> nreadHits == old(nreadHits) + Hits(old(recent), lba, i)
      {
        var block;
        ok, block := ReadBlock(lba + i);
        if !ok {
          return;
        }
        blocks := blocks + [block];
      }
    }

    /** Puts a sector into entry `e`, and through to the device if the cache is write-through. */
    method PutBlock(e: int, cur: int, block: Block) returns (ok: bool)
      requires CacheOk(entries[..], disk, writeThrough) && 0 <= e < entries.Length && 0 <= cur < |disk|
      requires (entries[e].valid ==> entries[e].lba == cur) && forall j :: Holds(entries[..], j, cur) ==> j == e
      modifies entries, this`disk
      ensures |disk| == |old(disk)| && Flat() == old(Flat())[cur := block] && Holds(entries[..], e, cur)
      ensures forall i :: 0 <= i < entries.Length ==>
        entries[i] == if i == e then old(entries[i]).(lba := cur, data := block, valid := true, dirty := entries[i].dirty)
                      else old(entries[i])
      ensures ok ==> CacheOk(entries[..], disk, writeThrough) && (writeThrough ==> disk[cur] == block)
      ensures !ok ==> writeThrough && !CacheOk(entries[..], disk, writeThrough)
      ensures reliable ==> ok
    {
      ghost var es := entries[..];
      Placed(es, disk, false, e, cur, block, true);
      SetEntry(e, entries[e].(data := block, lba := cur, valid := true, dirty := true));
      ok := true;
      if writeThrough {
        var failed: bool := *;
        failed := failed && !reliable;
        if failed {
          return false;
        }
        WrittenBack(entries[..], disk, false, e);
        disk := disk[cur := entries[e].data];
        SetEntry(e, entries[e].(dirty := false));
        NowClean(entries[..], disk, writeThrough);
      }
    }

    /** The entry that a write goes to. */
    method EntryFor(cur: int) returns (e: int, hit: bool)
      requires Valid() && 0 <= cur < |disk|
      modifies entries, this`disk
      ensures |disk| == |old(disk)| && Flat() == old(Flat())
      ensures e == NIL ==> Valid()
      ensures e != NIL ==> 0 <= e < entries.Length && CacheOk(entries[..], disk, writeThrough) && Listed()
      ensures e != NIL ==> hit == Holds(entries[..], e, cur) && (hit || !entries[e].valid)
      ensures e != NIL ==> forall j :: Holds(entries[..], j, cur) ==> j == e
      ensures hit ==> e != NIL && Used(e, cur) && (!disturbed ==> cur in recent[..|order|])
      ensures e != NIL && !hit ==> forall i :: 0 <= i < entries.Length ==> !Holds(old(entries[..]), i, cur)
      ensures e != NIL && !hit ==> GivenUp(old(entries[..]), e)
      ensures reliable ==> e != NIL
    {
      assert |entries[..]| == CACHE_SECTORS;
      hide ListOk, NoRepeats, AllListed, View, Recency;
      ghost var es := entries[..];
      e := CacheLookup(cur);
      hit := e != NIL;
      if hit {
        HitUsed(e, cur);
        OnlyHolder(es, disk, writeThrough, e, cur);
      } else {
        e := CacheAllocEntry();
        if e != NIL {
          Missing(es, entries[..], e, cur);
        }
      }
    }

    /** One sector of `write_blocks`. */
    method WriteBlock(cur: int, block: Block) returns (ok: bool)
      requires Valid() && 0 <= cur < |disk|
      modifies entries, this`disk, this`lruHead, this`lruTail, this`order, this`recent, this`nwriteHits
      ensures |disk| == |old(disk)| && (Flat() == old(Flat()) || Flat() == old(Flat())[cur := block])
      ensures ok ==> Valid() && Flat() == old(Flat())[cur := block]
      ensures ok ==> recent == Touched(old(recent), cur) && (writeThrough ==> disk[cur] == block)
      ensures !ok && !writeThrough ==> Valid()
      ensures ok && !disturbed ==>
        nwriteHits == old(nwriteHits) + if cur in old(recent)[..Least(CACHE_SECTORS, |old(recent)|)] then 1 else 0
      ensures reliable ==> ok
    {
      ghost var es, length := entries[..], |order|;
      assert |entries[..]| == CACHE_SECTORS && (!disturbed ==> length == Least(CACHE_SECTORS, |recent|));
      hide ListOk, NoRepeats, CacheOk, AllListed, View, Recency;
      var e, hit := EntryFor(cur);
      if e == NIL {
        return false;
      }
      if hit {
        nwriteHits := nwriteHits + 1;
      }
      ok := WriteEntry(e, cur, block, es, hit);
    }

    /** Writes the entry that was found or given up, and moves it to the front. */
    method WriteEntry(e: int, cur: int, block: Block, ghost es: seq<Entry>, ghost hit: bool) returns (ok: bool)
      requires |es| == entries.Length == CACHE_SECTORS && 0 <= e < entries.Length && 0 <= cur < |disk|
      requires CacheOk(entries[..], disk, writeThrough) && Listed() && hit == Holds(entries[..], e, cur)
      requires (hit || !entries[e].valid) && forall j :: Holds(entries[..], j, cur) ==> j == e
      requires hit ==> Used(e, cur)
      requires !hit ==>
        && GivenUp(es, e) && AllListed(es, order) && ListOk(es, lruHead, lruTail, order)
        && (!disturbed ==> Recency(es, order, recent)) && forall i :: 0 <= i < |es| ==> !Holds(es, i, cur)
      modifies entries, this`disk, this`lruHead, this`lruTail, this`order, this`recent
      ensures |disk| == |old(disk)| && Flat() == old(Flat())[cur := block]
      ensures ok ==> Valid() && recent == Touched(old(recent), cur) && (writeThrough ==> disk[cur] == block)
      ensures ok && !hit && !disturbed ==> cur !in old(recent)[..|old(order)|]
      ensures !ok ==> writeThrough
      ensures reliable ==> ok
    {
      hide ListOk, NoRepeats, CacheOk, AllListed, View, Recency;
      ghost var es1 := entries[..];
      ok := PutBlock(e, cur, block);
      if ok {
        WriteUsed(es, es1, e, cur, hit);
        MoveUsed(e, cur);
      }
    }

    /** The entry that was written is ready to move to the front. */
    lemma WriteUsed(es: seq<Entry>, es1: seq<Entry>, e: int, l: int, hit: bool)
      requires |es1| == |es| == entries.Length == CACHE_SECTORS && Holds(entries[..], e, l)
      requires forall i {:trigger entries[i]} :: 0 <= i < entries.Length ==>
        && entries[i].prev == es1[i].prev && entries[i].next == es1[i].next
        && (i != e || hit ==> entries[i].valid == es1[i].valid && entries[i].lba == es1[i].lba)
      requires ListOk(es1, lruHead, lruTail, order) && AllListed(es1, order) && CacheOk(entries[..], disk, writeThrough)
      requires hit ==> Holds(es1, e, l) && (!disturbed ==> Recency(es1, ToFront(order, e), Touched(recent, l)))
      requires !hit ==>
        && (forall i :: 0 <= i < |es| && i != e ==> es1[i] == es[i]) && AllListed(es, order)
        && ListOk(es, lruHead, lruTail, order) && (!disturbed ==> Recency(es, order, recent))
        && (forall i :: 0 <= i < |es| ==> !Holds(es, i, l))
        && (es[e].valid ==> lruTail == e && forall i :: 0 <= i < |es| ==> es[i].valid)
      ensures Used(e, l) && (!hit && !disturbed ==> l !in recent[..|order|])
    {
      hide ListOk, NoRepeats, Recency, CacheOk, AllListed;
      ListSame(es1, entries[..], lruHead, lruTail, order);
      if hit {
        StillUsed(es1, e, l);
      } else {
        MissUsed(es, order, recent, e, l);
        StillListed(es1, e);
      }
    }

    /** A hit entry that was overwritten. */
    lemma StillUsed(es: seq<Entry>, e: int, l: int)
      requires Holds(es, e, l) && |es| == entries.Length && AllListed(es, order)
      requires !disturbed ==> Recency(es, ToFront(order, e), Touched(recent, l))
      requires ListOk(entries[..], lruHead, lruTail, order) && CacheOk(entries[..], disk, writeThrough)
      requires forall i :: 0 <= i < |es| ==> entries[i].valid == es[i].valid && entries[i].lba == es[i].lba
      ensures Used(e, l)
    {
      assert Holds(entries[..], e, l);
      forall i | 0 <= i < entries.Length && i != e && entries[..][i].valid
        ensures i in order
      {
        assert es[i].valid;
      }
    }

    /** A missed entry that was filled. */
    lemma StillListed(es: seq<Entry>, e: int)
      requires |es| == entries.Length && AllListed(es, order)
      requires forall i :: 0 <= i < |es| && i != e ==> entries[i].valid == es[i].valid
      ensures forall i {:trigger entries[..][i]} :: 0 <= i < entries.Length && i != e && entries[..][i].valid ==> i in order
    {
      forall i | 0 <= i < entries.Length && i != e && entries[..][i].valid
        ensures i in order
      {
        assert es[i].valid;
      }
    }

    /** `write_blocks` without bypass. */
    method WriteBlocks(lba: int, blocks: seq<Block>) returns (ok: bool)
      requires Valid() && 0 <= lba && lba + |blocks| <= |disk|
      modifies entries, this`disk, this`lruHead, this`lruTail, this`order, this`recent, this`nwrites, this`nwriteHits
      ensures |disk| == |old(disk)|
      ensures exists n :: 0 <= n <= |blocks| && (ok ==> n == |blocks|) && Flat() == Stored(old(Flat()), lba, blocks[..n])
      ensures ok ==> Valid() && recent == TouchedAll(old(recent), lba, |blocks|)
      ensures ok && !disturbed ==> nwriteHits == old(nwriteHits) + Hits(old(recent), lba, |blocks|)
      ensures !ok && !writeThrough ==> Valid()
      ensures reliable ==> ok
    {
      hide ListOk, CacheOk, AllListed, View, Recency;
      nwrites := nwrites + |blocks|;
      ghost var flat := Flat();
      for i := 0 to |blocks|
        invariant Valid() && |disk| == |old(disk)| && Flat() == Stored(flat, lba, blocks[..i])
        invariant recent == TouchedAll(old(recent), lba, i)
        invariant !disturbed ==> nwriteHits == old(nwriteHits) + Hits(old(recent), lba, i)
      {
        StoredNext(flat, lba, blocks, i);
        ok := WriteBlock(lba + i, blocks[i]);
        if !ok {
          assert Flat() == Stored(flat, lba, blocks[..i]) || Flat() == Stored(flat, lba, blocks[..i + 1]);
          return;
        }
      }
      assert blocks[..|blocks|] == blocks;
      ok := true;
    }

    /** A read or write that bypasses the cache first drops the sectors it touches. */
    method InvalidateRange(lba: int, count: nat)
      requires Valid() && 0 <= lba && lba + count <= |disk|
      modifies entries, this`disturbed
      ensures Valid() && Flat() == Stored(old(Flat()), lba, disk[lba..lba + count]) && disturbed
      ensures forall l, i :: lba <= l < lba + count ==> !Holds(entries[..], i, l)
    {
      hide ListOk, CacheOk, AllListed, View, Recency;
      disturbed := true;
      ghost var flat, image := Flat(), disk[lba..lba + count];
      for k := 0 to count
        invariant Valid() && disturbed && Flat() == Stored(flat, lba, image[..k])
        invariant forall l, i :: lba <= l < lba + k ==> !Holds(entries[..], i, l)
      {
        StoredNext(flat, lba, image, k);
        CacheInvalidate(lba + k);
      }
      assert image[..count] == image;
    }

    /** `read_blocks` with bypass.  What was written but not yet on the device is lost; when there is no such
        sector in the range, the flat device stays as it is and its sectors are read. */
    method ReadBypass(lba: int, count: nat) returns (ok: bool, blocks: seq<Block>)
      requires Valid() && 0 <= lba && lba + count <= |disk|
      modifies entries, this`disturbed
      ensures Valid() && Flat() == Stored(old(Flat()), lba, disk[lba..lba + count])
      ensures ok ==> blocks == Flat()[lba..lba + count]
      ensures Flat() == old(Flat()) <==> old(Flat())[lba..lba + count] == disk[lba..lba + count]
      ensures NoneDirty(old(entries[..]), lba, count) ==> Flat() == old(Flat())
      ensures reliable ==> ok
    {
      hide ListOk, AllListed, View, Recency;
      CleanRange(entries[..], disk, writeThrough, lba, count);
      StoredSame(Flat(), lba, disk[lba..lba + count]);
      InvalidateRange(lba, count);
      ok := *;
      ok := ok || reliable;
      blocks := if ok then disk[lba..lba + count] else [];
    }

    /** `write_blocks` with bypass: the sectors go to the device, beneath the cache. */
    method WriteBypass(lba: int, blocks: seq<Block>) returns (ok: bool)
      requires Valid() && 0 <= lba && lba + |blocks| <= |disk|
      modifies entries, this`disk, this`disturbed
      ensures Valid() && |disk| == |old(disk)|
      ensures ok ==> Flat() == Stored(old(Flat()), lba, blocks)
      ensures !ok ==> disk == old(disk) && Flat() == Stored(old(Flat()), lba, disk[lba..lba + |blocks|])
      ensures reliable ==> ok
    {
      hide ListOk, AllListed, View, Recency, CacheOk, Stored;
      ghost var flat := Flat();
      InvalidateRange(lba, |blocks|);
      ok := *;
      ok := ok || reliable;
      if ok {
        StoredTwice(flat, lba, disk[lba..lba + |blocks|], blocks);
        StoredBelow(entries[..], disk, writeThrough, lba, blocks);
        disk := Stored(disk, lba, blocks);
      }
    }

    /** `flush`: the user sees no difference, and the device holds all that was written, except for the sectors in
        `lost`, which could not be written back.  All entries are marked clean even so; the cache is at odds with the
        device exactly when the device does not have what the user sees. */
    method Flush() returns (ok: bool, ghost lost: set<int>)
      requires Valid()
      modifies entries, this`disk
      ensures |disk| == |old(disk)| && Flat() == old(Flat()) && (ok ==> lost == {})
      ensures forall l :: l in lost ==> DirtyFrom(old(entries[..]), 0, l)
      ensures forall l :: 0 <= l < |disk| ==> disk[l] == if l in lost then old(disk)[l] else Flat()[l]
      ensures forall i :: 0 <= i < entries.Length && entries[i].valid ==> !entries[i].dirty
      ensures Valid() <==> disk == Flat()
      ensures reliable ==> ok
    {
      hide ListOk, View, Recency, Flushing;
      ok, lost := true, {};
      ghost var es0, disk0, flat := entries[..], disk, Flat();
      FlushStart(es0, disk0, writeThrough);
      if !writeThrough {
        for i := 0 to CACHE_SECTORS
          invariant |disk| == |old(disk)| && HeldOnce(entries[..], disk) && Flat() == flat
          invariant forall j :: 0 <= j < CACHE_SECTORS ==> entries[j] == if j < i then es0[j].(dirty := entries[j].dirty) else es0[j]
          invariant (ok ==> lost == {}) && (reliable ==> ok) && Flushing(es0, disk0, flat, disk, lost, i)
          invariant forall j :: 0 <= j < i && entries[j].valid ==> !entries[j].dirty
        {
          FlushNext(es0, disk0, flat, disk, lost, i);
          if entries[i].valid && entries[i].dirty {
            WrittenBackView(entries[..], disk, i);
            ViewHeld(entries[..], disk, i);
            var failed: bool := *;
            failed := failed && !reliable;
            if failed {
              ok := false;
              lost := lost + {entries[i].lba};
            } else {
              disk := disk[entries[i].lba := entries[i].data];
            }
            SetEntry(i, entries[i].(dirty := false));
          }
        }
      } else {
        NothingToFlush(es0, disk0, flat);
      }
      FlushEnd(es0, disk0, flat, disk, lost);
      var failed: bool := *;
      failed := failed && !reliable;
      if failed {
        ok := false;
      }
      CleanIsFlat(entries[..], disk, writeThrough);
      ListSame(es0, entries[..], lruHead, lruTail, order);
      StillRecent(es0, entries[..], order, recent);
    }

    // -------------------------------------------------------------- runs

    /** The cached sectors are exactly those accessed last. */
    lemma CachedAreRecent(l: int)
      requires Valid() && !disturbed
      ensures (exists i :: Holds(entries[..], i, l)) <==> l in recent[..Least(CACHE_SECTORS, |recent|)]
    {
      var last := recent[..Least(CACHE_SECTORS, |recent|)];
      if i :| Holds(entries[..], i, l) {
        assert entries[..][i].valid;
        var k :| 0 <= k < |order| && order[k] == i;
        assert last[k] == l;
      }
      if k :| 0 <= k < |last| && last[k] == l {
        assert Holds(entries[..], order[k], l);
      }
    }

    /** One access of a run. */
    method Perform(op: Access, ghost trace: seq<int>) returns (ok: bool, answer: seq<Block>)
      requires Valid() && !disturbed && recent == RecentOf(trace) && InsideOne(op, |disk|)
      modifies entries, this
      ensures |disk| == |old(disk)|
      ensures ok ==> Valid() && !disturbed && Flat() == FlatStep(old(Flat()), op) && recent == RecentOf(trace + Sectors(op))
      ensures ok ==> answer == FlatAnswer(old(Flat()), op) && (op.FlushAll? ==> disk == Flat())
      ensures reliable ==> ok
    {
      hide ListOk, CacheOk, AllListed, View, Recency, RecentOf;
      match op {
      case ReadOf(lba, count) =>
        RangeTouched(trace, lba, count);
        ok, answer := ReadBlocks(lba, count);
      case WriteOf(lba, blocks) =>
        RangeTouched(trace, lba, |blocks|);
        answer := [];
        ok := WriteBlocks(lba, blocks);
        assert blocks[..|blocks|] == blocks;
      case FlushAll =>
        ghost var lost;
        ok, lost := Flush();
        answer := [];
        assert trace + [] == trace;
      }
    }

    /** A run of accesses without bypass: the user sees a flat device, and unless the device fails the cached
        sectors are at any time the 16 accessed last. */
    method Run(ops: seq<Access>) returns (ok: bool, answers: seq<seq<Block>>)
      requires Valid() && !disturbed && recent == [] && Inside(ops, |disk|)
      modifies entries, this
      ensures ok ==> Valid() && |disk| == |old(disk)| && Flat() == FlatAfter(old(Flat()), ops)
      ensures ok ==> answers == AnswersOf(old(Flat()), ops)
      ensures ok ==> forall l {:trigger l in LastOf(Trace(ops))} ::
        (exists i :: Holds(entries[..], i, l)) <==> l in LastOf(Trace(ops))
      ensures reliable ==> ok
    {
      hide ListOk, CacheOk, AllListed, View, Recency, FlatStep, FlatAnswer, Sectors, Inside, InsideOne, Trace;
      ok, answers := true, [];
      ghost var flat, n := Flat(), |disk|;
      NoAccess(flat, ops);
      for k := 0 to |ops|
        invariant Valid() && !disturbed && |disk| == n && recent == RecentOf(Trace(ops[..k]))
        invariant Inside(ops[..k], n) && Flat() == FlatAfter(flat, ops[..k]) && answers == AnswersOf(flat, ops[..k])
      {
        NextAccess(flat, ops, k);
        var answer;
        ok, answer := Perform(ops[k], Trace(ops[..k]));
        if !ok {
          return;
        }
        answers := answers + [answer];
      }
      assert ops[..|ops|] == ops;
      forall l
        ensures (exists i :: Holds(entries[..], i, l)) <==> l in LastOf(Trace(ops))
      {
        CachedAreRecent(l);
      }
    }
  }

  /** An entry from `i` on is dirty and holds sector `l`. */
  ghost predicate DirtyFrom(es: seq<Entry>, i: int, l: int) {
    exists j {:trigger es[j]} :: 0 <= i <= j < |es| && es[j].valid && es[j].dirty && es[j].lba == l
  }

  /** What a flush has done when it comes to entry `i`. */
  ghost predicate Flushing(es: seq<Entry>, disk0: seq<Block>, flat: seq<Block>, disk: seq<Block>, lost: set<int>, i: int) {
    && |disk| == |disk0| == |flat|
    && (forall l {:trigger disk[l]} :: 0 <= l < |disk| && l !in lost ==> disk[l] == flat[l] || DirtyFrom(es, i, l))
    && (forall l {:trigger disk[l]} :: 0 <= l < |disk| && DirtyFrom(es, i, l) ==> disk[l] == disk0[l])
    && (forall l {:trigger l in lost} :: l in lost ==>
          0 <= l < |disk| && disk[l] == disk0[l] && !DirtyFrom(es, i, l) && DirtyFrom(es, 0, l))
  }

  lemma FlushStart(es: seq<Entry>, disk: seq<Block>, writeThrough: bool)
    requires CacheOk(es, disk, writeThrough)
    ensures Flushing(es, disk, View(es, disk), disk, {}, 0)
  {
    forall l | 0 <= l < |disk|
      ensures disk[l] == View(es, disk)[l] || DirtyFrom(es, 0, l)
    {
      if i :| Holds(es, i, l) {
        ViewHeld(es, disk, i);
      } else {
        ViewFree(es, disk, l);
      }
    }
  }

  /** Entry `i` is passed over, written back, or lost. */
  lemma FlushNext(es: seq<Entry>, disk0: seq<Block>, flat: seq<Block>, disk: seq<Block>, lost: set<int>, i: int)
    requires Flushing(es, disk0, flat, disk, lost, i) && 0 <= i < |es| && HeldOnce(es, disk)
    ensures !(es[i].valid && es[i].dirty) ==> Flushing(es, disk0, flat, disk, lost, i + 1)
    ensures es[i].valid && es[i].dirty ==> 0 <= es[i].lba < |flat| && Flushing(es, disk0, flat, disk, lost + {es[i].lba}, i + 1)
    ensures es[i].valid && es[i].dirty && flat[es[i].lba] == es[i].data ==>
      Flushing(es, disk0, flat, disk[es[i].lba := es[i].data], lost, i + 1)
  {
    forall l
      ensures DirtyFrom(es, i, l) <==> DirtyFrom(es, i + 1, l) || (es[i].valid && es[i].dirty && es[i].lba == l)
      ensures es[i].valid && es[i].dirty && es[i].lba == l ==> !DirtyFrom(es, i + 1, l)
    {
      DirtyNext(es, i, l);
    }
    assert es[i].valid && es[i].dirty ==> DirtyFrom(es, i, es[i].lba) && DirtyFrom(es, 0, es[i].lba);
    hide DirtyFrom;
  }

  lemma DirtyNext(es: seq<Entry>, i: int, l: int)
    requires 0 <= i < |es|
    requires forall j, k {:trigger es[j], es[k]} :: 0 <= j < k < |es| && es[j].valid && es[k].valid ==> es[j].lba != es[k].lba
    ensures DirtyFrom(es, i, l) <==> DirtyFrom(es, i + 1, l) || (es[i].valid && es[i].dirty && es[i].lba == l)
    ensures es[i].valid && es[i].dirty && es[i].lba == l ==> !DirtyFrom(es, i + 1, l)
  {}

  lemma FlushEnd(es: seq<Entry>, disk0: seq<Block>, flat: seq<Block>, disk: seq<Block>, lost: set<int>)
    requires Flushing(es, disk0, flat, disk, lost, |es|)
    ensures forall l :: l in lost ==> DirtyFrom(es, 0, l)
    ensures forall l :: 0 <= l < |disk| ==> disk[l] == if l in lost then disk0[l] else flat[l]
  {}

  lemma NothingToFlush(es: seq<Entry>, disk: seq<Block>, flat: seq<Block>)
    requires Flushing(es, disk, flat, disk, {}, 0) && CacheOk(es, disk, true)
    ensures Flushing(es, disk, flat, disk, {}, |es|)
  {
    forall l
      ensures !DirtyFrom(es, 0, l) && !DirtyFrom(es, |es|, l)
    {}
  }

  /** Clean entries agree with the device exactly when the user sees the device. */
  lemma CleanIsFlat(es: seq<Entry>, disk: seq<Block>, writeThrough: bool)
    requires HeldOnce(es, disk) && forall i :: 0 <= i < |es| && es[i].valid ==> !es[i].dirty
    ensures CacheOk(es, disk, writeThrough) <==> View(es, disk) == disk
  {
    if CacheOk(es, disk, writeThrough) {
      AllClean(es, disk, writeThrough);
    }
    forall i | 0 <= i < |es| && es[i].valid
      ensures View(es, disk)[es[i].lba] == es[i].data
    {
      ViewHeld(es, disk, i);
    }
  }

  lemma SameRecency(es: seq<Entry>, es': seq<Entry>, order: seq<int>, recent: seq<int>)
    requires SameSectors(es, es')
    ensures Recency(es, order, recent) ==> Recency(es', order, recent)
  {}

  /** No other entry holds the missed sector either. */
  lemma Missing(es: seq<Entry>, es': seq<Entry>, e: int, l: int)
    requires |es'| == |es| && 0 <= e < |es| && !es'[e].valid && forall i :: 0 <= i < |es| && i != e ==> es'[i] == es[i]
    requires forall i :: 0 <= i < |es| ==> !Holds(es, i, l)
    ensures forall i :: 0 <= i < |es'| ==> !Holds(es', i, l)
  {
    forall i | 0 <= i < |es'|
      ensures !Holds(es', i, l)
    {
      assert !Holds(es, i, l);
    }
  }

  /** The bytes of an entry in no use do not matter. */
  lemma DataOnly(es: seq<Entry>, disk: seq<Block>, writeThrough: bool, e: int, data: Block)
    requires CacheOk(es, disk, writeThrough) && 0 <= e < |es| && !es[e].valid
    ensures var es' := es[e := es[e].(data := data)]; CacheOk(es', disk, writeThrough) && View(es', disk) == View(es, disk)
  {
    var es' := es[e := es[e].(data := data)];
    forall l | 0 <= l < |disk|
      ensures View(es', disk)[l] == View(es, disk)[l]
    {
      if i :| Holds(es, i, l) {
        assert Holds(es', i, l);
        ViewHeld(es, disk, i);
        ViewHeld(es', disk, i);
      } else {
        assert forall i :: Holds(es', i, l) ==> Holds(es, i, l);
      }
    }
  }

  ghost function TouchedAll(recent: seq<int>, lba: int, count: nat): seq<int> {
    if count == 0 then recent else Touched(TouchedAll(recent, lba, count - 1), lba + count - 1)
  }

  /** How many of the accesses to `count` sectors from `lba` on find their sector among the 16 accessed last. */
  ghost function Hits(recent: seq<int>, lba: int, count: nat): nat {
    if count == 0 then 0
    else
      var before := TouchedAll(recent, lba, count - 1);
      Hits(recent, lba, count - 1) +
      if lba + count - 1 in before[..Least(CACHE_SECTORS, |before|)] then 1 else 0
  }

  /** The flat device with `blocks` stored from `lba` on. */
  function Stored(flat: seq<Block>, lba: int, blocks: seq<Block>): (r: seq<Block>)
    requires 0 <= lba && lba + |blocks| <= |flat|
    ensures |r| == |flat|
  {
    flat[..lba] + blocks + flat[lba + |blocks|..]
  }

  lemma StoredSame(flat: seq<Block>, lba: int, blocks: seq<Block>)
    requires 0 <= lba && lba + |blocks| <= |flat|
    ensures Stored(flat, lba, blocks) == flat <==> flat[lba..lba + |blocks|] == blocks
  {
    assert Stored(flat, lba, blocks)[lba..lba + |blocks|] == blocks;
    assert flat == flat[..lba] + flat[lba..lba + |blocks|] + flat[lba + |blocks|..];
  }

  lemma StoredNext(flat: seq<Block>, lba: int, blocks: seq<Block>, i: int)
    requires 0 <= lba && lba + |blocks| <= |flat| && 0 <= i < |blocks|
    ensures Stored(flat, lba, blocks[..i])[lba + i := blocks[i]] == Stored(flat, lba, blocks[..i + 1])
  {}

  lemma OnlyHolder(es: seq<Entry>, disk: seq<Block>, writeThrough: bool, e: int, l: int)
    requires CacheOk(es, disk, writeThrough) && Holds(es, e, l)
    ensures forall j :: Holds(es, j, l) ==> j == e
  {
    forall j | Holds(es, j, l)
      ensures j == e
    {
      assert es[j].valid && es[e].valid;
    }
  }

  ghost predicate NoneDirty(es: seq<Entry>, lba: int, count: int) {
    forall i {:trigger es[i]} :: 0 <= i < |es| && es[i].valid && lba <= es[i].lba < lba + count ==> !es[i].dirty
  }

  /** Where nothing is dirty the user sees the device. */
  lemma CleanRange(es: seq<Entry>, disk: seq<Block>, writeThrough: bool, lba: int, count: nat)
    requires CacheOk(es, disk, writeThrough) && 0 <= lba && lba + count <= |disk|
    ensures NoneDirty(es, lba, count) ==> Stored(View(es, disk), lba, disk[lba..lba + count]) == View(es, disk)
  {
    if NoneDirty(es, lba, count) {
      forall l | lba <= l < lba + count
        ensures View(es, disk)[l] == disk[l]
      {
        if i :| Holds(es, i, l) {
          ViewHeld(es, disk, i);
        } else {
          ViewFree(es, disk, l);
        }
      }
    }
  }

  /** The device changes beneath the cache, where the cache holds nothing. */
  lemma StoredBelow(es: seq<Entry>, disk: seq<Block>, writeThrough: bool, lba: int, blocks: seq<Block>)
    requires CacheOk(es, disk, writeThrough) && 0 <= lba && lba + |blocks| <= |disk|
    requires forall l, i :: lba <= l < lba + |blocks| ==> !Holds(es, i, l)
    ensures var disk' := Stored(disk, lba, blocks);
      && CacheOk(es, disk', writeThrough)
      && View(es, disk') == Stored(View(es, disk), lba, blocks)
  {
    var disk' := Stored(disk, lba, blocks);
    assert forall i :: 0 <= i < |es| && es[i].valid ==> !(lba <= es[i].lba < lba + |blocks|) by {
      forall i | 0 <= i < |es| && es[i].valid
        ensures !(lba <= es[i].lba < lba + |blocks|)
      {
        assert Holds(es, i, es[i].lba);
      }
    }
    forall l | 0 <= l < |disk|
      ensures View(es, disk')[l] == if lba <= l < lba + |blocks| then blocks[l - lba] else View(es, disk)[l]
    {
      if i :| Holds(es, i, l) {
        ViewHeld(es, disk, i);
        ViewHeld(es, disk', i);
      } else {
        ViewFree(es, disk, l);
        ViewFree(es, disk', l);
      }
    }
  }

  lemma StoredTwice(flat: seq<Block>, lba: int, a: seq<Block>, b: seq<Block>)
    requires 0 <= lba && lba + |b| <= |flat| && |a| == |b|
    ensures Stored(Stored(flat, lba, a), lba, b) == Stored(flat, lba, b)
  {}

  lemma StillRecent(es: seq<Entry>, es': seq<Entry>, order: seq<int>, recent: seq<int>)
    requires |es'| == |es| && forall i :: 0 <= i < |es| ==> es'[i].valid == es[i].valid && es'[i].lba == es[i].lba
    ensures Recency(es, order, recent) ==> Recency(es', order, recent)
    ensures AllListed(es, order) ==> AllListed(es', order)
  {
    if AllListed(es, order) {
      forall i | 0 <= i < |es'| && es'[i].valid
        ensures i in order
      {
        assert es[i].valid;
      }
    }
  }

  datatype Access = ReadOf(lba: int, count: nat) | WriteOf(lba: int, blocks: seq<Block>) | FlushAll

  /** The accesses stay on the device. */
  ghost predicate InsideOne(op: Access, n: int) {
    match op
    case ReadOf(lba, count) => 0 <= lba && lba + count <= n
    case WriteOf(lba, blocks) => 0 <= lba && lba + |blocks| <= n
    case FlushAll => true
  }

  ghost predicate Inside(ops: seq<Access>, n: int) {
    forall k {:trigger ops[k]} :: 0 <= k < |ops| ==> InsideOne(ops[k], n)
  }

  /** What an access of the flat device returns. */
  ghost function FlatAnswer(flat: seq<Block>, op: Access): seq<Block>
    requires InsideOne(op, |flat|)
  {
    match op
    case ReadOf(lba, count) => flat[lba..lba + count]
    case WriteOf(_, _) => []
    case FlushAll => []
  }

  ghost function FlatStep(flat: seq<Block>, op: Access): (r: seq<Block>)
    requires InsideOne(op, |flat|)
    ensures |r| == |flat|
  {
    match op
    case ReadOf(_, _) => flat
    case WriteOf(lba, blocks) => Stored(flat, lba, blocks)
    case FlushAll => flat
  }

  /** What the writes make of a flat device. */
  ghost function FlatAfter(flat: seq<Block>, ops: seq<Access>): (r: seq<Block>)
    requires Inside(ops, |flat|)
    ensures |r| == |flat|
  {
    if ops == [] then flat else FlatStep(FlatAfter(flat, ops[..|ops| - 1]), ops[|ops| - 1])
  }

  /** What a run of accesses of the flat device returns. */
  ghost function AnswersOf(flat: seq<Block>, ops: seq<Access>): (r: seq<seq<Block>>)
    requires Inside(ops, |flat|)
    ensures |r| == |ops|
  {
    if ops == [] then []
    else AnswersOf(flat, ops[..|ops| - 1]) + [FlatAnswer(FlatAfter(flat, ops[..|ops| - 1]), ops[|ops| - 1])]
  }

  function Range(lba: int, count: nat): seq<int> { seq(count, i => lba + i) }

  ghost function Sectors(op: Access): seq<int> {
    match op
    case ReadOf(lba, count) => Range(lba, count)
    case WriteOf(lba, blocks) => Range(lba, |blocks|)
    case FlushAll => []
  }

  /** The sectors accessed, in order. */
  ghost function Trace(ops: seq<Access>): seq<int> {
    if ops == [] then [] else Trace(ops[..|ops| - 1]) + Sectors(ops[|ops| - 1])
  }

  lemma NoAccess(flat: seq<Block>, ops: seq<Access>)
    ensures Inside(ops[..0], |flat|) && FlatAfter(flat, ops[..0]) == flat && AnswersOf(flat, ops[..0]) == []
    ensures Trace(ops[..0]) == [] && RecentOf([]) == []
  {}

  lemma NextAccess(flat: seq<Block>, ops: seq<Access>, k: int)
    requires 0 <= k < |ops| && Inside(ops, |flat|)
    ensures Inside(ops[..k], |flat|) && Inside(ops[..k + 1], |flat|) && InsideOne(ops[k], |flat|)
    ensures Trace(ops[..k + 1]) == Trace(ops[..k]) + Sectors(ops[k])
    ensures FlatAfter(flat, ops[..k + 1]) == FlatStep(FlatAfter(flat, ops[..k]), ops[k])
    ensures AnswersOf(flat, ops[..k + 1]) == AnswersOf(flat, ops[..k]) + [FlatAnswer(FlatAfter(flat, ops[..k]), ops[k])]
  {
    var some := ops[..k + 1];
    assert some[..k] == ops[..k] && some[k] == ops[k];
    hide FlatStep, FlatAnswer, Sectors, InsideOne;
  }

  /** The distinct sectors of a trace, the latest first. */
  ghost function RecentOf(trace: seq<int>): seq<int> {
    if trace == [] then [] else Touched(RecentOf(trace[..|trace| - 1]), trace[|trace| - 1])
  }

  /** The 16 distinct sectors accessed last, or all when there are fewer. */
  ghost function LastOf(trace: seq<int>): seq<int> {
    RecentOf(trace)[..Least(CACHE_SECTORS, |RecentOf(trace)|)]
  }

  lemma {:induction false} RangeTouched(trace: seq<int>, lba: int, count: nat)
    ensures TouchedAll(RecentOf(trace), lba, count) == RecentOf(trace + Range(lba, count))
  {
    if count == 0 {
      assert trace + Range(lba, 0) == trace;
    } else {
      RangeTouched(trace, lba, count - 1);
      var t := trace + Range(lba, count);
      assert t[..|t| - 1] == trace + Range(lba, count - 1);
    }
  }

  /** No access to `l` after the `i`-th. */
  ghost predicate LastAt(trace: seq<int>, i: int, l: int) {
    0 <= i < |trace| && trace[i] == l && forall j :: i < j < |trace| ==> trace[j] != l
  }

  /** `RecentOf` lists each accessed sector once, in the reverse order of their last accesses. */
  lemma {:induction false} RecentMeaning(trace: seq<int>)
    ensures NoRepeats(RecentOf(trace)) && forall l :: l in RecentOf(trace) <==> l in trace
    ensures forall a, b, i, j {:trigger LastAt(trace, i, RecentOf(trace)[a]), LastAt(trace, j, RecentOf(trace)[b])} ::
      0 <= a < b < |RecentOf(trace)| && LastAt(trace, i, RecentOf(trace)[a]) && LastAt(trace, j, RecentOf(trace)[b]) ==> i > j
  {
    if trace != [] {
      var n := |trace| - 1;
      var before, l := trace[..n], trace[n];
      RecentMeaning(before);
      var r0, r := RecentOf(before), RecentOf(trace);
      assert trace == before + [l] && r == ToFront(r0, l) && r[0] == l;
      NoRepeatsToFront(r0, l);
      ToFrontMembers(r0, l);
      forall a, b, i, j | 0 <= a < b < |r| && LastAt(trace, i, r[a]) && LastAt(trace, j, r[b])
        ensures i > j
      {
        assert r[b] != l;
        assert j < n && LastAt(before, j, r[b]);
        if a == 0 {
          assert i == n;
        } else {
          assert r[a] != l && i < n && LastAt(before, i, r[a]);
          var a', b' := DropOrder(r0, l, a - 1, b - 1);
        }
      }
    }
  }

  /** Dropping a sector keeps the order of the others. */
  lemma DropOrder(order: seq<int>, e: int, a: int, b: int) returns (a': int, b': int)
    requires NoRepeats(order) && 0 <= a < b < |Drop(order, e)|
    ensures 0 <= a' < b' < |order| && order[a'] == Drop(order, e)[a] && order[b'] == Drop(order, e)[b]
  {
    if e in order {
      var k :| 0 <= k < |order| && order[k] == e;
      DropAt(order, k);
      a', b' := if a < k then a else a + 1, if b < k then b else b + 1;
    } else {
      DropNone(order, e);
      a', b' := a, b;
    }
  }
}
