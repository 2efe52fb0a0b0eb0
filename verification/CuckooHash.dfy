/** The cuckoo hash table, and the map that is kept in it.  Insertion evicts items until one finds a free
    slot, and doubles the table when that takes too long; whether this ends depends on the hash values, so
    the number of doublings is bounded here, by `fuel`. */
module CuckooHash {
  import opened BinIndex
  import opened BinMaps
  import opened Powers

  datatype Option<T> = None | Some(value: T)

  datatype Hashes = Hashes(h1: nat, h2: nat)

  const NOT_FOUND := -1

  /** A hash value masked to the size of the table. */
  function Masked(h: nat, n: nat): (p: nat)
    requires n > 0
    ensures p < n
  {
    h % n
  }

  /** The mask that the code applies. */
  lemma MaskedBits(h: nat, n: nat)
    requires h < WORD && n < WORD && PowerOfTwo(n)
    ensures MaskedRest(h, n) == Masked(h, n)
  {
    hide MaskedRest;
    Masks(h, n);
  }

  /** The slots of a table. */
  type Slots<T> = seq<Option<T>>

  class HashTable<T(==, !new)> {
    var v: Slots<T>
    var evictionDepth: nat
    const hash: T -> Hashes
    const same: (T, T) -> bool

    constructor (hf: T -> Hashes, cf: (T, T) -> bool, reserve: nat, depth: nat)
      requires PowerOfTwo(reserve) && Comparable(hf, cf)
      ensures Valid() && Items() == {} && |v| == reserve && evictionDepth == depth && hash == hf && same == cf
    {
      hash, same := hf, cf;
      evictionDepth := depth;
      v := seq(reserve, _ => None);
    }

    ghost predicate Valid()
      reads this
    {
      Comparable(hash, same) && TableOk(hash, same, v)
    }

    /** The items stored. */
    ghost function Items(): set<T>
      reads this
    {
      ItemsOf(v)
    }

    /** `Find`: a slot with an equal item, exactly when there is one. */
    method Find(arg: T) returns (pos: int)
      requires Valid()
      ensures if pos == NOT_FOUND then Absent(same, v, arg) else 0 <= pos < |v| && v[pos].Some? && same(v[pos].value, arg)
    {
      var n := |v|;
      var h1, h2 := Masked(hash(arg).h1, n), Masked(hash(arg).h2, n);
      if v[h1].Some? && same(v[h1].value, arg) {
        return h1;
      }
      if v[h2].Some? && same(v[h2].value, arg) {
        return h2;
      }
      pos := NOT_FOUND;
      forall p | 0 <= p < |v| && v[p].Some?
        ensures !same(v[p].value, arg)
      {
        assert AtSlot(hash, v, p);
      }
    }

    /** `Erase`; an empty slot stays empty. */
    method Erase(pos: int)
      requires Valid() && 0 <= pos < |v|
      modifies this`v
      ensures Valid() && v == old(v)[pos := None]
      ensures Items() == if old(v)[pos].Some? then old(Items()) - {old(v)[pos].value} else old(Items())
    {
      hide TableOk, ItemsOf, Comparable;
      if v[pos].Some? {
        Cleared(hash, same, v, pos);
      } else {
        assert v[pos := None] == v;
      }
      v := v[pos := None];
    }

    /** `Insert`: unless an equal item is stored, the items are those before and `item`, whatever was evicted
        and however often the table was doubled on the way.  The table is doubled exactly when the first walk of
        evictions finds no free slot.  After `fuel` doublings it gives up; then the items are those in the table and
        those in `rest`. */
    method Insert(item: T, fuel: nat) returns (ok: bool, pos: int, left: nat, ghost rest: set<T>)
      requires Valid()
      modifies this`v
      ensures Valid() && left <= fuel && |v| == Pow2(fuel - left) * |old(v)|
      ensures if ok then rest == {} else left == 0 && Absent(same, old(v), item)
      ensures if Absent(same, old(v), item) then Items() + rest == old(Items()) + {item}
              else v == old(v) && 0 <= pos < |v| && v[pos].Some? && same(v[pos].value, item)
      ensures Absent(same, old(v), item) && Settles(hash, old(v), item, evictionDepth) ==>
        ok && left == fuel && v == Walk(hash, old(v), item, Masked(hash(item).h1, |old(v)|), evictionDepth).0
      ensures ok && Absent(same, old(v), item) && !Settles(hash, old(v), item, evictionDepth) ==> left < fuel
      decreases fuel, 1
    {
      hide TableOk, ItemsOf, Comparable, Absent, Settles, Walk, Pow2, Masked;
      pos := Find(item);
      left, rest := fuel, {};
      Doublings(0, 0, |v|);
      if pos != NOT_FOUND {
        FoundIsPresent(same, v, pos, item);
        return true, pos, left, rest;
      }
      var hand := item;
      ghost var all := Items() + {item};
      while true
        invariant Valid() && Absent(same, v, hand) && Items() + {hand} == all && left <= fuel && rest == {}
        invariant |v| == Pow2(fuel - left) * |old(v)|
        invariant if left == fuel then v == old(v) && hand == item else !Settles(hash, old(v), item, evictionDepth)
        decreases left
      {
        var placed;
        placed, hand, pos := Evict(hand);
        if placed {
          return true, pos, left, rest;
        }
        if left == 0 {
          return false, NOT_FOUND, left, {hand};
        }
        ghost var before, was := v, left;
        ok, left, rest := Rehash(left - 1);
        Doublings(fuel - was, was - 1 - left, |old(v)|);
        if !ok {
          return false, NOT_FOUND, left, rest + {hand};
        }
        StillAbsent(same, before, v, hand);
      }
    }

    /** The eviction loop of `Insert`: the item in hand goes to a slot, or takes the place of another. */
    method Evict(item: T) returns (placed: bool, hand: T, pos: int)
      requires Valid() && Absent(same, v, item)
      modifies this`v
      ensures Valid() && |v| == |old(v)|
      ensures if placed then Items() == old(Items()) + {item}
              else Absent(same, v, hand) && Items() + {hand} == old(Items()) + {item}
      ensures placed ==> 0 <= pos < |v| && v[pos].Some?
      ensures placed == Settles(hash, old(v), item, evictionDepth)
      ensures v == Walk(hash, old(v), item, Masked(hash(item).h1, |old(v)|), evictionDepth).0
    {
      hand := item;
      pos := Masked(hash(hand).h1, |v|);
      for n := 0 to evictionDepth
        invariant Valid() && |v| == |old(v)| && Absent(same, v, hand) && Items() + {hand} == old(Items()) + {item}
        invariant pos == Masked(hash(hand).h1, |v|) || pos == Masked(hash(hand).h2, |v|)
        invariant Walk(hash, v, hand, pos, evictionDepth - n) ==
                  Walk(hash, old(v), item, Masked(hash(item).h1, |old(v)|), evictionDepth)
      {
        Exchanged(hash, same, v, pos, hand);
        if v[pos].None? {
          v := v[pos := Some(hand)];
          return true, hand, pos;
        }
        var evicted := v[pos].value;
        v := v[pos := Some(hand)];
        hand := evicted;
        var h1, h2 := Masked(hash(hand).h1, |v|), Masked(hash(hand).h2, |v|);
        pos := if pos == h1 then h2 else h1;
      }
      placed := false;
    }

    /** `Rehash`: a table of twice the size, or more, with the same items.  It gives up at an item that does not settle,
        after all of `fuel` was used. */
    method Rehash(fuel: nat) returns (ok: bool, left: nat, ghost rest: set<T>)
      requires Valid()
      modifies this`v
      ensures Valid() && left <= fuel && |v| == 2 * Pow2(fuel - left) * |old(v)|
      ensures Items() + rest == old(Items()) && if ok then rest == {} else left == 0
      ensures !ok ==> exists i, w {:trigger Settles(hash, w, old(v)[i].value, evictionDepth)} ::
        0 <= i < |old(v)| && old(v)[i].Some? && |w| >= 2 * |old(v)| && !Settles(hash, w, old(v)[i].value, evictionDepth)
      decreases fuel, 2
    {
      hide TableOk, ItemsOf, Comparable, Absent, Settles, Walk, Pow2, Masked;
      var prev := v;
      v := seq(2 * |prev|, _ => None);
      Doubled(hash, same, prev, v);
      NoItems(prev);
      left, rest := fuel, {};
      for i := 0 to |prev|
        invariant Valid() && left <= fuel && rest == {} && Items() == ItemsOf(prev[..i])
        invariant |v| == 2 * Pow2(fuel - left) * |prev|
      {
        ItemsNext(prev, i);
        if prev[i].Some? {
          NotYet(hash, same, prev, i, v);
          var pos;
          ghost var w, was := v, left;
          ok, pos, left, rest := Insert(prev[i].value, left);
          Grown(fuel - was, was - left, |prev|);
          if !ok {
            assert !Settles(hash, w, prev[i].value, evictionDepth);
            rest := rest + ItemsOf(prev[i + 1..]);
            ItemsSplit(prev, i + 1);
            return;
          }
        }
      }
      assert prev[..|prev|] == prev;
      ok := true;
    }
  }

  // ---------------------------------------------------------------- tables

  /** Equality of items is an equivalence, and equal items have equal hash values. */
  ghost predicate Comparable<T(!new)>(hash: T -> Hashes, same: (T, T) -> bool) {
    && (forall x :: same(x, x)) && (forall x, y :: same(x, y) ==> same(y, x) && hash(x) == hash(y))
    && (forall x, y, z :: same(x, y) && same(y, z) ==> same(x, z))
  }

  /** The item in slot `p` hashes to it. */
  ghost predicate AtSlot<T>(hash: T -> Hashes, v: Slots<T>, p: int)
    requires 0 <= p < |v| && v[p].Some?
  {
    p == Masked(hash(v[p].value).h1, |v|) || p == Masked(hash(v[p].value).h2, |v|)
  }

  /** Every item is in one of its two slots, and no two are equal. */
  ghost predicate TableOk<T>(hash: T -> Hashes, same: (T, T) -> bool, v: Slots<T>) {
    && PowerOfTwo(|v|)
    && (forall p {:trigger AtSlot(hash, v, p)} :: 0 <= p < |v| && v[p].Some? ==> AtSlot(hash, v, p))
    && (forall p, q {:trigger v[p], v[q]} :: 0 <= p < |v| && 0 <= q < |v| && p != q && v[p].Some? && v[q].Some? ==>
          !same(v[p].value, v[q].value))
  }

  ghost function ItemsOf<T>(v: Slots<T>): set<T> {
    set p | 0 <= p < |v| && v[p].Some? :: v[p].value
  }

  /** No stored item equals `x`. */
  ghost predicate Absent<T>(same: (T, T) -> bool, v: Slots<T>, x: T) {
    forall p {:trigger v[p]} :: 0 <= p < |v| && v[p].Some? ==> !same(v[p].value, x)
  }

  lemma FoundIsPresent<T>(same: (T, T) -> bool, v: Slots<T>, p: int, x: T)
    requires 0 <= p < |v| && v[p].Some? && same(v[p].value, x)
    ensures !Absent(same, v, x)
  {}

  /** The evictions that start with `hand` at slot `pos`, `n` of them at most: the table after them, and the item
      that is left in hand if no free slot was found. */
  function Walk<T>(hash: T -> Hashes, v: Slots<T>, hand: T, pos: nat, n: nat): (r: (Slots<T>, Option<T>))
    requires pos < |v|
    ensures |r.0| == |v|
    decreases n
  {
    if n == 0 then (v, Some(hand))
    else if v[pos].None? then (v[pos := Some(hand)], None)
    else
      Walk(hash, v[pos := Some(hand)], v[pos].value, Other(hash, |v|, v[pos].value, pos), n - 1)
  }

  /** Where the code sends an item that was in slot `p` */
  function Other<T>(hash: T -> Hashes, n: nat, x: T, p: nat): (q: nat)
    requires n > 0
    ensures q < n
  {
    var h1, h2 := Masked(hash(x).h1, n), Masked(hash(x).h2, n);
    if p == h1 then h2 else h1
  }

  /** The evictions that start with `item` find a free slot. */
  predicate Settles<T>(hash: T -> Hashes, v: Slots<T>, item: T, depth: nat) {
    |v| > 0 && Walk(hash, v, item, Masked(hash(item).h1, |v|), depth).1.None?
  }

  /** They do at once when the first slot of the item is free; */
  lemma FreeSlotSettles<T>(hash: T -> Hashes, v: Slots<T>, item: T, depth: nat)
    requires depth > 0 && |v| > 0 && v[Masked(hash(item).h1, |v|)].None?
    ensures Settles(hash, v, item, depth)
  {}

  /** and with more evictions allowed they still do, with the same outcome. */
  lemma {:induction false} DeeperWalk<T>(hash: T -> Hashes, v: Slots<T>, hand: T, pos: nat, n: nat, m: nat)
    requires pos < |v| && n <= m && Walk(hash, v, hand, pos, n).1.None?
    ensures Walk(hash, v, hand, pos, m) == Walk(hash, v, hand, pos, n)
    decreases n
  {
    if n > 0 && v[pos].Some? {
      DeeperWalk(hash, v[pos := Some(hand)], v[pos].value, Other(hash, |v|, v[pos].value, pos), n - 1, m - 1);
    }
  }

  /** Slot `q` is the other one of the two slots of an item in slot `p`. */
  predicate OtherSlot<T>(hash: T -> Hashes, n: nat, x: T, p: nat, q: nat)
    requires n > 0
  {
    || (p == Masked(hash(x).h1, n) && q == Masked(hash(x).h2, n))
    || (p == Masked(hash(x).h2, n) && q == Masked(hash(x).h1, n))
  }

  /** What is in slot `p` when the first `i` of `items` were put into `slots`: the last one put there, or what was there. */
  function Occupant<T>(v: Slots<T>, slots: seq<nat>, items: seq<T>, i: nat, p: nat): Option<T>
    requires i <= |slots| == |items| && p < |v|
  {
    if i == 0 then v[p] else if slots[i - 1] == p then Some(items[i - 1]) else Occupant(v, slots, items, i - 1, p)
  }

  /** Each item on a route goes to its slot, and what was in that goes to its own other slot. */
  ghost predicate Route<T>(hash: T -> Hashes, v: Slots<T>, item: T, pos: nat, slots: seq<nat>, items: seq<T>) {
    && |slots| == |items| && (forall i :: 0 <= i < |slots| ==> slots[i] < |v|)
    && (slots != [] ==> slots[0] == pos && items[0] == item)
    && forall i {:trigger slots[i]} :: 0 <= i < |slots| - 1 ==>
         Occupant(v, slots, items, i, slots[i]) == Some(items[i + 1]) && OtherSlot(hash, |v|, items[i + 1], slots[i], slots[i + 1])
  }

  /** A route that ends at a free slot */
  ghost predicate EndsFree<T>(hash: T -> Hashes, v: Slots<T>, item: T, pos: nat, slots: seq<nat>, items: seq<T>) {
    && Route(hash, v, item, pos, slots, items) && slots != []
    && Occupant(v, slots, items, |slots| - 1, slots[|slots| - 1]).None?
  }

  ghost predicate AllAtSlots<T>(hash: T -> Hashes, v: Slots<T>) {
    forall p {:trigger AtSlot(hash, v, p)} :: 0 <= p < |v| && v[p].Some? ==> AtSlot(hash, v, p)
  }

  lemma {:induction false} OccupantAfter<T>(v: Slots<T>, slots: seq<nat>, items: seq<T>, i: nat, p: nat)
    requires 0 < i <= |slots| == |items| && p < |v| && slots[0] < |v|
    ensures Occupant(v, slots, items, i, p) == Occupant(v[slots[0] := Some(items[0])], slots[1..], items[1..], i - 1, p)
  {
    if i > 1 {
      OccupantAfter(v, slots, items, i - 1, p);
    }
  }

  lemma HandPut<T>(hash: T -> Hashes, v: Slots<T>, hand: T, pos: nat)
    requires pos < |v| && AllAtSlots(hash, v) && OtherSlot(hash, |v|, hand, pos, Other(hash, |v|, hand, pos))
    ensures AllAtSlots(hash, v[pos := Some(hand)])
    ensures v[pos].Some? ==> var out := v[pos].value;
      OtherSlot(hash, |v|, out, pos, Other(hash, |v|, out, pos))
      && OtherSlot(hash, |v|, out, Other(hash, |v|, out, pos), Other(hash, |v|, out, Other(hash, |v|, out, pos)))
  {
    var w := v[pos := Some(hand)];
    forall p | 0 <= p < |w| && w[p].Some?
      ensures AtSlot(hash, w, p)
    {
      assert p != pos ==> AtSlot(hash, v, p);
    }
    assert v[pos].Some? ==> AtSlot(hash, v, pos);
  }

  /** What the evictions made of the table, and what is left in hand, is what the route says. */
  ghost predicate Ended<T>(hash: T -> Hashes, v: Slots<T>, hand: T, pos: nat, n: nat, slots: seq<nat>, items: seq<T>,
                           w: Slots<T>, left: Option<T>)
  {
    && Route(hash, v, hand, pos, slots, items) && |slots| <= n && |w| == |v|
    && (forall p: nat {:trigger w[p]} :: p < |v| ==> w[p] == Occupant(v, slots, items, |slots|, p))
    && if left.None? then EndsFree(hash, v, hand, pos, slots, items)
       else |slots| == n && left == if n == 0 then Some(hand) else Occupant(v, slots, items, n - 1, slots[n - 1])
  }

  lemma ShortWalk<T>(hash: T -> Hashes, v: Slots<T>, hand: T, pos: nat, n: nat)
    requires pos < |v|
    ensures n == 0 ==> Ended(hash, v, hand, pos, n, [], [], v, Some(hand))
    ensures n > 0 && v[pos].None? ==> Ended(hash, v, hand, pos, n, [pos], [hand], v[pos := Some(hand)], None)
  {
    assert Occupant(v, [pos], [hand], 0, pos) == v[pos];
    assert forall p: nat :: p < |v| ==> Occupant(v, [pos], [hand], 1, p) == if p == pos then Some(hand) else v[p];
  }

  lemma LongerWalk<T>(hash: T -> Hashes, v: Slots<T>, hand: T, pos: nat, n: nat, slots: seq<nat>, items: seq<T>, w: Slots<T>,
                      left: Option<T>, out: T, next: nat)
    requires n > 0 && pos < |v| && v[pos] == Some(out) && OtherSlot(hash, |v|, out, pos, next)
    requires Ended(hash, v[pos := Some(hand)], out, next, n - 1, slots, items, w, left)
    ensures Ended(hash, v, hand, pos, n, [pos] + slots, [hand] + items, w, left)
  {
    var slots', items' := [pos] + slots, [hand] + items;
    assert slots'[1..] == slots && items'[1..] == items;
    Prepended(hash, v, hand, pos, slots', items', out, next);
    hide Route, OtherSlot;
    if n > 1 || slots == [] {
      assert Occupant(v, slots', items', 0, pos) == v[pos];
    }
  }

  /** The walk is a route: to a free slot, or as long as it may be. */
  lemma {:induction false} WalkIsRoute<T>(hash: T -> Hashes, v: Slots<T>, hand: T, pos: nat, n: nat)
    returns (slots: seq<nat>, items: seq<T>)
    requires pos < |v| && AllAtSlots(hash, v) && OtherSlot(hash, |v|, hand, pos, Other(hash, |v|, hand, pos))
    ensures Ended(hash, v, hand, pos, n, slots, items, Walk(hash, v, hand, pos, n).0, Walk(hash, v, hand, pos, n).1)
    decreases n
  {
    hide Ended, AllAtSlots, OtherSlot, Other;
    ShortWalk(hash, v, hand, pos, n);
    if n == 0 {
      slots, items := [], [];
    } else if v[pos].None? {
      slots, items := [pos], [hand];
    } else {
      var out := v[pos].value;
      var next := Other(hash, |v|, out, pos);
      HandPut(hash, v, hand, pos);
      slots, items := WalkIsRoute(hash, v[pos := Some(hand)], out, next, n - 1);
      var (w, left) := Walk(hash, v, hand, pos, n);
      LongerWalk(hash, v, hand, pos, n, slots, items, w, left, out, next);
      slots, items := [pos] + slots, [hand] + items;
    }
  }

  /** A route that ends at a free slot is the walk's. */
  lemma {:induction false} RouteIsWalk<T>(hash: T -> Hashes, v: Slots<T>, hand: T, pos: nat, n: nat, slots: seq<nat>, items: seq<T>)
    requires pos < |v| && AllAtSlots(hash, v) && OtherSlot(hash, |v|, hand, pos, Other(hash, |v|, hand, pos))
    requires EndsFree(hash, v, hand, pos, slots, items) && |slots| <= n
    ensures Walk(hash, v, hand, pos, n).1.None?
    decreases n
  {
    hide EndsFree, AllAtSlots, OtherSlot, Other;
    NotEmpty(hash, v, hand, pos, slots, items);
    if v[pos].Some? {
      var out := v[pos].value;
      var next := Other(hash, |v|, out, pos);
      HandPut(hash, v, hand, pos);
      TailEndsFree(hash, v, hand, pos, slots, items, out, next);
      RouteIsWalk(hash, v[pos := Some(hand)], out, next, n - 1, slots[1..], items[1..]);
    }
  }

  lemma NotEmpty<T>(hash: T -> Hashes, v: Slots<T>, hand: T, pos: nat, slots: seq<nat>, items: seq<T>)
    requires EndsFree(hash, v, hand, pos, slots, items)
    ensures |slots| == |items| > 0
  {}

  lemma TailEndsFree<T>(hash: T -> Hashes, v: Slots<T>, hand: T, pos: nat, slots: seq<nat>, items: seq<T>, out: T, next: nat)
    requires EndsFree(hash, v, hand, pos, slots, items) && pos < |v| && v[pos] == Some(out)
    requires OtherSlot(hash, |v|, out, pos, next)
    ensures |slots| == |items| > 1 && EndsFree(hash, v[pos := Some(hand)], out, next, slots[1..], items[1..])
  {
    assert Occupant(v, slots, items, 0, slots[0]) == v[pos];
    OneOther(hash, |v|, out, pos, slots[1], next);
    Prepended(hash, v, hand, pos, slots, items, out, next);
    hide Route, OtherSlot, Occupant;
  }

  lemma OneOther<T>(hash: T -> Hashes, n: nat, x: T, p: nat, q: nat, r: nat)
    requires n > 0 && OtherSlot(hash, n, x, p, q) && OtherSlot(hash, n, x, p, r)
    ensures q == r
  {}

  /** The evictions find a free slot exactly when the route from the first slot of the item, on which every item that
      has to leave goes to its other slot, meets one soon enough. */
  lemma SettlesByRoute<T>(hash: T -> Hashes, same: (T, T) -> bool, v: Slots<T>, item: T, depth: nat)
    requires TableOk(hash, same, v) && |v| > 0
    ensures Settles(hash, v, item, depth) <==>
      exists slots, items {:trigger EndsFree(hash, v, item, Masked(hash(item).h1, |v|), slots, items)} ::
        |slots| <= depth && EndsFree(hash, v, item, Masked(hash(item).h1, |v|), slots, items)
  {
    var pos := Masked(hash(item).h1, |v|);
    var slots, items := WalkIsRoute(hash, v, item, pos, depth);
    hide EndsFree, Masked, Walk;
    forall slots, items | |slots| <= depth && EndsFree(hash, v, item, pos, slots, items)
      ensures Settles(hash, v, item, depth)
    {
      RouteIsWalk(hash, v, item, pos, depth, slots, items);
    }
  }

  /** An item whose first slot is taken by one that can move is placed with one eviction. */
  lemma OneEviction<T>(hash: T -> Hashes, v: Slots<T>, item: T, y: T, p: nat, q: nat)
    requires |v| > 0 && p == Masked(hash(item).h1, |v|) && v[p] == Some(y) && OtherSlot(hash, |v|, y, p, q) && v[q].None?
    ensures Settles(hash, v, item, 2) && Walk(hash, v, item, p, 2).0 == v[p := Some(item)][q := Some(y)]
  {}

  /** A route goes on behind its first step. */
  lemma Prepended<T>(hash: T -> Hashes, v: Slots<T>, hand: T, pos: nat, slots: seq<nat>, items: seq<T>, out: T, next: nat)
    requires |slots| == |items| > 0 && slots[0] == pos < |v| && items[0] == hand && v[pos] == Some(out)
    requires OtherSlot(hash, |v|, out, pos, next)
    requires |slots| > 1 ==> slots[1] == next && items[1] == out
    ensures Route(hash, v, hand, pos, slots, items) <==> Route(hash, v[pos := Some(hand)], out, next, slots[1..], items[1..])
    ensures forall i: nat, p: nat :: 0 < i <= |slots| && p < |v| ==>
      Occupant(v, slots, items, i, p) == Occupant(v[pos := Some(hand)], slots[1..], items[1..], i - 1, p)
  {
    forall i: nat, p: nat | 0 < i <= |slots| && p < |v|
      ensures Occupant(v, slots, items, i, p) == Occupant(v[pos := Some(hand)], slots[1..], items[1..], i - 1, p)
    {
      OccupantAfter(v, slots, items, i, p);
    }
    assert forall i :: 0 <= i < |slots| - 1 ==> slots[1..][i] == slots[i + 1] && items[1..][i] == items[i + 1];
  }

  lemma {:induction false} PowersAdd(a: nat, b: nat)
    ensures Pow2(a + b) == Pow2(a) * Pow2(b)
    decreases b
  {
    if b > 0 {
      PowersAdd(a, b - 1);
      Regroup(Pow2(a), Pow2(b - 1));
    }
  }

  lemma Regroup(x: int, y: int)
    ensures x * (2 * y) == 2 * (x * y)
  {}

  /** `a` doublings, one more, and `b` more. */
  lemma Doublings(a: nat, b: nat, n: nat)
    ensures Pow2(0) * n == n && Pow2(a + 1 + b) * n == 2 * Pow2(b) * (Pow2(a) * n)
  {
    PowersAdd(a, b);
    var x, y := Pow2(a), Pow2(b);
    assert Pow2(a + 1 + b) == 2 * Pow2(a + b);
    Products(x, y, n);
  }

  lemma Products(x: int, y: int, n: int)
    ensures 2 * (x * y) * n == 2 * y * (x * n)
  {
    assert x * y * n == y * (x * n);
  }

  lemma Grown(a: nat, b: nat, n: nat)
    ensures Pow2(b) * (2 * Pow2(a) * n) == 2 * Pow2(a + b) * n && 2 * Pow2(a) * n >= 2 * n
  {
    PowersAdd(a, b);
    Products(Pow2(a), Pow2(b), n);
    assert Pow2(b) * (2 * Pow2(a) * n) == 2 * Pow2(b) * (Pow2(a) * n);
  }

  lemma ItemsSplit<T>(v: Slots<T>, i: int)
    requires 0 <= i <= |v|
    ensures ItemsOf(v) == ItemsOf(v[..i]) + ItemsOf(v[i..])
  {
    forall x | x in ItemsOf(v)
      ensures x in ItemsOf(v[..i]) || x in ItemsOf(v[i..])
    {
      var p :| 0 <= p < |v| && v[p].Some? && v[p].value == x;
      assert if p < i then v[..i][p].value == x else v[i..][p - i].value == x;
    }
    forall x | x in ItemsOf(v[i..])
      ensures x in ItemsOf(v)
    {
      var p :| 0 <= p < |v[i..]| && v[i..][p].Some? && v[i..][p].value == x;
      assert v[p + i].value == x;
    }
    forall x | x in ItemsOf(v[..i])
      ensures x in ItemsOf(v)
    {
      var p :| 0 <= p < i && v[..i][p].Some? && v[..i][p].value == x;
      assert v[p].value == x;
    }
  }

  /** The empty table of twice the size. */
  lemma Doubled<T>(hash: T -> Hashes, same: (T, T) -> bool, v: Slots<T>, w: Slots<T>)
    requires TableOk(hash, same, v) && w == seq(2 * |v|, _ => None)
    ensures TableOk(hash, same, w) && ItemsOf(w) == {} && |w| == 2 * Pow2(0) * |v| && |v| > 0
  {}

  lemma Cleared<T(!new)>(hash: T -> Hashes, same: (T, T) -> bool, v: Slots<T>, pos: int)
    requires Comparable(hash, same) && TableOk(hash, same, v) && 0 <= pos < |v| && v[pos].Some?
    ensures TableOk(hash, same, v[pos := None]) && ItemsOf(v[pos := None]) == ItemsOf(v) - {v[pos].value}
  {
    var v' := v[pos := None];
    forall p | 0 <= p < |v'| && v'[p].Some?
      ensures AtSlot(hash, v', p)
    {
      assert AtSlot(hash, v, p);
    }
    forall p | 0 <= p < |v| && v[p].Some? && p != pos
      ensures v[p].value != v[pos].value
    {
      assert same(v[pos].value, v[pos].value);
    }
    forall x | x in ItemsOf(v) && x != v[pos].value
      ensures x in ItemsOf(v')
    {
      var p :| 0 <= p < |v| && v[p].Some? && v[p].value == x;
      assert v'[p].value == x;
    }
    forall x | x in ItemsOf(v')
      ensures x in ItemsOf(v) && x != v[pos].value
    {
      var p :| 0 <= p < |v'| && v'[p].Some? && v'[p].value == x;
      assert v[p].value == x;
    }
  }

  /** One round of the eviction loop: the item in hand takes slot `pos`, and what was there is in hand. */
  lemma Exchanged<T(!new)>(hash: T -> Hashes, same: (T, T) -> bool, v: Slots<T>, pos: int, hand: T)
    requires Comparable(hash, same) && TableOk(hash, same, v) && Absent(same, v, hand) && 0 <= pos < |v|
    requires pos == Masked(hash(hand).h1, |v|) || pos == Masked(hash(hand).h2, |v|)
    ensures var v' := v[pos := Some(hand)];
      && TableOk(hash, same, v')
      && (v[pos].None? ==> ItemsOf(v') == ItemsOf(v) + {hand})
      && (v[pos].Some? ==>
            && Absent(same, v', v[pos].value) && ItemsOf(v') + {v[pos].value} == ItemsOf(v) + {hand}
            && (pos == Masked(hash(v[pos].value).h1, |v|) || pos == Masked(hash(v[pos].value).h2, |v|)))
  {
    var v' := v[pos := Some(hand)];
    forall p | 0 <= p < |v'| && v'[p].Some?
      ensures AtSlot(hash, v', p)
    {
      assert p != pos ==> AtSlot(hash, v, p);
    }
    SlotsReplaced(v, pos, hand);
    if v[pos].Some? {
      assert AtSlot(hash, v, pos);
    }
  }

  lemma SlotsReplaced<T>(v: Slots<T>, pos: int, hand: T)
    requires 0 <= pos < |v|
    ensures var v' := v[pos := Some(hand)];
      && (v[pos].None? ==> ItemsOf(v') == ItemsOf(v) + {hand})
      && (v[pos].Some? ==> ItemsOf(v') + {v[pos].value} == ItemsOf(v) + {hand})
  {
    var v' := v[pos := Some(hand)];
    assert v'[pos].value == hand;
    forall x | x in ItemsOf(v)
      ensures x in ItemsOf(v') || (v[pos].Some? && x == v[pos].value)
    {
      var p :| 0 <= p < |v| && v[p].Some? && v[p].value == x;
      assert p != pos ==> v'[p].value == x;
    }
    forall x | x in ItemsOf(v')
      ensures x in ItemsOf(v) || x == hand
    {
      var p :| 0 <= p < |v'| && v'[p].Some? && v'[p].value == x;
      assert p != pos ==> v[p].value == x;
    }
  }

  lemma StillAbsent<T>(same: (T, T) -> bool, v: Slots<T>, v': Slots<T>, x: T)
    requires Absent(same, v, x) && ItemsOf(v') == ItemsOf(v)
    ensures Absent(same, v', x)
  {
    forall p | 0 <= p < |v'| && v'[p].Some?
      ensures !same(v'[p].value, x)
    {
      assert v'[p].value in ItemsOf(v);
      var q :| 0 <= q < |v| && v[q].Some? && v[q].value == v'[p].value;
    }
  }

  lemma NoItems<T>(v: Slots<T>)
    ensures ItemsOf(v[..0]) == {}
  {}

  lemma ItemsNext<T>(prev: Slots<T>, i: int)
    requires 0 <= i < |prev|
    ensures ItemsOf(prev[..i + 1]) == ItemsOf(prev[..i]) + if prev[i].Some? then {prev[i].value} else {}
  {
    var a, b := prev[..i], prev[..i + 1];
    forall x | x in ItemsOf(b)
      ensures x in ItemsOf(a) || (prev[i].Some? && x == prev[i].value)
    {
      var p :| 0 <= p < |b| && b[p].Some? && b[p].value == x;
      assert p < i ==> a[p].value == x;
    }
    forall x | x in ItemsOf(a)
      ensures x in ItemsOf(b)
    {
      var p :| 0 <= p < |a| && a[p].Some? && a[p].value == x;
      assert b[p].value == x;
    }
    assert prev[i].Some? ==> b[i].value == prev[i].value;
  }

  /** The items of the old table that were reinserted do not equal the next one. */
  lemma NotYet<T>(hash: T -> Hashes, same: (T, T) -> bool, prev: Slots<T>, i: int, v: Slots<T>)
    requires TableOk(hash, same, prev) && 0 <= i < |prev| && prev[i].Some? && ItemsOf(v) == ItemsOf(prev[..i])
    ensures Absent(same, v, prev[i].value)
  {
    forall p | 0 <= p < |v| && v[p].Some?
      ensures !same(v[p].value, prev[i].value)
    {
      assert v[p].value in ItemsOf(prev[..i]);
      var q :| 0 <= q < |prev[..i]| && prev[..i][q].Some? && prev[..i][q].value == v[p].value;
      assert prev[q].value == v[p].value;
    }
  }

  /** Three different items with the same pair of hash values fit into no table, however large: inserting the
      third one evicts and doubles without end. */
  lemma ThreeCollide<T(!new)>(hash: T -> Hashes, same: (T, T) -> bool, v: Slots<T>, x: T, y: T, z: T)
    requires Comparable(hash, same) && TableOk(hash, same, v)
    requires hash(x) == hash(y) == hash(z) && x != y && y != z && x != z
    ensures !(x in ItemsOf(v) && y in ItemsOf(v) && z in ItemsOf(v))
  {
    if x in ItemsOf(v) && y in ItemsOf(v) && z in ItemsOf(v) {
      var p := SlotOf(hash, same, v, x);
      var q := SlotOf(hash, same, v, y);
      var r := SlotOf(hash, same, v, z);
    }
  }

  lemma SlotOf<T>(hash: T -> Hashes, same: (T, T) -> bool, v: Slots<T>, x: T) returns (p: int)
    requires TableOk(hash, same, v) && x in ItemsOf(v)
    ensures 0 <= p < |v| && v[p].Some? && v[p].value == x
    ensures p == Masked(hash(x).h1, |v|) || p == Masked(hash(x).h2, |v|)
  {
    p :| 0 <= p < |v| && v[p].Some? && v[p].value == x;
    assert AtSlot(hash, v, p);
  }

  // ---------------------------------------------------------------- the map

  datatype KV<K, V> = KV(key: K, value: V)

  /** The items are the entries of the map. */
  ghost predicate Represents<K, V>(items: set<KV<K, V>>, m: map<K, V>) {
    && (forall x {:trigger x in items} :: x in items ==> x.key in m && m[x.key] == x.value)
    && (forall k {:trigger m[k]} :: k in m ==> KV(k, m[k]) in items)
  }

  /** Entries are hashed and compared by their keys. */
  lemma KeysComparable<K(!new), V(!new)>(keyHash: K -> Hashes)
    ensures Comparable((x: KV<K, V>) => keyHash(x.key), (x: KV<K, V>, y: KV<K, V>) => x.key == y.key)
  {}

  class HashMap<K(==, !new), V(==, !new)> {
    const table: HashTable<KV<K, V>>
    const blank: V

    /** The map that the table stands for. */
    ghost var contents: map<K, V>

    ghost predicate ByKey()
      reads this
    {
      forall x, y {:trigger table.same(x, y)} :: table.same(x, y) <==> x.key == y.key
    }

    ghost predicate Valid()
      reads this, table
    {
      table.Valid() && ByKey() && Represents(table.Items(), contents)
    }

    constructor (keyHash: K -> Hashes, reserve: nat, depth: nat, default: V)
      requires PowerOfTwo(reserve)
      ensures Valid() && contents == map[] && fresh(table)
    {
      KeysComparable<K, V>(keyHash);
      table := new HashTable((x: KV<K, V>) => keyHash(x.key), (x: KV<K, V>, y: KV<K, V>) => x.key == y.key, reserve, depth);
      blank := default;
      contents := map[];
    }

    /** `Lookup` */
    method Lookup(key: K) returns (pos: int)
      requires Valid()
      ensures pos == NOT_FOUND <==> key !in contents
      ensures pos != NOT_FOUND ==>
        0 <= pos < |table.v| && table.v[pos].Some? && table.v[pos].value == KV(key, contents[key])
    {
      var dummy := KV(key, blank);
      pos := table.Find(dummy);
      if pos != NOT_FOUND {
        assert table.v[pos].value in table.Items();
        assert table.same(table.v[pos].value, dummy);
      } else {
        AbsentKey(table.same, table.v, contents, key, dummy);
      }
    }

    /** `Find` */
    method Find(key: K) returns (found: bool, value: V)
      requires Valid()
      ensures found <==> key in contents
      ensures found ==> value == contents[key]
    {
      var pos := Lookup(key);
      if pos == NOT_FOUND {
        return false, blank;
      }
      return true, table.v[pos].value.value;
    }

    /** `Erase` */
    method Erase(key: K) returns (erased: bool)
      requires Valid()
      modifies this`contents, table`v
      ensures Valid() && contents == old(contents) - {key} && (erased <==> key in old(contents))
    {
      var pos := Lookup(key);
      if pos == NOT_FOUND {
        return false;
      }
      table.Erase(pos);
      contents := contents - {key};
      erased := true;
    }

    /** `Insert`: adds the key, or changes its value in place. */
    method Insert(key: K, value: V, fuel: nat) returns (ok: bool, added: bool, left: nat, ghost rest: set<KV<K, V>>)
      requires Valid()
      modifies this`contents, table`v
      ensures ok ==> Valid() && contents == old(contents)[key := value] && (added <==> key !in old(contents))
      ensures left <= fuel && table.Valid() && |table.v| == Pow2(fuel - left) * |old(table.v)|
      ensures !ok ==>
        key !in old(contents) && !Settles(table.hash, old(table.v), KV(key, value), table.evictionDepth) && left == 0
      ensures !ok ==> table.Items() + rest == old(table.Items()) + {KV(key, value)}
    {
      var pos := Lookup(key);
      if pos == NOT_FOUND {
        AbsentItem(table.same, table.v, contents, KV(key, value));
        ok, pos, left, rest := table.Insert(KV(key, value), fuel);
        added := true;
        contents := contents[key := value];
      } else {
        ghost var before := table.v;
        table.v := table.v[pos := Some(KV(key, value))];
        ValueChanged(table.hash, table.same, before, pos, KV(key, value));
        contents := contents[key := value];
        ok, added, left, rest := true, false, fuel, {};
        Doublings(0, 0, |before|);
      }
    }
  }

  lemma AbsentKey<K, V>(same: (KV<K, V>, KV<K, V>) -> bool, v: Slots<KV<K, V>>, m: map<K, V>, key: K, dummy: KV<K, V>)
    requires Absent(same, v, dummy) && dummy.key == key && Represents(ItemsOf(v), m)
    requires forall x, y {:trigger same(x, y)} :: same(x, y) <==> x.key == y.key
    ensures key !in m
  {
    forall x | x in ItemsOf(v)
      ensures x.key != key
    {
      var p :| 0 <= p < |v| && v[p].Some? && v[p].value == x;
      assert !same(v[p].value, dummy);
    }
  }

  lemma AbsentItem<K, V>(same: (KV<K, V>, KV<K, V>) -> bool, v: Slots<KV<K, V>>, m: map<K, V>, item: KV<K, V>)
    requires Represents(ItemsOf(v), m) && item.key !in m
    requires forall x, y {:trigger same(x, y)} :: same(x, y) <==> x.key == y.key
    ensures Absent(same, v, item)
  {
    forall p | 0 <= p < |v| && v[p].Some?
      ensures !same(v[p].value, item)
    {
      assert v[p].value in ItemsOf(v);
    }
  }

  /** An entry's value changes in place: it keeps its slot, and takes the place of the old entry. */
  lemma ValueChanged<K, V>(hash: KV<K, V> -> Hashes, same: (KV<K, V>, KV<K, V>) -> bool, v: Slots<KV<K, V>>, pos: int,
                           item: KV<K, V>)
    requires TableOk(hash, same, v) && 0 <= pos < |v| && v[pos].Some? && v[pos].value.key == item.key
    requires hash(v[pos].value) == hash(item)
    requires forall x, y {:trigger same(x, y)} :: same(x, y) <==> x.key == y.key
    ensures TableOk(hash, same, v[pos := Some(item)])
    ensures ItemsOf(v[pos := Some(item)]) == ItemsOf(v) - {v[pos].value} + {item}
  {
    var v' := v[pos := Some(item)];
    forall p | 0 <= p < |v'| && v'[p].Some?
      ensures AtSlot(hash, v', p)
    {
      assert AtSlot(hash, v, p);
    }
    forall p, q | 0 <= p < |v| && 0 <= q < |v| && p != q && v'[p].Some? && v'[q].Some?
      ensures !same(v'[p].value, v'[q].value)
    {
      assert !same(v[p].value, v[q].value);
    }
    var was := v[pos].value;
    forall x | x in ItemsOf(v) && x != was
      ensures x in ItemsOf(v')
    {
      var p :| 0 <= p < |v| && v[p].Some? && v[p].value == x;
      assert v'[p].value == x;
    }
    forall x | x in ItemsOf(v') && x != item
      ensures x in ItemsOf(v) && x != was
    {
      var p :| 0 <= p < |v'| && v'[p].Some? && v'[p].value == x;
      assert p != pos && !same(v[p].value, v[pos].value);
    }
    assert v'[pos].value in ItemsOf(v');
  }
}
