/** The fixed-block pool of common/pool/usb_pool.c: free items form a list threaded through the
    memory they manage. Addresses are numbers; 0 is the null pointer. */
module Pool {
  const EFAULT := 514

  /** The size of a pointer, which a free item holds, and of the address space. */
  const WORD: nat := 4
  const SPACE: nat := 0x1_0000_0000

  // ---- carving ----

  /** The address of item `k`. */
  function Item(first: nat, size: nat, k: nat): (r: nat) { first + k * size }

  /** The smallest multiple of the pointer size that holds `n` bytes, at least one pointer. */
  function Rounded(n: nat): (r: nat)
    ensures r >= n && r >= WORD && r % WORD == 0
    ensures forall m: nat | m >= n && m >= WORD && m % WORD == 0 :: r <= m
  {
    if n <= WORD then WORD else (n + WORD - 1) / WORD * WORD
  }

  /** The bytes skipped to reach an aligned address. */
  function Skip(mem: nat): (c: nat)
    ensures c < WORD && (mem + c) % WORD == 0
  {
    if mem % WORD == 0 then 0 else WORD - mem % WORD
  }

  /** How many items of `size` bytes a stretch of `room` bytes holds. */
  predicate Fills(room: nat, size: nat, n: nat) { n * size <= room < (n + 1) * size }

  lemma ItemNext(first: nat, size: nat, k: nat)
    ensures Item(first, size, k + 1) == Item(first, size, k) + size
  {
  }

  lemma SumMod(x: nat, y: nat)
    requires x % WORD == 0 && y % WORD == 0
    ensures (x + y) % WORD == 0
  {
  }

  lemma {:induction false} ItemMod(first: nat, size: nat, k: nat)
    requires first % WORD == 0 && size % WORD == 0
    ensures Item(first, size, k) % WORD == 0
  {
    if k == 0 {
      assert Item(first, size, 0) == first;
    } else {
      hide Item;
      ItemMod(first, size, k - 1);
      ItemNext(first, size, k - 1);
      SumMod(Item(first, size, k - 1), size);
    }
  }

  lemma {:induction false} ItemsApart(first: nat, size: nat, i: nat, j: nat)
    requires i < j
    ensures Item(first, size, i) + size <= Item(first, size, j)
  {
    ItemNext(first, size, j - 1);
    if i < j - 1 { ItemsApart(first, size, i, j - 1); }
  }

  /** A multiple of the pointer size just large enough is the rounded size. */
  lemma RoundedIs(n: nat, r: nat, k: nat)
    requires r == k * WORD && k >= 1 && r >= n && (r == WORD || r - WORD < n)
    ensures r == Rounded(n)
  {
  }

  /** Sizes and places with a pointer of four bytes: the start goes up to the next multiple of four,
      the item size to the next multiple that is not zero, and what is left over is less than an
      item. */
  lemma Sizes(mem: nat, n: nat, room: nat, size: nat, k: nat)
    ensures Skip(mem) < 4 && (mem + Skip(mem)) % 4 == 0
    ensures Rounded(n) % 4 == 0 && Rounded(n) >= 4 && Rounded(n) >= n && (Rounded(n) == 4 || Rounded(n) - 4 < n)
    ensures Fills(room, size, k) <==> k * size <= room && room - k * size < size
  {
    assert (k + 1) * size == k * size + size;
  }

  /** The carved items are aligned, inside the memory given, and pairwise disjoint. */
  lemma Carved(mem: nat, room: nat, size: nat, n: nat, i: nat, j: nat)
    requires size % WORD == 0 && Fills(room, size, n) && i < j < n
    ensures var first := mem + Skip(mem);
      && Item(first, size, i) % WORD == 0 && mem <= Item(first, size, i)
      && Item(first, size, i) + size <= Item(first, size, j)
      && Item(first, size, j) + size <= first + room
  {
    var first := mem + Skip(mem);
    ItemMod(first, size, i);
    ItemsApart(first, size, i, j);
    ItemsApart(first, size, j, n);
  }

  // ---- the free list ----

  function First(s: seq<nat>): (r: nat) { if s == [] then 0 else s[0] }

  function After(s: seq<nat>, i: nat): (r: nat) { if i + 1 < |s| then s[i + 1] else 0 }

  /** The words at the free items link them in the order of `s`, the last one to null. */
  ghost predicate Threaded(links: map<nat, nat>, s: seq<nat>) {
    && (forall i, j | 0 <= i < j < |s| :: s[i] != s[j])
    && forall i | 0 <= i < |s| :: s[i] != 0 && s[i] in links && links[s[i]] == After(s, i)
  }

  lemma Listed(links: map<nat, nat>, s: seq<nat>)
    requires Threaded(links, s)
    ensures First(s) == 0 <==> s == []
    ensures s != [] ==> s[0] in links
  {
  }

  lemma ThreadedTail(links: map<nat, nat>, s: seq<nat>)
    requires Threaded(links, s) && s != []
    ensures Threaded(links, s[1..]) && First(s[1..]) == links[s[0]] && s[0] !in s[1..]
  {
    var t := s[1..];
    forall i | 0 <= i < |t| ensures t[i] != 0 && t[i] in links && links[t[i]] == After(t, i) {
      assert t[i] == s[i + 1] && After(t, i) == After(s, i + 1);
    }
    assert links[s[0]] == After(s, 0);
  }

  lemma ThreadedPush(links: map<nat, nat>, s: seq<nat>, a: nat)
    requires Threaded(links, s) && a != 0 && a !in s
    ensures Threaded(links[a := First(s)], [a] + s)
  {
  }

  lemma ThreadedOther(links: map<nat, nat>, s: seq<nat>, a: nat, v: nat)
    requires Threaded(links, s) && a !in s
    ensures Threaded(links[a := v], s)
  {
  }

  ghost predicate ItemOf(first: nat, size: nat, n: nat, a: nat) {
    exists k: nat :: k < n && a == Item(first, size, k)
  }

  /** Every item is free or in use, never both, and nothing else is either. */
  ghost predicate Partition(first: nat, size: nat, n: nat, chain: seq<nat>, held: set<nat>) {
    (forall a :: ItemOf(first, size, n, a) <==> a in chain || a in held) && forall a | a in held :: a !in chain
  }

  lemma PartTake(first: nat, size: nat, n: nat, chain: seq<nat>, held: set<nat>)
    requires Partition(first, size, n, chain, held) && chain != [] && chain[0] !in chain[1..]
    ensures Partition(first, size, n, chain[1..], held + {chain[0]})
    ensures chain[0] !in held && ItemOf(first, size, n, chain[0])
  {
    hide ItemOf;
    assert chain == [chain[0]] + chain[1..];
  }

  lemma PartGive(first: nat, size: nat, n: nat, chain: seq<nat>, held: set<nat>, a: nat)
    requires Partition(first, size, n, chain, held) && a in held
    ensures Partition(first, size, n, [a] + chain, held - {a}) && a !in chain && ItemOf(first, size, n, a)
  {
    hide ItemOf;
  }

  predicate MinOf(m: nat, h: seq<nat>) { m in h && forall k | 0 <= k < |h| :: m <= h[k] }

  lemma MinMore(m: nat, h: seq<nat>, v: nat)
    requires MinOf(m, h)
    ensures MinOf(if m > v then v else m, h + [v])
  {
    assert (h + [v])[|h|] == v;
  }

  class Pool {
    /** The words of the managed memory; those of items in use belong to the clients. */
    var links: map<nat, nat>
    var free: nat
    var start: nat
    var end: nat
    var itemSize: nat
    var itemCount: nat
    var nFree: nat
    var nMin: nat
    ghost var first: nat
    ghost var chain: seq<nat>
    ghost var held: set<nat>
    /** Every value the number of free items has had. */
    ghost var history: seq<nat>

    constructor ()
    {
      links, free, start, end, itemSize, itemCount, nFree, nMin := map[], 0, 0, 0, 0, 0, 0, 0;
      first, chain, held, history := 0, [], {}, [];
    }

    ghost predicate Shape()
      reads this
    {
      itemCount > 0 && itemSize >= WORD && 0 < start <= first && end == Item(first, itemSize, itemCount - 1)
    }

    /** The free items are threaded in the memory; free items and items in use are all items. */
    ghost predicate Listing()
      reads this
    {
      && free == First(chain) && nFree == |chain| && Threaded(links, chain)
      && Partition(first, itemSize, itemCount, chain, held)
      && |held| + nFree == itemCount
    }

    /** The low-water mark is the smallest number of free items there has been. */
    ghost predicate Counted()
      reads this
    {
      history != [] && history[|history| - 1] == nFree && MinOf(nMin, history)
    }

    ghost predicate Valid()
      reads this
    {
      Shape() && Listing() && Counted()
    }

    /** `usb_pool_init`: as many items as fit, all of them free. */
    method Init(mem: nat, poolSize: nat, size: nat) returns (ok: bool)
      requires mem + poolSize <= SPACE
      modifies this
      ensures ok <==> mem != 0 && poolSize >= WORD && size + WORD < SPACE && Rounded(size) <= poolSize - Skip(mem)
      ensures ok ==>
        && Valid() && held == {} && nMin == itemCount
        && start == mem && first == mem + Skip(mem) && itemSize == Rounded(size)
        && Fills(poolSize - Skip(mem), itemSize, itemCount)
    {
      if !(mem != 0 && poolSize >= WORD && size + WORD < SPACE) {
        return false;
      }
      hide Item, Fills, Skip, Rounded;
      var corr := Misaligned(mem);
      var room := poolSize - corr;
      free := mem + corr;
      var size', nBlocks := RoundUp(size);
      itemSize := size';
      if room < itemSize {
        return false;
      }
      StringUp(mem, room, nBlocks);
      return true;
    }

    /** What is missing to an aligned start. */
    method Misaligned(mem: nat) returns (corr: nat)
      ensures corr == Skip(mem)
    {
      corr := mem % WORD;
      if corr != 0 {
        corr := WORD - corr;
      }
    }

    /** The second half of `usb_pool_init`. */
    method StringUp(mem: nat, room: nat, nBlocks: nat)
      requires itemSize == nBlocks * WORD && itemSize >= WORD && room >= itemSize && free >= mem > 0
      modifies this
      ensures Valid() && held == {} && nMin == itemCount
      ensures start == mem && first == old(free) && itemSize == old(itemSize) && Fills(room, itemSize, itemCount)
    {
      hide Item, Fills, Threaded, Carving, ItemOf, Partition;
      var fb := Thread(room, nBlocks);
      nFree := itemCount;
      nMin := itemCount;
      start := mem;
      end := fb;
      first, chain, held, history := free, Carving(free, itemSize, itemCount), {}, [itemCount];
      AllListed();
      FirstCarved(free, itemSize, itemCount);
    }

    /** The rounding loop: the item size and the number of pointers in it. */
    method RoundUp(size: nat) returns (r: nat, nBlocks: nat)
      ensures r == Rounded(size) == nBlocks * WORD
    {
      r, nBlocks := WORD, 1;
      while r < size
        invariant r == nBlocks * WORD && nBlocks >= 1 && (r == WORD || r - WORD < size)
        decreases size - r
      {
        r := r + WORD;
        nBlocks := nBlocks + 1;
      }
      RoundedIs(size, r, nBlocks);
    }

    /** The loop that strings the items together; returns the last one. */
    method Thread(poolSize: nat, nBlocks: nat) returns (fb: nat)
      requires itemSize == nBlocks * WORD && itemSize >= WORD && poolSize >= itemSize && free > 0
      modifies this`links, this`itemCount
      ensures itemCount > 0 && Fills(poolSize, itemSize, itemCount) && fb == Item(free, itemSize, itemCount - 1)
      ensures Threaded(links, Carving(free, itemSize, itemCount))
    {
      hide Item, Fills, Threaded, Carving;
      var room: nat := poolSize - itemSize;
      itemCount := 1;
      fb := free;
      links := links[fb := 0];
      CarvingStart(links, free, itemSize, poolSize);
      while room >= itemSize
        invariant itemCount > 0 && Left(poolSize, itemSize, itemCount, room)
        invariant fb == Item(free, itemSize, itemCount - 1)
        invariant Threaded(links[fb := 0], Carving(free, itemSize, itemCount))
        decreases room
      {
        var next := fb + nBlocks * WORD;
        CarvingMore(links, free, itemSize, itemCount);
        LeftMore(poolSize, itemSize, itemCount, room);
        links := links[fb := next];
        fb := next;
        room := room - itemSize;
        itemCount := itemCount + 1;
      }
      links := links[fb := 0];
      LeftAll(poolSize, itemSize, itemCount, room);
    }

    /** Right after carving, the items are exactly the free ones. */
    lemma AllListed()
      requires chain == Carving(first, itemSize, itemCount) && held == {}
      ensures Partition(first, itemSize, itemCount, chain, held)
    {
      forall a ensures ItemOf(first, itemSize, itemCount, a) <==> a in chain || a in held {
        if a in chain {
          var k :| 0 <= k < |chain| && chain[k] == a;
          assert a == Item(first, itemSize, k);
        }
        if ItemOf(first, itemSize, itemCount, a) {
          var k: nat :| k < itemCount && a == Item(first, itemSize, k);
          assert chain[k] == a;
        }
      }
    }

    /** `usb_pool_item_get`: a free item, or null when there is none. */
    method Get() returns (a: nat)
      requires Valid()
      modifies this
      ensures Valid() && itemCount == old(itemCount) && first == old(first) && itemSize == old(itemSize)
      ensures old(nFree) == 0 ==> a == 0 && held == old(held) && nFree == 0 && nMin == old(nMin)
      ensures old(nFree) > 0 ==> a != 0 && ItemOf(first, itemSize, itemCount, a) && a !in old(held)
      ensures old(nFree) > 0 ==> held == old(held) + {a} && nFree == old(nFree) - 1
    {
      hide Item, Threaded, ItemOf, MinOf, Partition;
      a := free;
      Listed(links, chain);
      if a != 0 {
        ThreadedTail(links, chain);
        PartTake(first, itemSize, itemCount, chain, held);
        MinMore(nMin, history, nFree - 1);
        free := links[a];
        nFree := nFree - 1;
        if nMin > nFree {
          nMin := nFree;
        }
        chain, held, history := chain[1..], held + {a}, history + [nFree];
      }
    }

    /** `usb_pool_item_return`, by a client that returns what it holds or something outside. */
    method Return(a: nat) returns (ret: int)
      requires Valid() && (a in held || a < start || a > end)
      modifies this
      ensures Valid() && itemCount == old(itemCount) && first == old(first) && itemSize == old(itemSize)
      ensures nMin == old(nMin)
      ensures ret == if a in old(held) then 0 else -514
      ensures held == old(held) - {a} && nFree == old(nFree) + if ret == 0 then 1 else 0
    {
      hide Item, Threaded, ItemOf, Partition;
      if a in held {
        PartGive(first, itemSize, itemCount, chain, held, a);
        ItemRange(a);
      }
      if !(start <= a <= end && nFree <= itemCount) {
        return -EFAULT;
      }
      ThreadedPush(links, chain, a);
      links := links[a := free];
      free := a;
      nFree := nFree + 1;
      chain, held, history := [a] + chain, held - {a}, history + [nFree];
      return 0;
    }

    /** A client writes into an item it holds. */
    method Scribble(a: nat, v: nat)
      requires Valid() && a in held
      modifies this`links
      ensures Valid()
    {
      ThreadedOther(links, chain, a, v);
      links := links[a := v];
    }

    lemma ItemRange(a: nat)
      requires Valid() && ItemOf(first, itemSize, itemCount, a)
      ensures start <= a <= end && a != 0
    {
      hide Item, Threaded;
      var k: nat :| k < itemCount && a == Item(first, itemSize, k);
      FirstItem(first, itemSize);
      if k > 0 { ItemsApart(first, itemSize, 0, k); }
      if k < itemCount - 1 { ItemsApart(first, itemSize, k, itemCount - 1); }
    }
  }

  lemma FirstItem(first: nat, size: nat)
    ensures Item(first, size, 0) == first
  {
  }

  /** The addresses of the first `n` items. */
  function Carving(first: nat, size: nat, n: nat): (s: seq<nat>)
    ensures |s| == n && forall k | 0 <= k < n :: s[k] == Item(first, size, k)
  {
    seq(n, k requires 0 <= k < n => Item(first, size, k))
  }

  lemma FirstCarved(first: nat, size: nat, n: nat)
    requires n > 0
    ensures First(Carving(first, size, n)) == first
  {
    FirstItem(first, size);
  }

  /** `room` bytes are left after `n` items. */
  predicate Left(all: nat, size: nat, n: nat, room: nat) { n * size + room == all }

  lemma LeftMore(all: nat, size: nat, n: nat, room: nat)
    requires Left(all, size, n, room) && room >= size
    ensures Left(all, size, n + 1, room - size)
  {
    assert (n + 1) * size == n * size + size;
  }

  lemma LeftAll(all: nat, size: nat, n: nat, room: nat)
    requires Left(all, size, n, room) && room < size
    ensures Fills(all, size, n)
  {
    assert (n + 1) * size == n * size + size;
  }

  lemma CarvingStart(links: map<nat, nat>, first: nat, size: nat, all: nat)
    requires first > 0 && size <= all && first in links && links[first] == 0
    ensures Threaded(links, Carving(first, size, 1)) && Threaded(links[first := 0], Carving(first, size, 1))
    ensures Left(all, size, 1, all - size) && first == Item(first, size, 0)
  {
    FirstItem(first, size);
    hide Item;
  }

  /** One more item: the last one is linked to it, and it to nothing. */
  lemma CarvingMore(links: map<nat, nat>, first: nat, size: nat, n: nat)
    requires n > 0 && size > 0 && first > 0
    requires Threaded(links[Item(first, size, n - 1) := 0], Carving(first, size, n))
    ensures var last, next := Item(first, size, n - 1), Item(first, size, n);
      next == last + size && Threaded(links[last := next][next := 0], Carving(first, size, n + 1))
  {
    hide Item;
    ItemNext(first, size, n - 1);
    var last, next := Item(first, size, n - 1), Item(first, size, n);
    var s, t := Carving(first, size, n), Carving(first, size, n + 1);
    forall i, j | 0 <= i < j < n + 1 ensures t[i] != t[j] { ItemsApart(first, size, i, j); }
    forall i | 0 <= i < n + 1
      ensures t[i] != 0 && t[i] in links[last := next][next := 0] && links[last := next][next := 0][t[i]] == After(t, i)
    {
      if i < n {
        assert s[i] == t[i] && t[i] != t[n];
        if i < n - 1 { assert After(s, i) == s[i + 1] == t[i + 1] && t[i] != t[n - 1]; }
      }
    }
  }
}
