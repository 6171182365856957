/** The LIFO doubly linked list of free blocks threaded through the heap
    (uw_cse351/lab5/mm.c:126-173).  Word 0 is FREE_LIST_HEAD; a block at `f`
    keeps next in word f + 1 and prev in word f + 2. */
module FreeList {
  import opened Tags
  import opened Layout
  import opened Memlib

  /** The i-th element of the list, or NULL past its ends. */
  function At(fl: seq<int>, i: int): int {
    if 0 <= i < |fl| then fl[i] else 0
  }

  predicate Disjoint3(a: int, b: int) { a + 3 <= b || b + 3 <= a }

  /** Elements are heap addresses whose three words do not overlap. */
  ghost predicate Spread(fl: seq<int>, top: int) {
    && (forall i :: 0 <= i < |fl| ==> 1 <= fl[i] && fl[i] + 2 < top)
    && (forall i, j :: 0 <= i < j < |fl| ==> Disjoint3(fl[i], fl[j]))
  }

  /** The words of the i-th element; the prev word of the head may hold anything. */
  predicate LinkAt(m: seq<int>, fl: seq<int>, i: int)
    requires 0 <= i < |fl| && 1 <= fl[i] && fl[i] + 2 < |m|
  {
    m[fl[i] + 1] == At(fl, i + 1) && (i > 0 ==> m[fl[i] + 2] == fl[i - 1])
  }

  /** The words of `m` link exactly the elements of `fl`, in this order. */
  ghost predicate Linked(m: seq<int>, fl: seq<int>) {
    && 0 < |m| && Spread(fl, |m|) && m[0] == At(fl, 0)
    && forall i {:trigger LinkAt(m, fl, i)} :: 0 <= i < |fl| ==> LinkAt(m, fl, i)
  }

  /** `fl` holds the free blocks of `bs`, except those of [c, d) other than `b`. */
  ghost predicate Listed(fl: seq<int>, bs: Blocks, c: int, d: int, b: int) {
    forall a :: a in fl <==> FreeAt(bs, a) && (a == b || !(c <= a < d))
  }

  // ---------- insertion ----------

  /** The words that inserting `b` leaves behind. */
  function InsertWords(m: seq<int>, b: int): seq<int>
    requires 0 < |m| && 0 <= b && b + 2 < |m| && 0 <= m[0] && m[0] + 2 < |m|
  {
    var m1 := m[b + 1 := m[0]];
    var m2 := if m[0] != 0 then m1[b + 2 := m1[m[0] + 2]][m[0] + 2 := b] else m1;
    m2[0 := b]
  }

  lemma InsertLinked(m: seq<int>, fl: seq<int>, b: int)
    requires Linked(m, fl) && Spread([b] + fl, |m|) && b + 2 < |m| && 0 <= m[0] && m[0] + 2 < |m| && 0 <= b
    ensures Linked(InsertWords(m, b), [b] + fl)
  {
    var m2, nl := InsertWords(m, b), [b] + fl;
    assert nl[0] == b;
    forall i | 0 <= i < |nl| ensures LinkAt(m2, nl, i) {
      if i > 0 {
        assert nl[i] == fl[i - 1] && At(nl, i + 1) == At(fl, i);
        assert LinkAt(m, fl, i - 1);
        assert Disjoint3(nl[0], nl[i]) && (i > 1 ==> Disjoint3(nl[1], nl[i]) && nl[i - 1] == fl[i - 2]);
      }
    }
  }

  lemma InsertFrame(m: seq<int>, fl: seq<int>, b: int, bs: Blocks)
    requires Linked(m, fl) && Spread([b] + fl, |m|) && b + 2 < |m| && 0 <= m[0] && m[0] + 2 < |m| && 0 <= b
    requires FreeAt(bs, b) && forall a :: a in fl ==> FreeAt(bs, a)
    ensures LinkFrame(m, InsertWords(m, b), bs)
  {
    assert |fl| > 0 ==> FreeAt(bs, fl[0]);
  }

  /** insertFreeBlock: `freeBlock` becomes the head of the list. */
  method InsertFreeBlock(mem: Memory, freeBlock: int, ghost fl: seq<int>, ghost bs: Blocks)
    requires mem.Valid() && Linked(mem.m, fl) && Spread([freeBlock] + fl, |mem.m|)
    requires FreeAt(bs, freeBlock) && forall a :: a in fl ==> FreeAt(bs, a)
    modifies mem.words, mem`m
    ensures mem.Valid() && Linked(mem.m, [freeBlock] + fl)
    ensures LinkFrame(old(mem.m), mem.m, bs)
  {
    ghost var nl := [freeBlock] + fl;
    assert nl[0] == freeBlock;
    InsertLinked(mem.m, fl, freeBlock);
    InsertFrame(mem.m, fl, freeBlock, bs);
    var oldHead := mem.Load(0);
    mem.Store(freeBlock + 1, oldHead);
    if oldHead != 0 {
      var oldPrev := mem.Load(oldHead + 2);
      mem.Store(freeBlock + 2, oldPrev);
      mem.Store(oldHead + 2, freeBlock);
    }
    mem.Store(0, freeBlock);
    assert mem.m == InsertWords(old(mem.m), freeBlock);
  }

  // ---------- removal ----------

  ghost function Without(fl: seq<int>, k: int): seq<int>
    requires 0 <= k < |fl|
  {
    fl[..k] + fl[k + 1..]
  }

  /** The words that removing the k-th element leaves behind. */
  ghost function RemoveWords(m: seq<int>, fl: seq<int>, k: int): seq<int>
    requires Spread(fl, |m|) && 0 <= k < |fl| && 0 < |m|
  {
    var m1 := if k + 1 < |fl| then m[fl[k + 1] + 2 := m[fl[k] + 2]] else m;
    if k == 0 then m1[0 := At(fl, 1)] else m1[fl[k - 1] + 1 := At(fl, k + 1)]
  }

  lemma WithoutSpread(fl: seq<int>, k: int, top: int)
    requires Spread(fl, top) && 0 <= k < |fl|
    ensures Spread(Without(fl, k), top)
  {
  }

  lemma RemoveLinkAt(m: seq<int>, fl: seq<int>, k: int, i: int)
    requires Linked(m, fl) && 0 <= k < |fl| && 0 <= i < |fl| - 1 && Spread(Without(fl, k), |m|)
    ensures LinkAt(RemoveWords(m, fl, k), Without(fl, k), i)
  {
    var j := if i < k then i else i + 1;
    var m2, nl := RemoveWords(m, fl, k), Without(fl, k);
    assert nl[i] == fl[j] && At(nl, i + 1) == (if j == k - 1 then At(fl, k + 1) else At(fl, j + 1));
    assert LinkAt(m, fl, k) && LinkAt(m, fl, j);
    assert k > 0 && j != k - 1 ==> Disjoint3(fl[j], fl[k - 1]);
    assert k + 1 < |fl| && j != k + 1 ==> Disjoint3(fl[j], fl[k + 1]);
    assert m2[fl[j] + 1] == if j == k - 1 then At(fl, k + 1) else m[fl[j] + 1];
    if i > 0 {
      assert nl[i - 1] == if j == k + 1 then fl[k - 1] else fl[j - 1];
    }
  }

  lemma RemoveLinked(m: seq<int>, fl: seq<int>, k: int)
    requires Linked(m, fl) && 0 <= k < |fl|
    ensures Linked(RemoveWords(m, fl, k), Without(fl, k))
  {
    WithoutSpread(fl, k, |m|);
    forall i | 0 <= i < |fl| - 1 ensures LinkAt(RemoveWords(m, fl, k), Without(fl, k), i) {
      RemoveLinkAt(m, fl, k, i);
    }
  }

  lemma RemoveFrame(m: seq<int>, fl: seq<int>, k: int, bs: Blocks)
    requires Linked(m, fl) && 0 <= k < |fl| && forall a :: a in fl ==> FreeAt(bs, a)
    ensures LinkFrame(m, RemoveWords(m, fl, k), bs)
  {
    assert k > 0 ==> FreeAt(bs, fl[k - 1]);
    assert k + 1 < |fl| ==> FreeAt(bs, fl[k + 1]);
  }

  /** removeFreeBlock: takes `freeBlock` out of the list, wherever it is.  The
      prev word of the head is copied but never followed. */
  method RemoveFreeBlock(mem: Memory, freeBlock: int, ghost fl: seq<int>, ghost bs: Blocks)
    returns (ghost k: int)
    requires mem.Valid() && Linked(mem.m, fl) && freeBlock in fl
    requires forall a :: a in fl ==> FreeAt(bs, a)
    modifies mem.words, mem`m
    ensures mem.Valid() && 0 <= k < |fl| && fl[k] == freeBlock
    ensures Linked(mem.m, Without(fl, k))
    ensures LinkFrame(old(mem.m), mem.m, bs)
  {
    k :| 0 <= k < |fl| && fl[k] == freeBlock;
    assert LinkAt(mem.m, fl, k);
    assert k > 0 ==> Disjoint3(fl[0], fl[k]) && fl[k - 1] >= 1;
    RemoveLinked(mem.m, fl, k);
    RemoveFrame(mem.m, fl, k, bs);
    var nextFree := mem.Load(freeBlock + 1);
    var prevFree := mem.Load(freeBlock + 2);
    if nextFree != 0 {
      mem.Store(nextFree + 2, prevFree);
    }
    var head := mem.Load(0);
    if freeBlock == head {
      mem.Store(0, nextFree);
    } else if prevFree != 0 {
      mem.Store(prevFree + 1, nextFree);
    }
    assert mem.m == RemoveWords(old(mem.m), fl, k);
  }

  // ---------- search ----------

  /** searchFreeList: the first block of the list with at least `reqWords` words. */
  method SearchFreeList(mem: Memory, reqWords: int, ghost fl: seq<int>) returns (freeBlock: int, ghost k: int)
    requires mem.Valid() && Linked(mem.m, fl)
    ensures 0 <= k <= |fl| && freeBlock == At(fl, k)
    ensures forall i :: 0 <= i < k ==> Words(mem.m[fl[i]]) < reqWords
    ensures k < |fl| ==> Words(mem.m[fl[k]]) >= reqWords
    ensures freeBlock == 0 <==> (forall i :: 0 <= i < |fl| ==> Words(mem.m[fl[i]]) < reqWords)
    ensures freeBlock != 0 ==> freeBlock in fl && Words(mem.m[freeBlock]) >= reqWords
  {
    freeBlock := mem.Load(0);
    k := 0;
    while freeBlock != 0
      invariant 0 <= k <= |fl| && freeBlock == At(fl, k)
      invariant forall i :: 0 <= i < k ==> Words(mem.m[fl[i]]) < reqWords
      decreases |fl| - k
    {
      var sizeAndTags := mem.Load(freeBlock);
      if Words(sizeAndTags) >= reqWords {
        return;
      }
      assert LinkAt(mem.m, fl, k);
      freeBlock := mem.Load(freeBlock + 1);
      k := k + 1;
    }
  }
}
