/** The explicit-free-list allocator (uw_cse351/lab5/mm.c) on the simulated
    break of uw_cse351/lab5/memlib.c. */
module Allocator {
  import opened Tags
  import opened Layout
  import opened Memlib
  import opened FreeList
  import opened HeapProofs
  import opened HeapShapes

  /** Block size in words for a request of `size` bytes: one header word more,
      at least MIN_BLOCK_SIZE, rounded up to the alignment. */
  function ReqWords(size: int): (r: int)
    requires size > 0
    ensures Fits(Used(r, size)) && (r > 4 ==> 8 * (r - 2) < size)
  {
    if size + 8 <= 32 then MIN_WORDS else (size + 8 + 7) / 8
  }

  /** The least number of whole pages that covers `r` words (see PageWordsIs). */
  function PageWords(r: int, page: int): (w: int)
    requires 0 < r && 0 < page
    ensures r <= w && page <= w && w - page < r
  {
    if r <= page then page else page + PageWords(r - page, page)
  }

  lemma AtLeastOne(d: int, page: int)
    requires 0 < page
    ensures d >= 1 ==> d * page >= page
    ensures d <= -1 ==> d * page <= -page
  {
  }

  lemma UniqueQuotient(x: int, page: int, q: int, d: int)
    requires 0 < page && x == q * page + d && 0 <= d < page
    ensures x / page == q && x % page == d
  {
    assert x == x / page * page + x % page;
    assert (x / page - q) * page == d - x % page;
    AtLeastOne(x / page - q, page);
  }

  lemma DivMod(x: int, page: int)
    requires 0 < page
    ensures x == x / page * page + x % page && 0 <= x % page < page
  {
  }

  /** It is the number that requestMoreSpace computes, and a multiple of the page. */
  lemma {:induction false} PageWordsIs(r: int, page: int)
    requires 0 < r && 0 < page
    ensures PageWords(r, page) == (r + page - 1) / page * page && PageWords(r, page) % page == 0
    decreases r
  {
    if r <= page {
      UniqueQuotient(r + page - 1, page, 1, r - 1);
      UniqueQuotient(page, page, 1, 0);
    } else {
      PageWordsIs(r - page, page);
      var x := r - 1;
      var q, d := x / page, x % page;
      DivMod(x, page);
      assert (q + 1) * page == q * page + page;
      UniqueQuotient(x + page, page, q + 1, d);
      UniqueQuotient((q + 1) * page, page, q + 1, 0);
    }
  }

  /** Whether a request for `r` words can be met: a free block fits, or the
      storage has room for the pages to ask for. */
  ghost predicate CanServe(bs: Blocks, brk: int, max: int, page: int, r: int)
    requires 0 < r && 0 < page
  {
    SomeFits(bs, r) || brk + PageWords(r, page) <= max
  }

  /** mm_malloc: first fit, in the heap as it is or extended by the pages needed. */
  ghost predicate Allocs(s: Shape, page: int, r: int, size: int, b: int, t: Shape)
    requires 0 < r && 0 < page
  {
    forall x {:trigger Shown(s, t, x)} :: Shown(s, t, x) ==>
      if SomeFits(s.bs, r) then FirstFit(s.fl, s.bs, r, b) && Places(s, b, r, size, t)
      else exists u :: Extends(s, PageWords(r, page), u) && FirstFit(u.fl, u.bs, r, b) && Places(u, b, r, size, t)
  }

  lemma AllocsBy(s: Shape, page: int, r: int, size: int, b: int, u: Shape, t: Shape)
    requires 0 < r && 0 < page && FirstFit(u.fl, u.bs, r, b) && Places(u, b, r, size, t)
    requires if SomeFits(s.bs, r) then u == s else Extends(s, PageWords(r, page), u)
    ensures Allocs(s, page, r, size, b, t)
  {
  }

  /** mm_realloc: in place if the block is large enough or can be extended, otherwise a new
      block is allocated and then the old one freed. */
  ghost predicate Reallocs(s: Shape, page: int, a: int, r: int, size: int, b: int, t: Shape)
    requires 0 < r && 0 < page
  {
    forall x {:trigger Shown(s, t, x)} :: Shown(s, t, x) ==>
      if Extensible(s.bs, a, r) then b == a && Resizes(s, a, r, size, t)
      else MovesTo(s, page, a, r, size, b, t)
  }

  /** Allocate, then free. */
  ghost predicate MovesTo(s: Shape, page: int, a: int, r: int, size: int, b: int, t: Shape)
    requires 0 < r && 0 < page
  {
    forall x {:trigger Shown(s, t, x)} :: Shown(s, t, x) ==> exists u :: Allocs(s, page, r, size, b, u) && Frees(u, a, t)
  }

  lemma MovesBy(s: Shape, page: int, a: int, r: int, size: int, b: int, u: Shape, t: Shape)
    requires 0 < r && 0 < page && Allocs(s, page, r, size, b, u) && Frees(u, a, t)
    ensures MovesTo(s, page, a, r, size, b, t)
  {
  }

  lemma ReallocsInPlace(s: Shape, page: int, a: int, r: int, size: int, t: Shape)
    requires 0 < r && 0 < page && Extensible(s.bs, a, r) && Resizes(s, a, r, size, t)
    ensures Reallocs(s, page, a, r, size, a, t)
  {
  }

  lemma ReallocsMoved(s: Shape, page: int, a: int, r: int, size: int, b: int, t: Shape)
    requires 0 < r && 0 < page && !Extensible(s.bs, a, r) && MovesTo(s, page, a, r, size, b, t)
    ensures Reallocs(s, page, a, r, size, b, t)
  {
  }

  class Heap {
    const mem: Memory
    ghost var bs: Blocks
    ghost var fl: seq<int>

    constructor (memory: Memory)
      ensures mem == memory
    {
      mem := memory;
    }

    ghost predicate Ok()
      reads this, mem, mem.words
    {
      mem.Valid() && MIN_WORDS <= mem.page && HeapOk(mem.m, bs, mem.brk - 1, fl)
    }

    /** The three views of the heap agree. */
    ghost predicate Valid()
      reads this, mem, mem.words
    {
      mem.Valid() && MIN_WORDS <= mem.page && HeapFull(mem.m, bs, mem.brk - 1, fl)
    }

    ghost function Now(): Shape
      reads this, mem
    {
      Shape(bs, fl, mem.brk - 1)
    }

    // ---------- the free list ----------

    method Unlink(b: int)
      requires Ok() && b in fl
      modifies mem.words, mem`m, `fl
      ensures Ok() && forall a :: a in fl <==> a in old(fl) && a != b
      ensures b in bs && fl == Outside(old(fl), b, Succ(bs, b))
      ensures LinkFrame(old(mem.m), mem.m, bs)
    {
      ghost var k := RemoveFreeBlock(mem, b, fl, bs);
      LinkFrameTagged(old(mem.m), mem.m, bs, mem.brk - 1);
      WithoutElements(fl, k, |mem.m|);
      WithoutOutside(fl, k, |mem.m|);
      AgreeOnBlock(fl, bs, mem.brk - 1, b);
      fl := Without(fl, k);
    }

    method Link(b: int)
      requires Ok() && FreeAt(bs, b) && b !in fl
      modifies mem.words, mem`m, `fl
      ensures Ok() && fl == [b] + old(fl)
      ensures LinkFrame(old(mem.m), mem.m, bs)
    {
      ConsSpread(fl, bs, mem.brk - 1, b, |mem.m|);
      InsertFreeBlock(mem, b, fl, bs);
      LinkFrameTagged(old(mem.m), mem.m, bs, mem.brk - 1);
      fl := [b] + fl;
    }

    /** Put the one free block that is off the list on it. */
    method LinkLast(b: int)
      requires Ok() && FreeAt(bs, b) && forall a :: a in fl <==> FreeAt(bs, a) && a != b
      modifies mem.words, mem`m, `fl
      ensures Valid() && Kept(old(mem.m), mem.m, Live(bs)) && fl == [b] + old(fl)
    {
      ListedCons(fl, bs, b);
      Link(b);
      LinkFrameKept(old(mem.m), mem.m, bs, mem.brk - 1);
    }

    // ---------- coalesceFreeBlock ----------

    /** One turn of the first loop: step back over the free block before `c`. */
    method GatherPreceding(c: int, ghost d: int, ghost b: int) returns (freeBlock: int, size: int)
      requires Ok() && Gathered(mem.m, bs, mem.brk - 1, fl, c, d, b) && c <= b < d && !PrecBit(mem.m[c])
      modifies mem.words, mem`m, `fl
      ensures Ok() && Gathered(mem.m, bs, mem.brk - 1, fl, freeBlock, d, b)
      ensures 0 <= freeBlock < c && size == c - freeBlock && fl == Outside(old(fl), freeBlock, c)
      ensures LinkFrame(old(mem.m), mem.m, bs)
    {
      PrecedingFree(mem.m, bs, mem.brk - 1, c);
      var footer := mem.Load(c - 1);
      size := Words(footer);
      freeBlock := c - size;
      Unlink(freeBlock);
      GatherBack(old(fl), fl, bs, mem.brk - 1, freeBlock, c, d, b);
    }

    /** One turn of the second loop: step over the free block at `d`. */
    method GatherFollowing(ghost c: int, d: int, ghost b: int) returns (next: int, size: int)
      requires Ok() && Gathered(mem.m, bs, mem.brk - 1, fl, c, d, b) && c <= b < d && !UsedBit(mem.m[d])
      modifies mem.words, mem`m, `fl
      ensures Ok() && Gathered(mem.m, bs, mem.brk - 1, fl, c, next, b)
      ensures d < next && size == next - d && fl == Outside(old(fl), d, next)
      ensures LinkFrame(old(mem.m), mem.m, bs)
    {
      assert TagsOf(mem.m, d, bs[d]);
      var header := mem.Load(d);
      size := Words(header);
      assert Succ(bs, d) == d + size;
      Unlink(d);
      next := d + size;
      GatherForward(old(fl), fl, bs, mem.brk - 1, c, d, b);
    }

    method CoalesceBack(oldBlock: int, oldSize: int) returns (c: int, newSize: int)
      requires Valid() && FreeAt(bs, oldBlock) && oldSize == bs[oldBlock].n
      modifies mem.words, mem`m, `fl
      ensures Ok() && Gathered(mem.m, bs, mem.brk - 1, fl, c, Succ(bs, oldBlock), oldBlock)
      ensures c <= oldBlock && PrecBit(mem.m[c]) && newSize == Succ(bs, oldBlock) - c
      ensures fl == Outside(old(fl), c, oldBlock)
      ensures LinkFrame(old(mem.m), mem.m, bs)
    {
      c, newSize := oldBlock, oldSize;
      ghost var d := Succ(bs, oldBlock);
      GatherStart(mem.m, bs, mem.brk - 1, fl, oldBlock);
      OutsideSame(fl, c, c);
      var header := mem.Load(c);
      while !PrecBit(header)
        invariant Ok() && Gathered(mem.m, bs, mem.brk - 1, fl, c, d, oldBlock)
        invariant c <= oldBlock < d && newSize == d - c && header == mem.m[c] && fl == Outside(old(fl), c, oldBlock)
        invariant LinkFrame(old(mem.m), mem.m, bs)
        decreases c
      {
        ghost var m1 := mem.m;
        var size;
        ghost var c1 := c;
        c, size := GatherPreceding(c, d, oldBlock);
        OutsideTwice(old(fl), c, c1, oldBlock);
        newSize := newSize + size;
        header := mem.Load(c);
        LinkFrameTwice(old(mem.m), m1, mem.m, bs);
      }
    }

    method CoalesceForward(ghost c: int, d0: int, ghost b: int, size0: int) returns (d: int, newSize: int)
      requires Ok() && Gathered(mem.m, bs, mem.brk - 1, fl, c, d0, b)
      requires c <= b < d0 && size0 == d0 - c
      modifies mem.words, mem`m, `fl
      ensures Ok() && Gathered(mem.m, bs, mem.brk - 1, fl, c, d, b)
      ensures d0 <= d < mem.brk && UsedBit(mem.m[d]) && newSize == d - c && fl == Outside(old(fl), d0, d)
      ensures LinkFrame(old(mem.m), mem.m, bs)
    {
      d, newSize := d0, size0;
      OutsideSame(fl, d0, d0);
      var header := mem.Load(d);
      while !UsedBit(header)
        invariant Ok() && Gathered(mem.m, bs, mem.brk - 1, fl, c, d, b)
        invariant d0 <= d < mem.brk && newSize == d - c && header == mem.m[d] && fl == Outside(old(fl), d0, d)
        invariant LinkFrame(old(mem.m), mem.m, bs)
        decreases mem.brk - d
      {
        ghost var m1 := mem.m;
        var size;
        ghost var d1 := d;
        d, size := GatherFollowing(c, d, b);
        OutsideTwice(old(fl), d0, d1, d);
        newSize := newSize + size;
        header := mem.Load(d);
        LinkFrameTwice(old(mem.m), m1, mem.m, bs);
      }
    }

    /** Save the new size in the header and in the boundary tag. */
    method WriteMerged(c: int, d: int, newSize: int)
      requires mem.Valid() && 0 <= c < d < |mem.m| && newSize == d - c
      modifies mem.words, mem`m
      ensures mem.Valid() && mem.m == MergedWords(old(mem.m), c, d)
    {
      mem.Store(c, Header(newSize, false, true));
      mem.Store(d - 1, Header(newSize, false, true));
    }

    method MergeRun(c: int, d: int, newSize: int)
      requires Ok() && Run(bs, mem.brk - 1, c, d) && AllFree(bs, c, d) && Clear(fl, bs, c, d)
      requires PrecBit(mem.m[c]) && newSize == d - c
      modifies mem.words, mem`m, `bs
      ensures Ok() && bs == Fuse(old(bs), c, d, Free(d - c))
      ensures Live(bs) == Live(old(bs)) && Kept(old(mem.m), mem.m, Live(bs))
    {
      MergedHeap(mem.m, bs, mem.brk - 1, fl, c, d);
      WriteMerged(c, d, newSize);
      bs := Fuse(bs, c, d, Free(d - c));
    }

    /** The block grew: take the old entry off the list and add the new one. */
    method CommitRun(c: int, d: int, b: int, newSize: int)
      requires Ok() && Gathered(mem.m, bs, mem.brk - 1, fl, c, d, b) && c <= b < d && FreeAt(bs, b)
      requires PrecBit(mem.m[c]) && newSize == d - c
      modifies mem.words, mem`m, `bs, `fl
      ensures Valid() && bs == Fuse(old(bs), c, d, Free(d - c)) && fl == [c] + Outside(old(fl), b, Succ(old(bs), b))
      ensures Live(bs) == Live(old(bs)) && Kept(old(mem.m), mem.m, Live(bs))
    {
      Unlink(b);
      HeaderKept(old(mem.m), mem.m, bs, mem.brk - 1, c);
      LinkFrameKept(old(mem.m), mem.m, bs, mem.brk - 1);
      FuseListed(fl, bs, mem.brk - 1, c, d);
      ghost var m1 := mem.m;
      MergeRun(c, d, newSize);
      ghost var m2 := mem.m;
      KeptTwice(old(mem.m), m1, m2, Live(bs));
      LinkLast(c);
      KeptTwice(old(mem.m), m2, mem.m, Live(bs));
    }

    /** Both loops: afterwards the maximal free run around `b` is off the list. */
    method GatherRun(b: int, oldSize: int) returns (c: int, d: int, newSize: int)
      requires Valid() && FreeAt(bs, b) && oldSize == bs[b].n
      modifies mem.words, mem`m, `fl
      ensures Ok() && Gathered(mem.m, bs, mem.brk - 1, fl, c, d, b)
      ensures PrecBit(mem.m[c]) && newSize == d - c
      ensures c <= b && Succ(bs, b) <= d && fl == Outside(Outside(old(fl), c, b), Succ(bs, b), d)
      ensures MaximalRun(bs, mem.brk - 1, c, d, b) && Kept(old(mem.m), mem.m, Live(bs))
    {
      c, newSize := CoalesceBack(b, oldSize);
      ghost var m1 := mem.m;
      d, newSize := CoalesceForward(c, b + oldSize, b, newSize);
      HeaderKept(m1, mem.m, bs, mem.brk - 1, c);
      LinkFrameTwice(old(mem.m), m1, mem.m, bs);
      LinkFrameKept(old(mem.m), mem.m, bs, mem.brk - 1);
      RunIsMaximal(mem.m, bs, mem.brk - 1, c, d, b);
    }

    /** The end of coalesceFreeBlock: only a block that grew is listed anew. */
    method CommitIfGrown(c: int, d: int, b: int, oldSize: int, newSize: int)
      requires Ok() && Gathered(mem.m, bs, mem.brk - 1, fl, c, d, b) && FreeAt(bs, b) && oldSize == bs[b].n
      requires PrecBit(mem.m[c]) && newSize == d - c && MaximalRun(bs, mem.brk - 1, c, d, b)
      modifies mem.words, mem`m, `bs, `fl
      ensures Valid() && bs == Fuse(old(bs), c, d, Free(d - c))
      ensures fl == Committed(old(fl), old(bs), b, c, d)
      ensures Live(bs) == Live(old(bs)) && Kept(old(mem.m), mem.m, Live(bs))
    {
      if newSize != oldSize {
        CommitRun(c, d, b, newSize);
      } else {
        GatheredAlone(mem.m, bs, mem.brk - 1, fl, c, d, b);
        KeptSame(mem.m, Live(bs));
      }
    }

    /** coalesceFreeBlock: merges `oldBlock` with the whole run of free blocks
        around it, whatever their number. */
    method CoalesceFreeBlock(oldBlock: int) returns (ghost c: int, ghost d: int)
      requires Valid() && FreeAt(bs, oldBlock)
      modifies mem.words, mem`m, `bs, `fl
      ensures Valid()
      ensures MaximalRun(old(bs), mem.brk - 1, c, d, oldBlock) && bs == Fuse(old(bs), c, d, Free(d - c))
      ensures fl == Relisted(old(fl), old(bs), oldBlock, c, d)
      ensures Live(bs) == Live(old(bs)) && Kept(old(mem.m), mem.m, Live(bs))
    {
      assert TagsOf(mem.m, oldBlock, bs[oldBlock]);
      var header := mem.Load(oldBlock);
      var oldSize := Words(header);
      var newBlock, blockCursor, newSize := GatherRun(oldBlock, oldSize);
      c, d := newBlock, blockCursor;
      GatheredList(old(fl), fl, bs, mem.brk - 1, oldBlock, c, d);
      ghost var m1 := mem.m;
      CommitIfGrown(newBlock, blockCursor, oldBlock, oldSize, newSize);
      KeptTwice(old(mem.m), m1, mem.m, Live(bs));
    }

    /** insertFreeBlock followed by coalesceFreeBlock. */
    method Release(b: int) returns (ghost c: int, ghost d: int)
      requires Ok() && FreeAt(bs, b) && forall a :: a in fl <==> FreeAt(bs, a) && a != b
      modifies mem.words, mem`m, `bs, `fl
      ensures Valid()
      ensures MaximalRun(old(bs), mem.brk - 1, c, d, b) && bs == Fuse(old(bs), c, d, Free(d - c))
      ensures Merges(old(Now()), b, Now())
      ensures Live(bs) == Live(old(bs)) && Kept(old(mem.m), mem.m, Live(bs))
    {
      LinkLast(b);
      ghost var m1 := mem.m;
      c, d := CoalesceFreeBlock(b);
      ReleasedMerges(old(Now()), b, c, d, Now());
      KeptTwice(old(mem.m), m1, mem.m, Live(bs));
    }

    // ---------- requestMoreSpace ----------

    method WriteExtension(newBlock: int, w: int)
      requires mem.Valid() && 0 <= newBlock < newBlock + w < |mem.m| && 1 < w
      modifies mem.words, mem`m
      ensures mem.Valid() && mem.m == ExtendedWords(old(mem.m), newBlock, w)
    {
      var lastWord := mem.Load(newBlock);
      var header := Header(w, false, PrecBit(lastWord));
      mem.Store(newBlock, header);
      mem.Store(newBlock + w - 1, header);
      mem.Store(newBlock + w, Header(0, true, false));
    }

    /** The new space as one more free block, not yet on the list. */
    method Extend(w: int) returns (newBlock: int, ok: bool)
      requires Ok() && MIN_WORDS <= w
      modifies mem.words, mem`m, mem`brk, `bs
      ensures ok <==> old(mem.brk) + w <= |mem.m|
      ensures !ok ==> mem.m == old(mem.m) && bs == old(bs) && mem.brk == old(mem.brk)
      ensures ok ==> Ok() && mem.brk == old(mem.brk) + w && newBlock == old(mem.brk) - 1
      ensures ok ==> newBlock !in old(bs) && newBlock !in fl && bs == old(bs)[newBlock := Free(w)]
      ensures ok ==> Live(bs) == Live(old(bs)) && Kept(old(mem.m), mem.m, Live(bs))
      ensures mem.Valid()
    {
      var sbrkResult;
      sbrkResult, ok := mem.Sbrk(w);
      newBlock := sbrkResult - 1;
      if ok {
        ExtendedHeap(mem.m, bs, newBlock, fl, w);
        assert Live(bs) - {newBlock} == Live(bs);
        WriteExtension(newBlock, w);
        bs := bs[newBlock := Free(w)];
      }
    }

    /** List and coalesce the block that was added to the tiling `bs0`. */
    method Settle(newBlock: int, ghost w: int, ghost bs0: Blocks) returns (ghost big: int)
      requires Ok() && MIN_WORDS <= w && mem.brk - 1 == newBlock + w
      requires Tiled(bs0, newBlock) && bs == bs0[newBlock := Free(w)]
      requires forall a :: a in fl <==> FreeAt(bs, a) && a != newBlock
      modifies mem.words, mem`m, `bs, `fl
      ensures Valid() && FreeAt(bs, big) && bs[big].n >= w && Merges(old(Now()), newBlock, Now())
      ensures Live(bs) == Live(old(bs)) && Kept(old(mem.m), mem.m, Live(bs))
      ensures Coalesced(bs0) ==> Coalesced(bs)
    {
      ghost var bs1 := bs;
      ghost var d;
      big, d := Release(newBlock);
      MergedCovers(bs1, newBlock + w, big, d, newBlock);
      ExtendedCoalesced(bs0, newBlock, w, big, d);
    }

    /** requestMoreSpace for whole pages of `w` words. */
    method AddSpace(w: int) returns (ok: bool, ghost big: int)
      requires Valid() && MIN_WORDS <= w
      modifies mem.words, mem`m, mem`brk, `bs, `fl
      ensures Valid() && mem.brk >= old(mem.brk)
      ensures ok <==> old(mem.brk) + w <= |mem.m|
      ensures !ok ==> mem.m == old(mem.m) && bs == old(bs) && fl == old(fl) && mem.brk == old(mem.brk)
      ensures ok ==> FreeAt(bs, big) && bs[big].n >= w && mem.brk == old(mem.brk) + w && Extends(old(Now()), w, Now())
      ensures Live(bs) == Live(old(bs)) && Kept(old(mem.m), mem.m, Live(bs))
      ensures old(Coalesced(bs)) ==> Coalesced(bs)
    {
      ghost var bs0 := bs;
      big := 0;
      KeptSame(mem.m, Live(bs));
      var newBlock;
      newBlock, ok := Extend(w);
      if ok {
        ListedAdded(fl, bs0, newBlock, Free(w));
        ghost var m1, u := mem.m, Now();
        big := Settle(newBlock, w, bs0);
        ExtendsBy(old(Now()), w, u, Now());
        KeptTwice(old(mem.m), m1, mem.m, Live(bs));
      }
    }

    /** requestMoreSpace: afterwards some free block has `r` words, or the
        break has hit the end of the storage and nothing has changed. */
    method RequestMoreSpace(r: int) returns (ok: bool, ghost big: int)
      requires Valid() && 0 < r
      modifies mem.words, mem`m, mem`brk, `bs, `fl
      ensures Valid() && mem.brk >= old(mem.brk)
      ensures ok <==> old(mem.brk) + PageWords(r, mem.page) <= |mem.m|
      ensures !ok ==> mem.m == old(mem.m) && bs == old(bs) && fl == old(fl) && mem.brk == old(mem.brk)
      ensures ok ==> FreeAt(bs, big) && bs[big].n >= r && mem.brk == old(mem.brk) + PageWords(r, mem.page)
      ensures ok ==> Extends(old(Now()), PageWords(r, mem.page), Now())
      ensures Live(bs) == Live(old(bs)) && Kept(old(mem.m), mem.m, Live(bs))
      ensures old(Coalesced(bs)) ==> Coalesced(bs)
    {
      var numPages := (r + mem.page - 1) / mem.page;
      PageWordsIs(r, mem.page);
      ok, big := AddSpace(numPages * mem.page);
    }

    // ---------- mm_init ----------

    method WriteInitial()
      requires mem.Valid() && mem.brk == 6
      modifies mem.words, mem`m
      ensures mem.Valid() && mem.m == InitialWords(old(mem.m))
    {
      var firstFreeBlock := 1;
      mem.Store(firstFreeBlock, Header(MIN_WORDS, false, true));
      mem.Store(firstFreeBlock + 1, 0);
      mem.Store(firstFreeBlock + 2, 0);
      mem.Store(firstFreeBlock + MIN_WORDS - 1, Header(MIN_WORDS, false, true));
      mem.Store(mem.brk - 1, Header(0, true, false));
      mem.Store(0, firstFreeBlock);
    }

    /** mm_init on an empty heap: fails only when the storage is too small. */
    method Init() returns (ok: bool)
      requires mem.Valid() && MIN_WORDS <= mem.page && mem.brk == 0
      modifies mem.words, mem`m, mem`brk, `bs, `fl
      ensures ok <==> 6 <= |mem.m|
      ensures ok ==> Valid() && Coalesced(bs) && Live(bs) == map[] && mem.brk == 6
      ensures ok ==> Now() == Shape(map[1 := Free(4)], [1], 5)
      ensures mem.Valid() && |mem.m| == |old(mem.m)|
    {
      var sbrkResult;
      sbrkResult, ok := mem.Sbrk(1 + MIN_WORDS + 1);
      if ok {
        InitialHeap(mem.m);
        WriteInitial();
        bs, fl := map[1 := Free(4)], [1];
      }
    }

    // ---------- mm_malloc ----------

    method WriteTaken(a: int, n: int)
      requires mem.Valid() && 0 <= a < a + n < |mem.m|
      modifies mem.words, mem`m
      ensures mem.Valid() && mem.m == TakenWords(old(mem.m), a, n)
    {
      var next := mem.Load(a + n);
      mem.Store(a + n, SetPrec(next));
      var header := mem.Load(a);
      mem.Store(a, SetUsed(header));
    }

    method WriteSplit(a: int, r: int, n: int, prec: bool)
      requires mem.Valid() && 0 <= a < a + r < a + n < |mem.m| && prec == PrecBit(mem.m[a])
      modifies mem.words, mem`m
      ensures mem.Valid() && mem.m == SplitWords(old(mem.m), a, r, n)
    {
      mem.Store(a, SetUsed(Header(r, false, prec)));
      mem.Store(a + r, Header(n - r, false, true));
      mem.Store(a + n - 1, Header(n - r, false, true));
    }

    /** The free block `b` becomes used as it is. */
    method TakeWhole(b: int, n: int, size: int)
      requires Ok() && FreeAt(bs, b) && n == bs[b].n && Fits(Used(n, size))
      requires forall a :: a in fl <==> FreeAt(bs, a) && a != b
      modifies mem.words, mem`m, `bs
      ensures Valid() && bs == old(bs)[b := Used(n, size)]
      ensures Live(bs) == Live(old(bs))[b := Used(n, size)] && Kept(old(mem.m), mem.m, Live(old(bs)))
    {
      TakenHeap(mem.m, bs, mem.brk - 1, fl, b, size);
      ListedTaken(fl, bs, b, Used(n, size));
      NotLive(bs, b);
      WriteTaken(b, n);
      bs := bs[b := Used(n, size)];
    }

    /** The first `r` words of the free block `b` become used. */
    method CutFree(b: int, r: int, n: int, size: int, prec: bool)
      requires Ok() && FreeAt(bs, b) && n == bs[b].n && Cuttable(bs, b, r, size) && prec == PrecBit(mem.m[b])
      requires b !in fl
      modifies mem.words, mem`m, `bs
      ensures Ok() && bs == Cut(old(bs), b, r, size)
      ensures Live(bs) == Live(old(bs))[b := Used(r, size)] && Kept(old(mem.m), mem.m, Live(old(bs)))
    {
      SplitHeap(mem.m, bs, mem.brk - 1, fl, b, r, size);
      NotLive(bs, b);
      WriteSplit(b, r, n, prec);
      bs := Cut(bs, b, r, size);
    }

    /** ... and the rest goes back on the list. */
    method TakePart(b: int, r: int, n: int, size: int, prec: bool)
      requires Ok() && FreeAt(bs, b) && n == bs[b].n && Cuttable(bs, b, r, size) && prec == PrecBit(mem.m[b])
      requires forall a :: a in fl <==> FreeAt(bs, a) && a != b
      modifies mem.words, mem`m, `bs, `fl
      ensures Valid() && bs == Cut(old(bs), b, r, size) && fl == [b + r] + old(fl)
      ensures Live(bs) == Live(old(bs))[b := Used(r, size)] && Kept(old(mem.m), mem.m, Live(old(bs)))
    {
      ListedCut(fl, bs, mem.brk - 1, b, r, size);
      CutFree(b, r, n, size, prec);
      ghost var m1 := mem.m;
      LinkLast(b + r);
      KeptPart(m1, mem.m, Live(bs), Live(old(bs)));
      KeptTwice(old(mem.m), m1, mem.m, Live(old(bs)));
    }

    /** Split or not, once `b` is off the list. */
    method Take(b: int, r: int, n: int, size: int, prec: bool)
      requires Ok() && FreeAt(bs, b) && n == bs[b].n && r <= n && Fits(Used(r, size)) && prec == PrecBit(mem.m[b])
      requires forall a :: a in fl <==> FreeAt(bs, a) && a != b
      modifies mem.words, mem`m, `bs, `fl
      ensures Valid() && b in bs && bs[b].Used? && bs[b].req == size && bs == Trimmed(old(bs), b, r, size)
      ensures fl == if n - r >= MIN_WORDS then [b + r] + old(fl) else old(fl)
      ensures Live(bs) == Live(old(bs))[b := bs[b]] && Kept(old(mem.m), mem.m, Live(old(bs)))
      ensures old(Coalesced(bs)) ==> Coalesced(bs)
    {
      if n - r >= MIN_WORDS {
        SplitCoalesced(bs, mem.brk - 1, b, r, size);
        TakePart(b, r, n, size, prec);
      } else {
        TakenCoalesced(bs, b, Used(n, size));
        TakeWhole(b, n, size);
      }
    }

    /** Allocate `r` words in the free block `b`, splitting it when the rest is
        large enough for a block. */
    method Place(b: int, r: int, size: int)
      requires Valid() && FreeAt(bs, b) && r <= bs[b].n && Fits(Used(r, size))
      modifies mem.words, mem`m, `bs, `fl
      ensures Valid() && b in bs && bs[b].Used? && bs[b].req == size
      ensures bs == Trimmed(old(bs), b, r, size) && Places(old(Now()), b, r, size, Now())
      ensures Live(bs) == Live(old(bs))[b := bs[b]] && Kept(old(mem.m), mem.m, Live(old(bs)))
      ensures old(Coalesced(bs)) ==> Coalesced(bs)
    {
      assert TagsOf(mem.m, b, bs[b]);
      var header := mem.Load(b);
      var prec, n := PrecBit(header), Words(header);
      Unlink(b);
      HeaderKept(old(mem.m), mem.m, bs, mem.brk - 1, b);
      LinkFrameKept(old(mem.m), mem.m, bs, mem.brk - 1);
      ghost var m1, bs1, fl1 := mem.m, bs, fl;
      Take(b, r, n, size, prec);
      KeptTwice(old(mem.m), m1, mem.m, Live(bs1));
      PlacesBy(old(Now()), b, r, size, fl1, Now());
    }

    /** searchFreeList on the heap. */
    method FirstFitting(r: int) returns (b: int)
      requires Valid()
      ensures b != 0 <==> SomeFits(bs, r)
      ensures b != 0 ==> FreeAt(bs, b) && bs[b].n >= r && FirstFit(fl, bs, r, b)
    {
      ghost var k;
      b, k := SearchFreeList(mem, r, fl);
      SearchMeaning(mem.m, bs, mem.brk - 1, fl, r, b, k);
    }

    /** First fit, after asking for more space if nothing fits. */
    method FindFit(r: int) returns (b: int, ok: bool)
      requires Valid() && MIN_WORDS <= r
      modifies mem.words, mem`m, mem`brk, `bs, `fl
      ensures Valid() && mem.brk >= old(mem.brk)
      ensures ok <==> SomeFits(old(bs), r) || old(mem.brk) + PageWords(r, mem.page) <= |mem.m|
      ensures !ok ==> mem.m == old(mem.m) && bs == old(bs) && fl == old(fl) && mem.brk == old(mem.brk)
      ensures ok ==> FreeAt(bs, b) && bs[b].n >= r
      ensures SomeFits(old(bs), r) ==> mem.m == old(mem.m) && Now() == old(Now())
      ensures ok && !SomeFits(old(bs), r) ==> Extends(old(Now()), PageWords(r, mem.page), Now())
      ensures ok ==> FirstFit(fl, bs, r, b)
      ensures ok ==> mem.brk == old(mem.brk) + (if SomeFits(old(bs), r) then 0 else PageWords(r, mem.page))
      ensures Live(bs) == Live(old(bs)) && Kept(old(mem.m), mem.m, Live(bs))
      ensures old(Coalesced(bs)) ==> Coalesced(bs)
    {
      ok := true;
      KeptSame(mem.m, Live(bs));
      b := FirstFitting(r);
      if b == 0 {
        ghost var big;
        ok, big := RequestMoreSpace(r);
        if ok {
          assert SomeFits(bs, r);
          b := FirstFitting(r);
        }
      }
    }

    /** mm_malloc: NULL for size 0; otherwise a fresh block for `size` bytes, or
        exit when nothing fits and the storage is exhausted. */
    method Malloc(size: int) returns (p: int, ok: bool)
      requires Valid() && 0 <= size
      modifies mem.words, mem`m, mem`brk, `bs, `fl
      ensures Valid() && mem.brk >= old(mem.brk)
      ensures size == 0 ==> ok && p == 0 && mem.m == old(mem.m) && bs == old(bs)
      ensures size > 0 ==> (ok <==> CanServe(old(bs), old(mem.brk), |mem.m|, mem.page, ReqWords(size)))
      ensures !ok ==> mem.m == old(mem.m) && bs == old(bs) && mem.brk == old(mem.brk)
      ensures ok && size > 0 ==> p - 1 in bs && bs[p - 1].Used? && bs[p - 1].req == size && p - 1 !in Live(old(bs))
      ensures ok && size > 0 ==> Live(bs) == Live(old(bs))[p - 1 := bs[p - 1]]
      ensures ok && size > 0 ==>
        mem.brk == old(mem.brk) + (if SomeFits(old(bs), ReqWords(size)) then 0 else PageWords(ReqWords(size), mem.page))
      ensures ok && size > 0 ==> Allocs(old(Now()), mem.page, ReqWords(size), size, p - 1, Now())
      ensures Kept(old(mem.m), mem.m, Live(old(bs)))
      ensures old(Coalesced(bs)) ==> Coalesced(bs)
    {
      KeptSame(mem.m, Live(bs));
      if size == 0 {
        return 0, true;
      }
      var r := ReqWords(size);
      var b;
      b, ok := FindFit(r);
      p := b + 1;
      if ok {
        ghost var m1, lv, u := mem.m, Live(bs), Now();
        Place(b, r, size);
        AllocsBy(old(Now()), mem.page, r, size, b, u, Now());
        KeptTwice(old(mem.m), m1, mem.m, lv);
      }
    }

    // ---------- mm_free ----------

    method WriteFreed(a: int, n: int)
      requires mem.Valid() && 0 <= a < a + n < |mem.m|  && MIN_WORDS <= n
      modifies mem.words, mem`m
      ensures mem.Valid() && mem.m == FreedWords(old(mem.m), a, n)
    {
      var next := mem.Load(a + n);
      mem.Store(a + n, ClearPrec(next));
      var header := mem.Load(a);
      mem.Store(a, ClearUsed(header));
      header := mem.Load(a);
      mem.Store(a + n - 1, header);
    }

    method MarkFree(a: int, n: int)
      requires Valid() && a in bs && bs[a].Used? && n == bs[a].n
      modifies mem.words, mem`m, `bs
      ensures Ok() && bs == old(bs)[a := Free(n)] && forall b :: b in fl <==> FreeAt(bs, b) && b != a
      ensures Live(bs) == Live(old(bs)) - {a} && Kept(old(mem.m), mem.m, Live(bs))
    {
      FreedHeap(mem.m, bs, mem.brk - 1, fl, a);
      ListedAdded(fl, bs, a, Free(n));
      WriteFreed(a, n);
      bs := bs[a := Free(n)];
    }

    /** mm_free of a live pointer. */
    method FreePtr(p: int)
      requires Valid() && p - 1 in Live(bs)
      modifies mem.words, mem`m, `bs, `fl
      ensures Valid() && Live(bs) == Live(old(bs)) - {p - 1} && Kept(old(mem.m), mem.m, Live(bs))
      ensures Frees(old(Now()), p - 1, Now())
      ensures old(Coalesced(bs)) ==> Coalesced(bs)
    {
      var blockInfo := p - 1;
      assert TagsOf(mem.m, blockInfo, bs[blockInfo]);
      var header := mem.Load(blockInfo);
      ghost var bs0 := bs;
      MarkFree(blockInfo, Words(header));
      ghost var m1, bs1, u := mem.m, bs, Now();
      ghost var c, d := Release(blockInfo);
      FreesBy(old(Now()), blockInfo, u, Now());
      KeptTwice(old(mem.m), m1, mem.m, Live(bs));
      FreedCoalesced(bs0, mem.brk - 1, blockInfo, c, d);
    }

    // ---------- mm_realloc ----------

    method WriteGrown(a: int, n: int, k: int, prec: bool)
      requires mem.Valid() && 0 <= a < a + n < a + n + k < |mem.m| && prec == PrecBit(mem.m[a])
      modifies mem.words, mem`m
      ensures mem.Valid() && mem.m == GrownWords(old(mem.m), a, n, k)
    {
      mem.Store(a, SetUsed(Header(n + k, false, prec)));
      mem.Store(a + n, 0);
      var nextNext := mem.Load(a + n + k);
      mem.Store(a + n + k, SetPrec(nextNext));
    }

    method WriteShrunk(a: int, r: int, n: int, prec: bool)
      requires mem.Valid() && 0 <= a < a + r < a + n < |mem.m| && prec == PrecBit(mem.m[a])
      modifies mem.words, mem`m
      ensures mem.Valid() && mem.m == ShrunkWords(old(mem.m), a, r, n)
    {
      WriteSplit(a, r, n, prec);
      var next := mem.Load(a + n);
      mem.Store(a + n, ClearPrec(next));
    }

    /** The used block `a` takes over the free block after it, which is off the list. */
    method Absorb(a: int, n: int, k: int, prec: bool)
      requires Ok() && a in bs && bs[a].Used? && bs[a].n == n && FreeAt(bs, a + n) && bs[a + n].n == k
      requires prec == PrecBit(mem.m[a]) && forall b :: b in fl <==> FreeAt(bs, b) && b != a + n
      modifies mem.words, mem`m, `bs
      ensures Valid() && a in bs && bs[a] == Used(n + k, old(bs)[a].req) && PrecBit(mem.m[a]) == prec
      ensures bs == Fuse(old(bs), a, a + n + k, bs[a])
      ensures Live(bs) == Live(old(bs))[a := bs[a]] && Kept(old(mem.m), mem.m, Live(old(bs)))
    {
      AbsorbedHeap(mem.m, bs, mem.brk - 1, fl, a, n, k, bs[a].req);
      WriteGrown(a, n, k, prec);
      bs := Fuse(bs, a, a + n + k, Used(n + k, bs[a].req));
    }

    method Grow(a: int, n: int, k: int, prec: bool)
      requires Valid() && a in bs && bs[a].Used? && bs[a].n == n && FreeAt(bs, a + n) && bs[a + n].n == k
      requires prec == PrecBit(mem.m[a])
      modifies mem.words, mem`m, `bs, `fl
      ensures Valid() && a in bs && bs[a] == Used(n + k, old(bs)[a].req) && PrecBit(mem.m[a]) == prec
      ensures bs == Fuse(old(bs), a, a + n + k, bs[a]) && Grows(old(Now()), a, Now())
      ensures Live(bs) == Live(old(bs))[a := bs[a]] && Kept(old(mem.m), mem.m, Live(old(bs)))
    {
      Unlink(a + n);
      HeaderKept(old(mem.m), mem.m, bs, mem.brk - 1, a);
      LinkFrameKept(old(mem.m), mem.m, bs, mem.brk - 1);
      ghost var m1 := mem.m;
      Absorb(a, n, k, prec);
      GrowsBy(old(Now()), a, n, k, Now());
      KeptTwice(old(mem.m), m1, mem.m, Live(old(bs)));
    }

    /** Cut the used block `a` down to `r` words; the rest is not yet listed. */
    method CutUsed(a: int, r: int, n: int, size: int, prec: bool)
      requires Valid() && a in bs && bs[a].Used? && bs[a].n == n && Cuttable(bs, a, r, size)
      requires prec == PrecBit(mem.m[a])
      modifies mem.words, mem`m, `bs
      ensures Ok() && bs == Cut(old(bs), a, r, size)
      ensures FreeAt(bs, a + r) && forall b :: b in fl <==> FreeAt(bs, b) && b != a + r
      ensures Live(bs) == Live(old(bs))[a := Used(r, size)] && Kept(old(mem.m), mem.m, Live(bs))
    {
      ListedCutUsed(fl, bs, mem.brk - 1, a, r, size);
      ShrunkHeap(mem.m, bs, mem.brk - 1, fl, a, r, size);
      ShrunkOwn(mem.m, a, r, n);
      KeptWith(mem.m, ShrunkWords(mem.m, a, r, n), Live(bs), a, Used(r, size));
      WriteShrunk(a, r, n, prec);
      bs := Cut(bs, a, r, size);
    }

    /** The split of mm_realloc: the rest goes on the list without coalescing.
        The preceding-used bit after it is cleared before the insertion, which
        neither reads nor writes that word. */
    method Shrink(a: int, r: int, n: int, size: int, prec: bool)
      requires Valid() && a in bs && bs[a].Used? && bs[a].n == n && Cuttable(bs, a, r, size)
      requires prec == PrecBit(mem.m[a])
      modifies mem.words, mem`m, `bs, `fl
      ensures Valid() && bs == Cut(old(bs), a, r, size) && fl == [a + r] + old(fl)
      ensures Live(bs) == Live(old(bs))[a := Used(r, size)] && Kept(old(mem.m), mem.m, Live(bs))
    {
      CutUsed(a, r, n, size, prec);
      ghost var m1 := mem.m;
      LinkLast(a + r);
      KeptTwice(old(mem.m), m1, mem.m, Live(bs));
    }

    /** memcpy of `k` whole words between blocks that do not overlap. */
    method MemCopy(dst: int, src: int, k: int)
      requires mem.Valid() && 0 <= k && 0 <= src <= src + k <= |mem.m| && 0 <= dst <= dst + k <= |mem.m|
      requires src + k <= dst || dst + k <= src
      modifies mem.words, mem`m
      ensures mem.Valid() && |mem.m| == |old(mem.m)|
      ensures forall i :: dst <= i < dst + k ==> mem.m[i] == old(mem.m)[i - dst + src]
      ensures forall i :: 0 <= i < |mem.m| && !(dst <= i < dst + k) ==> mem.m[i] == old(mem.m)[i]
    {
      var j := 0;
      while j < k
        invariant 0 <= j <= k && mem.Valid() && |mem.m| == |old(mem.m)|
        invariant forall i :: dst <= i < dst + j ==> mem.m[i] == old(mem.m)[i - dst + src]
        invariant forall i :: 0 <= i < |mem.m| && !(dst <= i < dst + j) ==> mem.m[i] == old(mem.m)[i]
      {
        var v := mem.Load(src + j);
        mem.Store(dst + j, v);
        j := j + 1;
      }
    }

    /** Copy the payload of block `a` to the start of the payload of block `b`. */
    method CopyPayload(a: int, b: int, n: int)
      requires Valid() && a in Live(bs) && b in Live(bs) && a != b && n == bs[a].n <= bs[b].n
      modifies mem.words, mem`m
      ensures Valid() && Kept(old(mem.m), mem.m, Live(bs) - {b}) && SamePrefix(old(mem.m), a, mem.m, b, n - 1)
    {
      MemCopy(b + 1, a + 1, n - 1);
      PayloadHeap(old(mem.m), mem.m, bs, mem.brk - 1, fl, b);
    }

    /** The third path of mm_realloc: allocate, copy, free. */
    method Move(a: int, n: int, size: int) returns (q: int, ok: bool)
      requires Valid() && a in Live(bs) && bs[a].n == n && 0 < size && n < ReqWords(size)
      modifies mem.words, mem`m, mem`brk, `bs, `fl
      ensures Valid() && mem.brk >= old(mem.brk)
      ensures ok <==> CanServe(old(bs), old(mem.brk), |mem.m|, mem.page, ReqWords(size))
      ensures !ok ==> mem.m == old(mem.m) && bs == old(bs) && mem.brk == old(mem.brk)
      ensures ok ==> Moved(old(mem.m), old(bs), mem.m, bs, a, q - 1, size) && q - 1 !in Live(old(bs))
      ensures ok ==> MovesTo(old(Now()), mem.page, a, ReqWords(size), size, q - 1, Now())
      ensures old(Coalesced(bs)) ==> Coalesced(bs)
    {
      q, ok := Malloc(size);
      if ok {
        ghost var m1, bs1, u := mem.m, bs, Now();
        ghost var m2 := CopyAndFree(a, n, q, size);
        MovesBy(old(Now()), mem.page, a, ReqWords(size), size, q - 1, u, Now());
        MoveChain(old(mem.m), old(bs), m1, bs1, m2, mem.m, bs, a, q - 1, size);
      }
    }

    /** memcpy and mm_free. */
    method CopyAndFree(a: int, n: int, q: int, size: int) returns (ghost m2: seq<int>)
      requires Valid() && a in Live(bs) && q - 1 in Live(bs) && a != q - 1 && bs[a].n == n && bs[q - 1].req == size
      requires n < ReqWords(size)
      modifies mem.words, mem`m, `bs, `fl
      ensures Valid() && |m2| == |mem.m| && Live(bs) == Live(old(bs)) - {a} && Frees(old(Now()), a, Now())
      ensures Kept(old(mem.m), m2, Live(old(bs)) - {q - 1}) && Kept(m2, mem.m, Live(bs))
      ensures SamePrefix(old(mem.m), a, m2, q - 1, n - 1)
      ensures old(Coalesced(bs)) ==> Coalesced(bs)
    {
      var copySize := 8 * n - 8;
      if size < copySize {
        copySize := size;
      }
      assert copySize == 8 * (n - 1) && bs[q - 1].n >= n;
      CopyPayload(a, q - 1, copySize / 8 + 1);
      m2 := mem.m;
      FreePtr(a + 1);
    }

    /** Record that the block `a` now serves a request of `size` bytes. */
    ghost method Rename(a: int, size: int)
      requires Valid() && a in Live(bs) && Fits(Used(bs[a].n, size))
      modifies `bs
      ensures Valid() && bs == old(bs)[a := Used(old(bs)[a].n, size)]
      ensures Live(bs) == Live(old(bs))[a := bs[a]]
    {
      RenamedHeap(mem.m, bs, mem.brk - 1, fl, a, Used(bs[a].n, size));
      bs := bs[a := Used(bs[a].n, size)];
    }

    /** The paths of mm_realloc that keep the block in place: it has at least
        `r` words already. */
    method Trim(a: int, r: int, n: int, size: int, prec: bool)
      requires Valid() && a in Live(bs) && bs[a].n == n && r <= n && Fits(Used(r, size)) && prec == PrecBit(mem.m[a])
      modifies mem.words, mem`m, `bs, `fl
      ensures Valid() && a in Live(bs) && bs[a].req == size && r <= bs[a].n <= n
      ensures bs == Trimmed(old(bs), a, r, size) && Trims(old(Now()), a, r, size, Now())
      ensures Live(bs) == Live(old(bs))[a := bs[a]] && Kept(old(mem.m), mem.m, Live(old(bs))[a := bs[a]])
    {
      if n - r >= MIN_WORDS {
        Shrink(a, r, n, size, prec);
      } else {
        Rename(a, size);
        KeptSame(mem.m, Live(bs));
      }
      TrimsBy(old(Now()), a, r, size, Now());
    }

    /** mm_realloc of a live pointer.  Size 0 frees it; otherwise the result
        holds `size` bytes and the common prefix of the old payload. */
    method Realloc(p: int, size: int) returns (q: int, ok: bool)
      requires Valid() && p - 1 in Live(bs) && 0 <= size
      modifies mem.words, mem`m, mem`brk, `bs, `fl
      ensures Valid() && mem.brk >= old(mem.brk)
      ensures size == 0 ==> ok && q == 0 && Live(bs) == Live(old(bs)) - {p - 1} && Kept(old(mem.m), mem.m, Live(bs))
      ensures size > 0 && ok ==> Moved(old(mem.m), old(bs), mem.m, bs, p - 1, q - 1, size)
      ensures !ok ==> mem.m == old(mem.m) && bs == old(bs) && mem.brk == old(mem.brk)
      ensures size > 0 ==> (ok <==> Extensible(old(bs), p - 1, ReqWords(size)) ||
                                    CanServe(old(bs), old(mem.brk), |mem.m|, mem.page, ReqWords(size)))
      ensures size > 0 && ok ==> (q == p <==> Extensible(old(bs), p - 1, ReqWords(size)))
      ensures size > 0 && ok ==> Reallocs(old(Now()), mem.page, p - 1, ReqWords(size), size, q - 1, Now())
      ensures size == 0 ==> Frees(old(Now()), p - 1, Now())
      ensures old(Coalesced(bs)) ==>
        (Coalesced(bs) <==> !(size > 0 && LeavesNeighbours(old(bs), p - 1, ReqWords(size))))
    {
      var blockInfo := p - 1;
      assert TagsOf(mem.m, blockInfo, bs[blockInfo]);
      var header := mem.Load(blockInfo);
      var oldSize, prec := Words(header), PrecBit(header);
      if size == 0 {
        FreePtr(p);
        return 0, true;
      }
      var r := ReqWords(size);
      TrimmedCoalesced(bs, mem.brk - 1, blockInfo, r, size);
      if r == oldSize {
        Rename(blockInfo, size);
        KeptSame(mem.m, Live(bs));
        InPlace(old(mem.m), old(bs), mem.m, bs, blockInfo, size, bs[blockInfo]);
        TrimsBy(old(Now()), blockInfo, r, size, Now());
        ReallocsInPlace(old(Now()), mem.page, blockInfo, r, size, Now());
        return p, true;
      }
      if r < oldSize {
        Trim(blockInfo, r, oldSize, size, prec);
        ReallocsInPlace(old(Now()), mem.page, blockInfo, r, size, Now());
        InPlace(old(mem.m), old(bs), mem.m, bs, blockInfo, size, bs[blockInfo]);
        return p, true;
      }
      q, ok := Enlarge(blockInfo, r, oldSize, size, prec);
    }

    /** mm_realloc to a larger block: grow into the free block after it if that
        is enough, otherwise move. */
    method Enlarge(a: int, r: int, n: int, size: int, prec: bool) returns (q: int, ok: bool)
      requires Valid() && a in Live(bs) && bs[a].n == n && 0 < size && r == ReqWords(size) && n < r && prec == PrecBit(mem.m[a])
      modifies mem.words, mem`m, mem`brk, `bs, `fl
      ensures Valid() && mem.brk >= old(mem.brk)
      ensures ok ==> Moved(old(mem.m), old(bs), mem.m, bs, a, q - 1, size)
      ensures !ok ==> mem.m == old(mem.m) && bs == old(bs) && mem.brk == old(mem.brk)
      ensures ok <==> Extensible(old(bs), a, r) || CanServe(old(bs), old(mem.brk), |mem.m|, mem.page, r)
      ensures ok ==> (q == a + 1 <==> Extensible(old(bs), a, r))
      ensures ok ==> Reallocs(old(Now()), mem.page, a, r, size, q - 1, Now())
      ensures old(Coalesced(bs)) ==> Coalesced(bs)
    {
      FollowingTags(mem.m, bs, mem.brk - 1, a, r);
      var next := mem.Load(a + n);
      if !UsedBit(next) && n + Words(next) >= r {
        GrowAndTrim(a, r, n, Words(next), size, prec);
        ReallocsInPlace(old(Now()), mem.page, a, r, size, Now());
        return a + 1, true;
      }
      q, ok := Move(a, n, size);
      if ok {
        ReallocsMoved(old(Now()), mem.page, a, r, size, q - 1, Now());
      }
    }

    method GrowAndTrim(a: int, r: int, n: int, k: int, size: int, prec: bool)
      requires Valid() && a in Live(bs) && bs[a].n == n && n < r <= n + k && Fits(Used(r, size)) && prec == PrecBit(mem.m[a])
      requires FreeAt(bs, a + n) && bs[a + n].n == k
      modifies mem.words, mem`m, `bs, `fl
      ensures Valid() && Moved(old(mem.m), old(bs), mem.m, bs, a, a, size) && Resizes(old(Now()), a, r, size, Now())
      ensures old(Coalesced(bs)) ==> Coalesced(bs)
    {
      GrownCoalesced(bs, mem.brk - 1, a, n, k, bs[a].req);
      Grow(a, n, k, prec);
      ghost var m1, bs1, u := mem.m, bs, Now();
      TrimmedCoalesced(bs, mem.brk - 1, a, r, size);
      Trim(a, r, n + k, size, prec);
      GrownThenTrimmed(old(mem.m), old(bs), m1, bs1, mem.m, bs, a, size);
      ResizesBy(old(Now()), a, r, size, u, Now());
    }
  }

  // ---------- free neighbours on a real heap ----------

  /** The heap of mm_init, extended by `w` words, is one free block. */
  lemma FirstExtension(w: int, t: Shape)
    requires MIN_WORDS <= w && Extends(Shape(map[1 := Free(4)], [1], 5), w, t)
    ensures t.bs == map[1 := Free(4 + w)] && t.fl == [1] && t.end == 5 + w
  {
    var s := Shape(map[1 := Free(4), 5 := Free(w)], [1], 5 + w);
    assert map[1 := Free(4)][5 := Free(w)] == s.bs;
    assert Merges(s, 5, t) && Shown(s, t, 0);
    var c, d :| MaximalRun(s.bs, s.end, c, d, 5) && MergesTo(s, c, d, t);
    assert Succ(s.bs, 1) == 5 && Succ(s.bs, 5) == 5 + w;
    assert c == 1 && d == 5 + w;
    OutsideCons(1, [], 1, 5 + w);
    assert Outside([], 1, 5 + w) == [] && [1] + [] == [1];
  }

  /** After mm_init and mm_malloc(88), for any page of at least 12 words, a free block follows. */
  lemma FirstCut(s: Shape, page: int, b: int, t: Shape)
    requires s == Shape(map[1 := Free(4)], [1], 5) && 12 <= page && Allocs(s, page, 12, 88, b, t)
    ensures b in t.bs && LeavesNeighbours(t.bs, b, 4)
  {
    var w := PageWords(12, page);
    assert Shown(s, t, 0) && !SomeFits(s.bs, 12);
    var u :| Extends(s, w, u) && FirstFit(u.fl, u.bs, 12, b) && Places(u, b, 12, 88, t);
    FirstExtension(w, u);
    assert b == 1 && Shown(u, t, 0);
  }

  /** mm_malloc(88) right after mm_init. */
  method FirstMalloc(heap: Heap) returns (p: int, ok: bool)
    requires heap.Valid() && Coalesced(heap.bs) && 12 <= heap.mem.page && heap.Now() == Shape(map[1 := Free(4)], [1], 5)
    modifies heap, heap.mem, heap.mem.words
    ensures |heap.mem.m| == |old(heap.mem.m)| && (ok <==> 6 + PageWords(12, heap.mem.page) <= |heap.mem.m|)
    ensures ok ==> heap.Valid() && Coalesced(heap.bs) && p - 1 in Live(heap.bs) && LeavesNeighbours(heap.bs, p - 1, 4)
  {
    ghost var s := heap.Now();
    NothingFits(s);
    p, ok := heap.Malloc(88);
    if ok {
      FirstCut(s, heap.mem.page, p - 1, heap.Now());
    }
  }

  /** mm_init, mm_malloc(88), mm_realloc(p, 8): if the storage has room for the first page,
      the heap ends with two free neighbours. */
  method ShrinkLeavesNeighbours(heap: Heap) returns (ok: bool)
    requires heap.mem.Valid() && 12 <= heap.mem.page && heap.mem.brk == 0
    modifies heap, heap.mem, heap.mem.words
    ensures ok <==> 6 + PageWords(12, heap.mem.page) <= |old(heap.mem.m)|
    ensures ok ==> heap.Valid() && !Coalesced(heap.bs)
  {
    ok := heap.Init();
    if !ok {
      return;
    }
    var p;
    p, ok := FirstMalloc(heap);
    if ok {
      p, ok := heap.Realloc(p, 8);
    }
  }

  lemma NothingFits(s: Shape)
    requires s == Shape(map[1 := Free(4)], [1], 5)
    ensures !SomeFits(s.bs, 12)
  {
  }
}
