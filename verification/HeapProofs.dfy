/** How the three views of the allocator's heap, the tiling, the tags and the
    free list, stay together under the writes of uw_cse351/lab5/mm.c. */
module HeapProofs {
  import opened Tags
  import opened Layout
  import opened FreeList

  /** Tiling and tags agree, and the words link a list of free blocks. */
  ghost predicate HeapOk(m: seq<int>, bs: Blocks, end: int, fl: seq<int>) {
    && Tiled(bs, end) && Tagged(m, bs, end) && Linked(m, fl)
    && forall a :: a in fl ==> FreeAt(bs, a)
  }

  /** Moreover the list holds exactly the free blocks, each once. */
  ghost predicate HeapFull(m: seq<int>, bs: Blocks, end: int, fl: seq<int>) {
    HeapOk(m, bs, end, fl) && Listed(fl, bs, 0, 0, 0)
  }

  /** Within coalesceFreeBlock: [c, d) is a run of free blocks, all of them off
      the list except for `b`. */
  ghost predicate Gathered(m: seq<int>, bs: Blocks, end: int, fl: seq<int>, c: int, d: int, b: int) {
    && HeapOk(m, bs, end, fl) && Listed(fl, bs, c, d, b)
    && Run(bs, end, c, d) && AllFree(bs, c, d)
  }

  ghost predicate AllFree(bs: Blocks, c: int, d: int) {
    forall a :: a in bs && c <= a < d ==> bs[a].Free?
  }

  /** `fl` lists free blocks of `bs`, none of them in [c, d). */
  ghost predicate Clear(fl: seq<int>, bs: Blocks, c: int, d: int) {
    forall a :: a in fl ==> FreeAt(bs, a) && !(c <= a < d)
  }

  // ---------- the list ----------

  lemma ConsSpread(fl: seq<int>, bs: Blocks, end: int, b: int, top: int)
    requires Tiled(bs, end) && end < top && Spread(fl, top) && b in bs && b !in fl
    requires forall a :: a in fl ==> FreeAt(bs, a)
    ensures Spread([b] + fl, top)
  {
    var nl := [b] + fl;
    forall i | 0 < i < |nl| ensures Disjoint3(nl[0], nl[i]) && nl[i] == fl[i - 1] {
      assert fl[i - 1] in fl;
    }
  }

  lemma WithoutElement(fl: seq<int>, k: int, a: int, top: int)
    requires Spread(fl, top) && 0 <= k < |fl|
    ensures a in Without(fl, k) <==> a in fl && a != fl[k]
  {
    var nl := Without(fl, k);
    if a in fl && a != fl[k] {
      var j :| 0 <= j < |fl| && fl[j] == a;
      assert nl[if j < k then j else j - 1] == a;
    }
    if a in nl {
      var i :| 0 <= i < |nl| && nl[i] == a;
      var j := if i < k then i else i + 1;
      assert fl[j] == a && (if j < k then Disjoint3(fl[j], fl[k]) else Disjoint3(fl[k], fl[j]));
    }
  }

  lemma WithoutElements(fl: seq<int>, k: int, top: int)
    requires Spread(fl, top) && 0 <= k < |fl|
    ensures forall a :: a in Without(fl, k) <==> a in fl && a != fl[k]
  {
    forall a ensures a in Without(fl, k) <==> a in fl && a != fl[k] {
      WithoutElement(fl, k, a, top);
    }
  }

  /** Taking the neighbour `p` before a run off the list. */
  lemma GatherBack(fl: seq<int>, fl2: seq<int>, bs: Blocks, end: int, p: int, c: int, d: int, b: int)
    requires Tiled(bs, end) && FreeAt(bs, p) && Succ(bs, p) == c && c <= b < d
    requires Listed(fl, bs, c, d, b) && forall a :: a in fl2 <==> a in fl && a != p
    requires AllFree(bs, c, d)
    ensures Listed(fl2, bs, p, d, b) && AllFree(bs, p, d)
  {
    assert forall a :: a in bs && p <= a < c ==> a == p;
  }

  /** Taking the neighbour `d` after a run off the list. */
  lemma GatherForward(fl: seq<int>, fl2: seq<int>, bs: Blocks, end: int, c: int, d: int, b: int)
    requires Tiled(bs, end) && FreeAt(bs, d) && c <= b < d
    requires Listed(fl, bs, c, d, b) && forall a :: a in fl2 <==> a in fl && a != d
    requires AllFree(bs, c, d)
    ensures Listed(fl2, bs, c, Succ(bs, d), b) && AllFree(bs, c, Succ(bs, d))
  {
    assert forall a :: a in bs && d <= a < Succ(bs, d) ==> a == d;
  }

  lemma GatherStart(m: seq<int>, bs: Blocks, end: int, fl: seq<int>, b: int)
    requires HeapFull(m, bs, end, fl) && FreeAt(bs, b)
    ensures Gathered(m, bs, end, fl, b, Succ(bs, b), b)
  {
    assert forall a :: a in bs && b <= a < Succ(bs, b) ==> a == b;
  }

  /** The list never writes a header. */
  lemma HeaderKept(m: seq<int>, m2: seq<int>, bs: Blocks, end: int, a: int)
    requires Tiled(bs, end) && 0 < end < |m| && LinkFrame(m, m2, bs) && (a in bs || a == end)
    ensures m2[a] == m[a]
  {
    assert SameOrLink(m, m2, bs, a);
  }

  lemma LinkFrameTwice(m0: seq<int>, m1: seq<int>, m2: seq<int>, bs: Blocks)
    requires LinkFrame(m0, m1, bs) && LinkFrame(m1, m2, bs)
    ensures LinkFrame(m0, m2, bs)
  {
    forall i | 0 <= i < |m0| ensures SameOrLink(m0, m2, bs, i) {
      assert SameOrLink(m0, m1, bs, i) && SameOrLink(m1, m2, bs, i);
    }
  }

  /** The footer word before `c` leads back to a free block. */
  lemma PrecedingFree(m: seq<int>, bs: Blocks, end: int, c: int)
    requires Tiled(bs, end) && Tagged(m, bs, end) && c in bs && !PrecBit(m[c])
    ensures var p := c - Words(m[c - 1]); FreeAt(bs, p) && Succ(bs, p) == c
  {
    var p := Predecessor(bs, end, c);
    assert TagsOf(m, p, bs[p]);
  }

  /** The block before `d` is free when the run up to `d` is. */
  lemma AfterRun(m: seq<int>, bs: Blocks, end: int, c: int, d: int)
    requires Tiled(bs, end) && Tagged(m, bs, end) && Run(bs, end, c, d) && AllFree(bs, c, d)
    ensures d <= end && !PrecBit(m[d])
  {
    var p := Predecessor(bs, end, d);
    assert TagsOf(m, p, bs[p]) && c <= p;
  }

  // ---------- writes inside a run that is off the list ----------

  lemma RunLinked(m: seq<int>, m2: seq<int>, bs: Blocks, end: int, c: int, d: int, fl: seq<int>)
    requires Tiled(bs, end) && Run(bs, end, c, d) && Linked(m, fl) && Clear(fl, bs, c, d)
    requires |m2| == |m| && forall i :: 0 <= i < |m| && !(c <= i <= d) ==> m2[i] == m[i]
    ensures Linked(m2, fl)
  {
    forall i | 0 <= i < |fl| ensures LinkAt(m2, fl, i) {
      assert LinkAt(m, fl, i) && fl[i] in fl;
    }
  }

  lemma RunKept(m: seq<int>, m2: seq<int>, bs: Blocks, end: int, c: int, d: int)
    requires Tiled(bs, end) && Run(bs, end, c, d) && AllFree(bs, c + 1, d)
    requires |m2| == |m| && forall i :: 0 <= i < |m| && !(c <= i <= d) ==> m2[i] == m[i]
    ensures Kept(m, m2, Live(bs) - {c})
  {
  }

  lemma FuseClear(bs: Blocks, end: int, c: int, d: int, x: Block, fl: seq<int>)
    requires Tiled(bs, end) && Run(bs, end, c, d) && Clear(fl, bs, c, d)
    ensures Clear(fl, Fuse(bs, c, d, x), c, d)
  {
  }

  lemma FuseLive(bs: Blocks, c: int, d: int, x: Block)
    requires c in bs && AllFree(bs, c + 1, d)
    ensures Live(Fuse(bs, c, d, x)) == if x.Used? then Live(bs)[c := x] else Live(bs) - {c}
  {
  }

  /** Fusing keeps the views together and every other payload intact. */
  lemma FuseHeap(m: seq<int>, m2: seq<int>, bs: Blocks, end: int, c: int, d: int, x: Block, fl: seq<int>)
    requires HeapOk(m, bs, end, fl) && Clear(fl, bs, c, d) && Run(bs, end, c, d) && AllFree(bs, c + 1, d)
    requires x.n == d - c && Fits(x) && d <= end && FuseWrites(m, m2, c, d, x)
    ensures HeapOk(m2, Fuse(bs, c, d, x), end, fl) && Clear(fl, Fuse(bs, c, d, x), c, d)
    ensures Kept(m, m2, Live(bs) - {c})
  {
    FuseTagged(m, m2, bs, end, c, d, x);
    RunLinked(m, m2, bs, end, c, d, fl);
    RunKept(m, m2, bs, end, c, d);
    FuseClear(bs, end, c, d, x, fl);
  }

  lemma CutLive(bs: Blocks, end: int, c: int, r: int, req: int)
    requires Tiled(bs, end) && Cuttable(bs, c, r, req)
    ensures Live(Cut(bs, c, r, req)) == Live(bs)[c := Used(r, req)]
  {
    assert c + r !in bs;
  }

  lemma CutClear(bs: Blocks, end: int, c: int, r: int, req: int, fl: seq<int>)
    requires Tiled(bs, end) && Cuttable(bs, c, r, req) && Clear(fl, bs, c, Succ(bs, c))
    ensures Clear(fl, Cut(bs, c, r, req), c, Succ(bs, c))
  {
  }

  /** So does cutting. */
  lemma CutHeap(m: seq<int>, m2: seq<int>, bs: Blocks, end: int, c: int, r: int, req: int, fl: seq<int>)
    requires HeapOk(m, bs, end, fl) && Cuttable(bs, c, r, req) && Clear(fl, bs, c, Succ(bs, c))
    requires CutWrites(m, m2, c, r, c + bs[c].n)
    ensures HeapOk(m2, Cut(bs, c, r, req), end, fl) && Clear(fl, Cut(bs, c, r, req), c, Succ(bs, c))
    ensures Kept(m, m2, Live(bs) - {c})
  {
    CutTagged(m, m2, bs, end, c, r, req);
    RunLinked(m, m2, bs, end, c, Succ(bs, c), fl);
    RunKept(m, m2, bs, end, c, Succ(bs, c));
    CutClear(bs, end, c, r, req, fl);
  }

  lemma KeptTwice(m0: seq<int>, m1: seq<int>, m2: seq<int>, lv: Blocks)
    requires Kept(m0, m1, lv) && Kept(m1, m2, lv)
    ensures Kept(m0, m2, lv)
  {
    forall a | a in lv ensures SamePayload(m0, m2, a, lv[a].n) {
      assert SamePayload(m0, m1, a, lv[a].n) && SamePayload(m1, m2, a, lv[a].n);
    }
  }

  // ---------- coalescing ----------

  /** The two words that coalesceFreeBlock writes over the run [c, d). */
  function MergedWords(m: seq<int>, c: int, d: int): seq<int>
    requires 0 <= c < d < |m|
  {
    m[c := Header(d - c, false, true)][d - 1 := Header(d - c, false, true)]
  }

  lemma MergedWrites(m: seq<int>, c: int, d: int)
    requires 0 <= c < d - 2 && d < |m| && PrecBit(m[c]) && !PrecBit(m[d])
    ensures FuseWrites(m, MergedWords(m, c, d), c, d, Free(d - c))
  {
  }

  lemma MergedLive(bs: Blocks, c: int, d: int)
    requires c in bs && c < d && AllFree(bs, c, d)
    ensures Live(Fuse(bs, c, d, Free(d - c))) == Live(bs) - {c} == Live(bs)
  {
    FuseLive(bs, c, d, Free(d - c));
  }

  lemma MergedHeap(m: seq<int>, bs: Blocks, end: int, fl: seq<int>, c: int, d: int)
    requires HeapOk(m, bs, end, fl) && Run(bs, end, c, d) && AllFree(bs, c, d) && Clear(fl, bs, c, d)
    requires PrecBit(m[c])
    ensures d < |m| && Live(Fuse(bs, c, d, Free(d - c))) == Live(bs)
    ensures HeapOk(MergedWords(m, c, d), Fuse(bs, c, d, Free(d - c)), end, fl)
    ensures Clear(fl, Fuse(bs, c, d, Free(d - c)), c, d)
    ensures Kept(m, MergedWords(m, c, d), Live(bs))
  {
    AfterRun(m, bs, end, c, d);
    MergedWrites(m, c, d);
    FuseHeap(m, MergedWords(m, c, d), bs, end, c, d, Free(d - c), fl);
    MergedLive(bs, c, d);
  }

  /** [c, d) is the whole run of free blocks around `b`: the blocks on both
      sides, if any, are used. */
  ghost predicate MaximalRun(bs: Blocks, end: int, c: int, d: int, b: int) {
    && Run(bs, end, c, d) && c <= b < d && AllFree(bs, c, d)
    && (d == end || bs[d].Used?)
    && (c == 1 || exists p :: p in bs && Succ(bs, p) == c && bs[p].Used?)
  }

  lemma RunIsMaximal(m: seq<int>, bs: Blocks, end: int, c: int, d: int, b: int)
    requires Tiled(bs, end) && Tagged(m, bs, end) && Run(bs, end, c, d) && c <= b < d && AllFree(bs, c, d)
    requires d <= end && PrecBit(m[c]) && UsedBit(m[d])
    ensures MaximalRun(bs, end, c, d, b)
  {
    if d != end {
      assert TagsOf(m, d, bs[d]);
    }
    if c != 1 {
      var p := Predecessor(bs, end, c);
      assert TagsOf(m, p, bs[p]);
    }
  }

  /** Two free blocks are never neighbours. */
  ghost predicate Coalesced(bs: Blocks) {
    forall a {:trigger Succ(bs, a)} :: FreeAt(bs, a) ==> !FreeAt(bs, Succ(bs, a))
  }

  /** Free neighbours occur in [c, d) only. */
  ghost predicate CoalescedOutside(bs: Blocks, c: int, d: int) {
    forall a {:trigger Succ(bs, a)} :: FreeAt(bs, a) && FreeAt(bs, Succ(bs, a)) ==> c <= a < d
  }

  lemma MaximalCoalesced(bs: Blocks, end: int, c: int, d: int, b: int)
    requires Tiled(bs, end) && MaximalRun(bs, end, c, d, b) && CoalescedOutside(bs, c, d)
    ensures Coalesced(Fuse(bs, c, d, Free(d - c)))
  {
    var bs2 := Fuse(bs, c, d, Free(d - c));
    forall a | FreeAt(bs2, a) ensures !FreeAt(bs2, Succ(bs2, a)) {
      if a != c {
        assert Succ(bs2, a) == Succ(bs, a);
      }
    }
  }

  /** After a used block is marked free, free neighbours lie around it. */
  lemma FreedCoalescedOutside(bs: Blocks, end: int, b: int, c: int, d: int)
    requires Tiled(bs, end) && b in bs && bs[b].Used? && Coalesced(bs)
    requires MaximalRun(bs[b := Free(bs[b].n)], end, c, d, b)
    ensures CoalescedOutside(bs[b := Free(bs[b].n)], c, d)
  {
    var bs2 := bs[b := Free(bs[b].n)];
    forall a | FreeAt(bs2, a) && FreeAt(bs2, Succ(bs2, a)) ensures c <= a < d {
      assert Succ(bs2, a) == Succ(bs, a);
      assert a == b || Succ(bs, a) == b;
    }
  }

  // ---------- allocating a whole block ----------

  /** mm_malloc without a split. */
  function TakenWords(m: seq<int>, a: int, n: int): seq<int>
    requires 0 <= a < a + n < |m|
  {
    m[a + n := SetPrec(m[a + n])][a := SetUsed(m[a])]
  }

  /** What an operation on block `a` must achieve: the views stay together, `lv`
      are the live blocks now and no payload outside `a` has changed. */
  ghost predicate Became(m: seq<int>, bs: Blocks, m2: seq<int>, bs2: Blocks, end: int, fl: seq<int>, a: int, lv: Blocks) {
    && HeapOk(m2, bs2, end, fl) && Live(bs2) == lv
    && Kept(m, m2, Live(bs) - {a})
  }

  lemma OwnRun(m: seq<int>, bs: Blocks, end: int, fl: seq<int>, a: int)
    requires HeapOk(m, bs, end, fl) && a in bs && a !in fl
    ensures Run(bs, end, a, Succ(bs, a)) && AllFree(bs, a + 1, Succ(bs, a)) && Clear(fl, bs, a, Succ(bs, a))
    ensures Succ(bs, a) <= end && TagsOf(m, a, bs[a])
  {
    assert forall b :: b in bs && a <= b < Succ(bs, a) ==> b == a;
  }

  /** Rewriting the tags of one block that is off the list. */
  lemma RetagHeap(m: seq<int>, m2: seq<int>, bs: Blocks, end: int, fl: seq<int>, a: int, x: Block)
    requires HeapOk(m, bs, end, fl) && a in bs && a !in fl && x.n == bs[a].n && Fits(x)
    requires Succ(bs, a) < |m| && FuseWrites(m, m2, a, Succ(bs, a), x)
    ensures Became(m, bs, m2, bs[a := x], end, fl, a, if x.Used? then Live(bs)[a := x] else Live(bs) - {a})
  {
    OwnRun(m, bs, end, fl, a);
    FuseHeap(m, m2, bs, end, a, Succ(bs, a), x, fl);
    FuseLive(bs, a, Succ(bs, a), x);
    FuseOne(bs, end, a, x);
  }

  lemma FuseOne(bs: Blocks, end: int, a: int, x: Block)
    requires Tiled(bs, end) && a in bs
    ensures Fuse(bs, a, Succ(bs, a), x) == bs[a := x]
  {
  }

  lemma TakenHeap(m: seq<int>, bs: Blocks, end: int, fl: seq<int>, a: int, req: int)
    requires HeapOk(m, bs, end, fl) && FreeAt(bs, a) && a !in fl && Fits(Used(bs[a].n, req))
    ensures Succ(bs, a) < |m|
    ensures var x := Used(bs[a].n, req);
      Became(m, bs, TakenWords(m, a, bs[a].n), bs[a := x], end, fl, a, Live(bs)[a := x])
  {
    OwnRun(m, bs, end, fl, a);
    RetagHeap(m, TakenWords(m, a, bs[a].n), bs, end, fl, a, Used(bs[a].n, req));
  }

  // ---------- allocating part of a block ----------

  /** mm_malloc with a split. */
  function SplitWords(m: seq<int>, a: int, r: int, n: int): seq<int>
    requires 0 <= a < a + r < a + n < |m|
  {
    m[a := Header(r, true, PrecBit(m[a]))][a + r := Header(n - r, false, true)][a + n - 1 := Header(n - r, false, true)]
  }

  lemma SplitWrites(m: seq<int>, a: int, r: int, n: int)
    requires 0 <= a < a + r < a + n - 2 && a + n < |m| && !PrecBit(m[a + n]) && r >= 1
    ensures CutWrites(m, SplitWords(m, a, r, n), a, r, a + n)
  {
  }

  lemma SplitHeap(m: seq<int>, bs: Blocks, end: int, fl: seq<int>, a: int, r: int, req: int)
    requires HeapOk(m, bs, end, fl) && FreeAt(bs, a) && a !in fl && Cuttable(bs, a, r, req)
    ensures Succ(bs, a) < |m|
    ensures Became(m, bs, SplitWords(m, a, r, bs[a].n), Cut(bs, a, r, req), end, fl, a, Live(bs)[a := Used(r, req)])
  {
    OwnRun(m, bs, end, fl, a);
    SplitWrites(m, a, r, bs[a].n);
    CutHeap(m, SplitWords(m, a, r, bs[a].n), bs, end, a, r, req, fl);
    CutLive(bs, end, a, r, req);
  }

  // ---------- freeing ----------

  /** The tag words of mm_free. */
  function FreedWords(m: seq<int>, a: int, n: int): seq<int>
    requires 0 <= a < a + n < |m|
  {
    m[a + n := ClearPrec(m[a + n])][a := ClearUsed(m[a])][a + n - 1 := ClearUsed(m[a])]
  }

  lemma FreedWrites(m: seq<int>, a: int, n: int)
    requires 0 <= a < a + n < |m| && n >= MIN_WORDS && Words(m[a]) == n
    ensures FuseWrites(m, FreedWords(m, a, n), a, a + n, Free(n))
  {
  }

  lemma FreedHeap(m: seq<int>, bs: Blocks, end: int, fl: seq<int>, a: int)
    requires HeapOk(m, bs, end, fl) && a in bs && bs[a].Used?
    ensures a !in fl && Succ(bs, a) < |m|
    ensures Became(m, bs, FreedWords(m, a, bs[a].n), bs[a := Free(bs[a].n)], end, fl, a, Live(bs) - {a})
  {
    assert a !in fl;
    OwnRun(m, bs, end, fl, a);
    FreedWrites(m, a, bs[a].n);
    RetagHeap(m, FreedWords(m, a, bs[a].n), bs, end, fl, a, Free(bs[a].n));
  }

  lemma TakenCoalesced(bs: Blocks, a: int, x: Block)
    requires a in bs && x.Used? && x.n == bs[a].n
    ensures Coalesced(bs) ==> Coalesced(bs[a := x])
  {
    var bs2 := bs[a := x];
    forall b | Coalesced(bs) && FreeAt(bs2, b) ensures !FreeAt(bs2, Succ(bs2, b)) {
      assert Succ(bs2, b) == Succ(bs, b);
    }
  }

  lemma SplitCoalesced(bs: Blocks, end: int, a: int, r: int, req: int)
    requires Tiled(bs, end) && FreeAt(bs, a) && Cuttable(bs, a, r, req)
    ensures Coalesced(bs) ==> Coalesced(Cut(bs, a, r, req))
  {
    var bs2 := Cut(bs, a, r, req);
    forall b | Coalesced(bs) && FreeAt(bs2, b) ensures !FreeAt(bs2, Succ(bs2, b)) {
      if b == a + r {
        assert Succ(bs2, b) == Succ(bs, a);
      } else {
        assert Succ(bs2, b) == Succ(bs, b);
      }
    }
  }

  // ---------- realloc and free neighbours ----------

  /** What the in-place paths of mm_realloc make of the used block `a`. */
  ghost function Trimmed(bs: Blocks, a: int, r: int, req: int): Blocks
    requires a in bs
  {
    if bs[a].n - r >= MIN_WORDS then Cut(bs, a, r, req) else bs[a := Used(bs[a].n, req)]
  }

  /** Cutting `a` down to `r` words leaves a rest, and a free block follows it. */
  ghost predicate LeavesNeighbours(bs: Blocks, a: int, r: int)
    requires a in bs
  {
    bs[a].n - r >= MIN_WORDS && FreeAt(bs, Succ(bs, a))
  }

  lemma CutUsedCoalesced(bs: Blocks, end: int, a: int, r: int, req: int)
    requires Tiled(bs, end) && a in bs && bs[a].Used? && Cuttable(bs, a, r, req) && Coalesced(bs)
    ensures Coalesced(Cut(bs, a, r, req)) <==> !FreeAt(bs, Succ(bs, a))
  {
    var bs2 := Cut(bs, a, r, req);
    assert Succ(bs2, a + r) == Succ(bs, a);
    forall b | FreeAt(bs2, b) && b != a + r ensures !FreeAt(bs2, Succ(bs2, b)) {
      assert Succ(bs2, b) == Succ(bs, b);
    }
  }

  /** The split of mm_realloc does not coalesce: exactly then free neighbours arise. */
  lemma TrimmedCoalesced(bs: Blocks, end: int, a: int, r: int, req: int)
    requires Tiled(bs, end) && a in bs && bs[a].Used? && Fits(Used(r, req))
    ensures Coalesced(bs) ==> (Coalesced(Trimmed(bs, a, r, req)) <==> !LeavesNeighbours(bs, a, r))
  {
    TakenCoalesced(bs, a, Used(bs[a].n, req));
    if Coalesced(bs) && bs[a].n - r >= MIN_WORDS {
      CutUsedCoalesced(bs, end, a, r, req);
    }
  }

  /** Growing into the free block after `a` leaves none behind it. */
  lemma GrownCoalesced(bs: Blocks, end: int, a: int, n: int, k: int, req: int)
    requires Tiled(bs, end) && a in bs && bs[a] == Used(n, req) && FreeAt(bs, a + n) && bs[a + n].n == k
    ensures var bs2 := Fuse(bs, a, a + n + k, Used(n + k, req));
      a in bs2 && (Coalesced(bs) ==> Coalesced(bs2) && !FreeAt(bs2, Succ(bs2, a)))
  {
    var bs2 := Fuse(bs, a, a + n + k, Used(n + k, req));
    assert Succ(bs, a) == a + n && Succ(bs, a + n) == a + n + k == Succ(bs2, a);
    forall b | Coalesced(bs) && FreeAt(bs2, b) ensures !FreeAt(bs2, Succ(bs2, b)) {
      assert Succ(bs2, b) == Succ(bs, b);
    }
  }

  // ---------- more space ----------

  /** The words that requestMoreSpace writes for `w` new words. */
  function ExtendedWords(m: seq<int>, end: int, w: int): seq<int>
    requires 0 <= end < end + w < |m| && 1 < w
  {
    var h := Header(w, false, PrecBit(m[end]));
    m[end := h][end + w - 1 := h][end + w := Header(0, true, false)]
  }

  lemma ExtendedLinked(m: seq<int>, bs: Blocks, end: int, fl: seq<int>, w: int)
    requires HeapOk(m, bs, end, fl) && MIN_WORDS <= w && end + w < |m|
    ensures Linked(ExtendedWords(m, end, w), fl)
  {
    var m2 := ExtendedWords(m, end, w);
    forall i | 0 <= i < |fl| ensures LinkAt(m2, fl, i) {
      assert LinkAt(m, fl, i) && fl[i] in fl;
    }
  }

  lemma ExtendedHeap(m: seq<int>, bs: Blocks, end: int, fl: seq<int>, w: int)
    requires HeapOk(m, bs, end, fl) && MIN_WORDS <= w && end + w < |m|
    ensures end !in bs && end !in fl
    ensures Became(m, bs, ExtendedWords(m, end, w), bs[end := Free(w)], end + w, fl, end, Live(bs))
  {
    ExtendTagged(m, ExtendedWords(m, end, w), bs, end, w);
    ExtendedLinked(m, bs, end, fl, w);
  }

  lemma ExtendedCoalescedOutside(bs: Blocks, end: int, w: int, c: int, d: int)
    requires Tiled(bs, end) && MIN_WORDS <= w && Coalesced(bs)
    requires MaximalRun(bs[end := Free(w)], end + w, c, d, end)
    ensures CoalescedOutside(bs[end := Free(w)], c, d)
  {
    var bs2 := bs[end := Free(w)];
    ExtendTiled(bs, end, w);
    forall a | FreeAt(bs2, a) && FreeAt(bs2, Succ(bs2, a)) ensures c <= a < d {
      if a != end {
        assert Succ(bs2, a) == Succ(bs, a);
        assert Succ(bs, a) == end;
      }
    }
  }

  // ---------- growing a used block over the free block after it ----------

  function GrownWords(m: seq<int>, a: int, n: int, k: int): seq<int>
    requires 0 <= a < a + n < a + n + k < |m|
  {
    m[a := Header(n + k, true, PrecBit(m[a]))][a + n := 0][a + n + k := SetPrec(m[a + n + k])]
  }

  lemma GrownWrites(m: seq<int>, a: int, n: int, k: int, req: int)
    requires 0 <= a < a + n < a + n + k < |m|
    ensures FuseWrites(m, GrownWords(m, a, n, k), a, a + n + k, Used(n + k, req))
  {
  }

  lemma GrownRun(m: seq<int>, bs: Blocks, end: int, fl: seq<int>, a: int)
    requires HeapOk(m, bs, end, fl) && a in bs && a !in fl && FreeAt(bs, Succ(bs, a)) && Succ(bs, a) !in fl
    ensures var d := Succ(bs, Succ(bs, a));
      Run(bs, end, a, d) && d <= end && AllFree(bs, a + 1, d) && Clear(fl, bs, a, d)
  {
    var b := Succ(bs, a);
    assert Succ(bs, b) == end || Succ(bs, b) in bs;
    assert forall e :: e in bs && a <= e < Succ(bs, b) ==> e == a || e == b;
  }

  lemma FuseUsed(m: seq<int>, m2: seq<int>, bs: Blocks, end: int, fl: seq<int>, a: int, d: int, x: Block)
    requires HeapOk(m, bs, end, fl) && Run(bs, end, a, d) && d <= end && AllFree(bs, a + 1, d) && Clear(fl, bs, a, d)
    requires x.Used? && x.n == d - a && Fits(x) && FuseWrites(m, m2, a, d, x)
    ensures Became(m, bs, m2, Fuse(bs, a, d, x), end, fl, a, Live(bs)[a := x])
  {
    FuseHeap(m, m2, bs, end, a, d, x, fl);
    FuseLive(bs, a, d, x);
  }

  lemma GrownHeap(m: seq<int>, bs: Blocks, end: int, fl: seq<int>, a: int, n: int, k: int, req: int)
    requires HeapOk(m, bs, end, fl) && a in bs && bs[a] == Used(n, req) && a !in fl
    requires FreeAt(bs, a + n) && a + n !in fl && bs[a + n].n == k
    ensures Fits(Used(n + k, req)) && a + n + k < |m|
    ensures Became(m, bs, GrownWords(m, a, n, k), Fuse(bs, a, a + n + k, Used(n + k, req)), end, fl, a,
                   Live(bs)[a := Used(n + k, req)])
  {
    assert Succ(bs, a) == a + n && Succ(bs, a + n) == a + n + k;
    GrownRun(m, bs, end, fl, a);
    GrownWrites(m, a, n, k, req);
    FuseUsed(m, GrownWords(m, a, n, k), bs, end, fl, a, a + n + k, Used(n + k, req));
  }

  // ---------- shrinking a used block ----------

  function ShrunkWords(m: seq<int>, a: int, r: int, n: int): seq<int>
    requires 0 <= a < a + r < a + n < |m|
  {
    SplitWords(m, a, r, n)[a + n := ClearPrec(m[a + n])]
  }

  lemma ShrunkWrites(m: seq<int>, a: int, r: int, n: int)
    requires 0 <= a < a + r < a + n - 2 && a + n < |m| && r >= 1
    ensures CutWrites(m, ShrunkWords(m, a, r, n), a, r, a + n)
  {
  }

  lemma ShrunkHeap(m: seq<int>, bs: Blocks, end: int, fl: seq<int>, a: int, r: int, req: int)
    requires HeapOk(m, bs, end, fl) && a in bs && bs[a].Used? && a !in fl && Cuttable(bs, a, r, req)
    ensures Succ(bs, a) < |m|
    ensures Became(m, bs, ShrunkWords(m, a, r, bs[a].n), Cut(bs, a, r, req), end, fl, a, Live(bs)[a := Used(r, req)])
  {
    OwnRun(m, bs, end, fl, a);
    ShrunkWrites(m, a, r, bs[a].n);
    CutHeap(m, ShrunkWords(m, a, r, bs[a].n), bs, end, a, r, req, fl);
    CutLive(bs, end, a, r, req);
  }

  // ---------- the list after an operation ----------

  lemma ListedCons(fl: seq<int>, bs: Blocks, b: int)
    requires FreeAt(bs, b) && forall a :: a in fl <==> FreeAt(bs, a) && a != b
    ensures Listed([b] + fl, bs, 0, 0, 0)
  {
  }

  lemma ListedAdded(fl: seq<int>, bs: Blocks, b: int, x: Block)
    requires Listed(fl, bs, 0, 0, 0) && x.Free? && b !in fl
    ensures forall a :: a in fl <==> FreeAt(bs[b := x], a) && a != b
  {
  }

  lemma ListedTaken(fl: seq<int>, bs: Blocks, b: int, x: Block)
    requires x.Used? && forall a :: a in fl <==> FreeAt(bs, a) && a != b
    ensures Listed(fl, bs[b := x], 0, 0, 0)
  {
  }

  lemma ListedCut(fl: seq<int>, bs: Blocks, end: int, b: int, r: int, req: int)
    requires Tiled(bs, end) && Cuttable(bs, b, r, req) && forall a :: a in fl <==> FreeAt(bs, a) && a != b
    ensures forall a :: a in fl <==> FreeAt(Cut(bs, b, r, req), a) && a != b + r
    ensures FreeAt(Cut(bs, b, r, req), b + r)
  {
    assert b + r !in bs;
  }

  lemma NotLive(bs: Blocks, a: int)
    requires FreeAt(bs, a)
    ensures Live(bs) - {a} == Live(bs)
  {
  }

  /** Payloads kept for more blocks are kept for fewer. */
  lemma KeptPart(m: seq<int>, m2: seq<int>, more: Blocks, fewer: Blocks)
    requires Kept(m, m2, more)
    requires forall b :: b in fewer ==> b in more && more[b] == fewer[b]
    ensures Kept(m, m2, fewer)
  {
    forall b | b in fewer ensures SamePayload(m, m2, b, fewer[b].n) {
      assert SamePayload(m, m2, b, more[b].n);
    }
  }

  lemma KeptSame(m: seq<int>, lv: Blocks)
    ensures Kept(m, m, lv)
  {
  }

  lemma FuseListed(fl: seq<int>, bs: Blocks, end: int, c: int, d: int)
    requires Tiled(bs, end) && Run(bs, end, c, d) && forall a :: a in fl <==> FreeAt(bs, a) && !(c <= a < d)
    ensures forall a :: a in fl <==> FreeAt(Fuse(bs, c, d, Free(d - c)), a) && a != c
  {
  }

  lemma RunOfOne(bs: Blocks, end: int, c: int, d: int, b: int)
    requires Tiled(bs, end) && MaximalRun(bs, end, c, d, b) && b in bs && d - c == bs[b].n
    ensures c == b && d == b + bs[b].n
  {
  }

  lemma FuseAlone(bs: Blocks, end: int, b: int)
    requires Tiled(bs, end) && FreeAt(bs, b)
    ensures Fuse(bs, b, b + bs[b].n, Free(bs[b].n)) == bs
  {
    FuseOne(bs, end, b, Free(bs[b].n));
  }

  lemma ListedAlone(fl: seq<int>, bs: Blocks, end: int, b: int)
    requires Tiled(bs, end) && FreeAt(bs, b) && Listed(fl, bs, b, b + bs[b].n, b)
    ensures Listed(fl, bs, 0, 0, 0)
  {
    assert forall a :: a in bs && b <= a < Succ(bs, b) ==> a == b;
  }

  /** A run that did not grow is the old block alone. */
  lemma GatheredAlone(m: seq<int>, bs: Blocks, end: int, fl: seq<int>, c: int, d: int, b: int)
    requires Gathered(m, bs, end, fl, c, d, b) && MaximalRun(bs, end, c, d, b) && FreeAt(bs, b) && d - c == bs[b].n
    ensures HeapFull(m, bs, end, fl) && Fuse(bs, c, d, Free(d - c)) == bs
  {
    RunOfOne(bs, end, c, d, b);
    FuseAlone(bs, end, b);
    ListedAlone(fl, bs, end, b);
  }

  lemma ExtendedCoalesced(bs: Blocks, end: int, w: int, c: int, d: int)
    requires Tiled(bs, end) && MIN_WORDS <= w
    requires MaximalRun(bs[end := Free(w)], end + w, c, d, end)
    ensures Coalesced(bs) ==> Coalesced(Fuse(bs[end := Free(w)], c, d, Free(d - c)))
  {
    if Coalesced(bs) {
      ExtendTiled(bs, end, w);
      ExtendedCoalescedOutside(bs, end, w, c, d);
      MaximalCoalesced(bs[end := Free(w)], end + w, c, d, end);
    }
  }

  lemma FreedCoalesced(bs: Blocks, end: int, b: int, c: int, d: int)
    requires Tiled(bs, end) && b in bs && bs[b].Used?
    requires Tiled(bs[b := Free(bs[b].n)], end) && MaximalRun(bs[b := Free(bs[b].n)], end, c, d, b)
    ensures Coalesced(bs) ==> Coalesced(Fuse(bs[b := Free(bs[b].n)], c, d, Free(d - c)))
  {
    if Coalesced(bs) {
      FreedCoalescedOutside(bs, end, b, c, d);
      MaximalCoalesced(bs[b := Free(bs[b].n)], end, c, d, b);
    }
  }

  /** The merged block is at least as large as the block it grew from. */
  lemma MergedCovers(bs: Blocks, end: int, c: int, d: int, b: int)
    requires Tiled(bs, end) && MaximalRun(bs, end, c, d, b) && b in bs
    ensures FreeAt(Fuse(bs, c, d, Free(d - c)), c) && d - c >= bs[b].n
  {
  }

  // ---------- searching ----------

  ghost predicate SomeFits(bs: Blocks, r: int) { exists a :: FreeAt(bs, a) && bs[a].n >= r }

  /** `b` is the first block of the list that has `r` words. */
  ghost predicate FirstFit(fl: seq<int>, bs: Blocks, r: int, b: int) {
    exists k :: 0 <= k < |fl| && fl[k] == b && b in bs && bs[b].n >= r &&
      forall i :: 0 <= i < k && fl[i] in bs ==> bs[fl[i]].n < r
  }

  lemma SearchMeaning(m: seq<int>, bs: Blocks, end: int, fl: seq<int>, r: int, b: int, k: int)
    requires HeapFull(m, bs, end, fl) && 0 <= k <= |fl| && b == At(fl, k)
    requires forall i :: 0 <= i < k ==> Words(m[fl[i]]) < r
    requires k < |fl| ==> Words(m[fl[k]]) >= r
    ensures b != 0 <==> SomeFits(bs, r)
    ensures b != 0 ==> FreeAt(bs, b) && bs[b].n >= r && FirstFit(fl, bs, r, b)
  {
    forall i | 0 <= i < |fl| ensures fl[i] in bs && bs[fl[i]].n == Words(m[fl[i]]) {
      assert fl[i] in fl;
      assert TagsOf(m, fl[i], bs[fl[i]]);
    }
    if SomeFits(bs, r) {
      var a :| FreeAt(bs, a) && bs[a].n >= r;
      assert a in fl;
    }
  }

  // ---------- initial heap ----------

  function InitialWords(m: seq<int>): seq<int>
    requires |m| >= 6
  {
    m[1 := Header(4, false, true)][2 := 0][3 := 0][4 := Header(4, false, true)][5 := Header(0, true, false)][0 := 1]
  }

  lemma InitialHeap(m: seq<int>)
    requires |m| >= 6
    ensures HeapFull(InitialWords(m), map[1 := Free(4)], 5, [1]) && Coalesced(map[1 := Free(4)])
    ensures Live(map[1 := Free(4)]) == map[]
  {
    var m2, bs := InitialWords(m), map[1 := Free(4)];
    assert Succ(bs, 1) == 5;
    assert TagsOf(m2, 1, bs[1]);
    assert LinkAt(m2, [1], 0);
  }

  // ---------- payloads ----------

  lemma KeptWith(m: seq<int>, m2: seq<int>, lv: Blocks, a: int, x: Block)
    requires Kept(m, m2, lv - {a}) && SamePayload(m, m2, a, x.n)
    ensures Kept(m, m2, lv[a := x])
  {
    forall b | b in lv && b != a ensures SamePayload(m, m2, b, lv[b].n) {
      assert b in lv - {a} && SamePayload(m, m2, b, (lv - {a})[b].n);
    }
  }

  lemma GrownOwn(m: seq<int>, a: int, n: int, k: int)
    requires 0 <= a < a + n < a + n + k < |m|
    ensures SamePayload(m, GrownWords(m, a, n, k), a, n)
  {
  }

  lemma ShrunkOwn(m: seq<int>, a: int, r: int, n: int)
    requires 0 <= a < a + r < a + n - 1 && a + n < |m|
    ensures SamePayload(m, ShrunkWords(m, a, r, n), a, r)
  {
  }

  lemma FuseUsedListed(fl: seq<int>, bs: Blocks, end: int, a: int, d: int, x: Block)
    requires Tiled(bs, end) && a in bs && bs[a].Used? && FreeAt(bs, Succ(bs, a)) && d == Succ(bs, Succ(bs, a)) && x.Used?
    requires forall b :: b in fl <==> FreeAt(bs, b) && b != Succ(bs, a)
    ensures Listed(fl, Fuse(bs, a, d, x), 0, 0, 0)
  {
    assert forall b :: b in bs && a < b < d ==> b == Succ(bs, a);
  }

  /** The used block `a` with the free block after it, all told. */
  lemma AbsorbedHeap(m: seq<int>, bs: Blocks, end: int, fl: seq<int>, a: int, n: int, k: int, req: int)
    requires HeapOk(m, bs, end, fl) && a in bs && bs[a] == Used(n, req) && FreeAt(bs, a + n) && bs[a + n].n == k
    requires forall b :: b in fl <==> FreeAt(bs, b) && b != a + n
    ensures a + n + k < |m| && PrecBit(GrownWords(m, a, n, k)[a]) == PrecBit(m[a])
    ensures HeapFull(GrownWords(m, a, n, k), Fuse(bs, a, a + n + k, Used(n + k, req)), end, fl)
    ensures Live(Fuse(bs, a, a + n + k, Used(n + k, req))) == Live(bs)[a := Used(n + k, req)]
    ensures Kept(m, GrownWords(m, a, n, k), Live(bs))
  {
    assert Succ(bs, a) == a + n && Succ(bs, a + n) == a + n + k;
    GrownHeap(m, bs, end, fl, a, n, k, req);
    FuseUsedListed(fl, bs, end, a, a + n + k, Used(n + k, req));
    GrownOwn(m, a, n, k);
    KeptWith(m, GrownWords(m, a, n, k), Live(bs), a, bs[a]);
    assert Live(bs)[a := bs[a]] == Live(bs);
  }

  lemma ListedCutUsed(fl: seq<int>, bs: Blocks, end: int, b: int, r: int, req: int)
    requires Tiled(bs, end) && Cuttable(bs, b, r, req) && bs[b].Used? && Listed(fl, bs, 0, 0, 0)
    ensures forall a :: a in fl <==> FreeAt(Cut(bs, b, r, req), a) && a != b + r
    ensures FreeAt(Cut(bs, b, r, req), b + r) && b !in fl
  {
    assert b + r !in bs;
  }

  /** Only payload words of the used block `a` differ. */
  ghost predicate InPayload(m: seq<int>, m2: seq<int>, a: int, n: int) {
    |m| == |m2| && forall i :: 0 <= i < |m| && !(a < i < a + n) ==> m2[i] == m[i]
  }

  lemma PayloadTagged(m: seq<int>, m2: seq<int>, bs: Blocks, end: int, a: int)
    requires Tiled(bs, end) && Tagged(m, bs, end) && a in bs && bs[a].Used? && InPayload(m, m2, a, bs[a].n)
    ensures Tagged(m2, bs, end)
  {
    forall b | b in bs ensures TagsOf(m2, b, bs[b]) {
      assert TagsOf(m, b, bs[b]);
      assert b < a ==> b + bs[b].n <= a;
    }
  }

  /** The program may write anything into the payload of a used block. */
  lemma PayloadHeap(m: seq<int>, m2: seq<int>, bs: Blocks, end: int, fl: seq<int>, a: int)
    requires HeapFull(m, bs, end, fl) && a in bs && bs[a].Used? && InPayload(m, m2, a, bs[a].n)
    ensures HeapFull(m2, bs, end, fl) && Kept(m, m2, Live(bs) - {a})
  {
    assert a !in fl;
    OwnRun(m, bs, end, fl, a);
    PayloadTagged(m, m2, bs, end, a);
    RunLinked(m, m2, bs, end, a, Succ(bs, a), fl);
    RunKept(m, m2, bs, end, a, Succ(bs, a));
  }

  /** A used block may be recorded for another request that it can hold. */
  lemma RenamedHeap(m: seq<int>, bs: Blocks, end: int, fl: seq<int>, a: int, x: Block)
    requires HeapFull(m, bs, end, fl) && a in bs && bs[a].Used? && x.Used? && x.n == bs[a].n && Fits(x)
    ensures HeapFull(m, bs[a := x], end, fl) && Live(bs[a := x]) == Live(bs)[a := x]
  {
    assert a !in fl;
    OwnRun(m, bs, end, fl, a);
    RetagHeap(m, m, bs, end, fl, a, x);
    ListedRenamed(fl, bs, a, x);
  }

  lemma ListedRenamed(fl: seq<int>, bs: Blocks, a: int, x: Block)
    requires Listed(fl, bs, 0, 0, 0) && a in bs && bs[a].Used? && x.Used?
    ensures Listed(fl, bs[a := x], 0, 0, 0)
  {
  }

  // ---------- moving ----------

  /** The first `k` payload words of the block at `a` in `m` are those at `b` in `m2`. */
  ghost predicate SamePrefix(m: seq<int>, a: int, m2: seq<int>, b: int, k: int)
    requires |m| == |m2|
  {
    forall i :: b < i <= b + k && 0 <= i < |m2| && 0 <= i - b + a < |m| ==> m2[i] == m[i - b + a]
  }

  /** What mm_realloc owes for the block `a`, now at `b`. */
  ghost predicate Moved(m: seq<int>, bs: Blocks, m2: seq<int>, bs2: Blocks, a: int, b: int, size: int) {
    && a in Live(bs) && b in Live(bs2) && (b == a || b !in Live(bs)) && |m| == |m2|
    && bs2[b].req == size && Live(bs2) == (Live(bs) - {a})[b := bs2[b]]
    && Kept(m, m2, Live(bs) - {a})
    && SamePrefix(m, a, m2, b, (if bs[a].n <= bs2[b].n then bs[a].n else bs2[b].n) - 1)
  }

  lemma InPlace(m: seq<int>, bs: Blocks, m2: seq<int>, bs2: Blocks, a: int, size: int, x: Block)
    requires a in Live(bs) && a in Live(bs2) && bs2[a].req == size && Live(bs2) == Live(bs)[a := bs2[a]]
    requires |m| == |m2| && Kept(m, m2, Live(bs)[a := x]) && x.n == if bs[a].n <= bs2[a].n then bs[a].n else bs2[a].n
    ensures Moved(m, bs, m2, bs2, a, a, size)
  {
    var lv := Live(bs)[a := x];
    assert SamePayload(m, m2, a, lv[a].n);
    assert (Live(bs) - {a})[a := bs2[a]] == Live(bs)[a := bs2[a]];
    KeptPart(m, m2, lv, Live(bs) - {a});
  }

  lemma KeptOwn(m: seq<int>, m2: seq<int>, lv: Blocks, a: int, n: int)
    requires Kept(m, m2, lv) && a in lv && n <= lv[a].n
    ensures Kept(m, m2, lv[a := Free(n)])
  {
    assert SamePayload(m, m2, a, lv[a].n);
    forall b | b in lv && b != a ensures SamePayload(m, m2, b, lv[b].n) {
    }
  }

  /** Allocate, copy, free: the three steps of a move, m0 to m3. */
  lemma MoveChain(m0: seq<int>, bs0: Blocks, m1: seq<int>, bs1: Blocks, m2: seq<int>, m3: seq<int>, bs3: Blocks,
                  a: int, b: int, size: int)
    requires a in Live(bs0) && b in bs1 && bs1[b].Used? && bs1[b].req == size && b !in Live(bs0)
    requires Live(bs1) == Live(bs0)[b := bs1[b]] && Live(bs3) == Live(bs1) - {a}
    requires Kept(m0, m1, Live(bs0)) && Kept(m1, m2, Live(bs1) - {b}) && Kept(m2, m3, Live(bs3))
    requires bs0[a].n <= bs1[b].n && SamePrefix(m1, a, m2, b, bs0[a].n - 1)
    ensures Moved(m0, bs0, m3, bs3, a, b, size)
  {
    var lv := Live(bs0) - {a};
    assert Live(bs3)[b] == bs1[b] && Live(bs3) == lv[b := bs1[b]];
    KeptPart(m0, m1, Live(bs0), lv);
    KeptPart(m1, m2, Live(bs1) - {b}, lv);
    KeptPart(m2, m3, Live(bs3), lv);
    KeptTwice(m0, m1, m2, lv);
    KeptTwice(m0, m2, m3, lv);
    MovePrefix(m0, m1, m2, m3, a, b, bs0[a].n, bs1[b].n, Live(bs0), Live(bs3));
  }

  lemma MovePrefix(m0: seq<int>, m1: seq<int>, m2: seq<int>, m3: seq<int>, a: int, b: int, n: int, n2: int, lv0: Blocks, lv3: Blocks)
    requires a in lv0 && lv0[a].n == n && Kept(m0, m1, lv0) && b in lv3 && lv3[b].n == n2 && Kept(m2, m3, lv3)
    requires n <= n2 && |m1| == |m2| && SamePrefix(m1, a, m2, b, n - 1)
    ensures SamePrefix(m0, a, m3, b, n - 1)
  {
    assert SamePayload(m0, m1, a, lv0[a].n) && SamePayload(m2, m3, b, lv3[b].n);
  }

  /** Block `a` has `r` words, or would have them with the free block after it. */
  ghost predicate Extensible(bs: Blocks, a: int, r: int) {
    a in bs && (r <= bs[a].n || (FreeAt(bs, Succ(bs, a)) && r <= bs[a].n + bs[Succ(bs, a)].n))
  }

  /** The word after a block tells whether a large enough free block follows it. */
  lemma FollowingTags(m: seq<int>, bs: Blocks, end: int, a: int, r: int)
    requires Tiled(bs, end) && Tagged(m, bs, end) && a in bs && bs[a].n < r
    ensures a + bs[a].n < |m|
    ensures var next := m[a + bs[a].n]; Extensible(bs, a, r) <==> !UsedBit(next) && bs[a].n + Words(next) >= r
    ensures Extensible(bs, a, r) ==> FreeAt(bs, a + bs[a].n) && bs[a + bs[a].n].n == Words(m[a + bs[a].n])
  {
    var b := Succ(bs, a);
    if b in bs {
      assert TagsOf(m, b, bs[b]);
    }
  }

  lemma GrownThenTrimmed(m0: seq<int>, bs0: Blocks, m1: seq<int>, bs1: Blocks, m2: seq<int>, bs2: Blocks, a: int, size: int)
    requires a in Live(bs0) && a in Live(bs1) && a in Live(bs2) && bs0[a].n <= bs2[a].n <= bs1[a].n && bs2[a].req == size
    requires Live(bs1) == Live(bs0)[a := bs1[a]] && Live(bs2) == Live(bs1)[a := bs2[a]]
    requires Kept(m0, m1, Live(bs0)) && Kept(m1, m2, Live(bs1)[a := bs2[a]])
    ensures Moved(m0, bs0, m2, bs2, a, a, size)
  {
    var n := bs0[a].n;
    KeptOwn(m0, m1, Live(bs0), a, n);
    KeptOwn(m1, m2, Live(bs1)[a := bs2[a]], a, n);
    assert Live(bs1)[a := bs2[a]][a := Free(n)] == Live(bs0)[a := Free(n)];
    KeptTwice(m0, m1, m2, Live(bs0)[a := Free(n)]);
    assert Live(bs2) == Live(bs0)[a := bs2[a]];
    InPlace(m0, bs0, m2, bs2, a, size, Free(n));
  }
}
