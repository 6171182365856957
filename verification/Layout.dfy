/** What the heap of uw_cse351/lab5/mm.c looks like: the tiling of the heap by
    blocks, the boundary tags that record it, and how both change when blocks
    are fused, cut or added.  Addresses count words of 8 bytes from
    mem_heap_lo(); word 0 holds FREE_LIST_HEAD and 0 stands for NULL. */
module Layout {
  import opened Tags

  /** A block of `n` words including its header; a used block remembers the
      number of bytes that the program asked for. */
  datatype Block = Free(n: int) | Used(n: int, req: int)

  /** The blocks of the heap, by the address of their header. */
  type Blocks = map<int, Block>

  predicate FreeAt(bs: Blocks, a: int) { a in bs && bs[a].Free? }

  /** The address just after block `a`. */
  function Succ(bs: Blocks, a: int): int
    requires a in bs
  {
    a + bs[a].n
  }

  predicate Fits(x: Block) {
    && x.n >= MIN_WORDS
    && (x.Used? ==> 0 < x.req <= 8 * (x.n - 1))
  }

  ghost predicate Sized(bs: Blocks, end: int) {
    forall a :: a in bs ==> 1 <= a && a + bs[a].n <= end && Fits(bs[a])
  }

  /** The trigger keeps the solver from walking the whole chain of blocks. */
  ghost predicate Chained(bs: Blocks, end: int) {
    forall a {:trigger Succ(bs, a)} :: a in bs ==> Succ(bs, a) == end || Succ(bs, a) in bs
  }

  ghost predicate Apart(bs: Blocks) {
    forall a, b :: a in bs && b in bs && a < b ==> a + bs[a].n <= b
  }

  /** The blocks tile the words from 1 up to, not including, the final word `end`. */
  ghost predicate Tiled(bs: Blocks, end: int) {
    1 in bs && Sized(bs, end) && Chained(bs, end) && Apart(bs)
  }

  /** The header of block `a`, the preceding-used bit after it and, when it is
      free, its footer say that it is the block `x`. */
  predicate TagsOf(m: seq<int>, a: int, x: Block)
    requires 0 <= a && x.n >= MIN_WORDS && a + x.n < |m|
  {
    && Words(m[a]) == x.n && UsedBit(m[a]) == x.Used?
    && PrecBit(m[a + x.n]) == x.Used?
    && (x.Free? ==> Words(m[a + x.n - 1]) == x.n)
  }

  /** All tags tell the truth about the tiling, and the final word looks like
      the header of a used block of size 0. */
  ghost predicate Tagged(m: seq<int>, bs: Blocks, end: int)
    requires Tiled(bs, end)
  {
    && 0 < end < |m|
    && (forall a {:trigger TagsOf(m, a, bs[a])} :: a in bs ==> TagsOf(m, a, bs[a]))
    && PrecBit(m[1]) && UsedBit(m[end]) && Words(m[end]) == 0
  }

  /** The used blocks. */
  ghost function Live(bs: Blocks): Blocks {
    map a | a in bs && bs[a].Used? :: bs[a]
  }

  /** The payload of the block of `n` words at `a` is the same in `m` and `m2`. */
  ghost predicate SamePayload(m: seq<int>, m2: seq<int>, a: int, n: int)
    requires |m| == |m2|
  {
    forall i :: a < i < a + n && 0 <= i < |m| ==> m2[i] == m[i]
  }

  /** No word of the payload of a block of `lv` differs between `m` and `m2`. */
  ghost predicate Kept(m: seq<int>, m2: seq<int>, lv: Blocks) {
    && |m| == |m2|
    && forall a {:trigger SamePayload(m, m2, a, lv[a].n)} :: a in lv ==> SamePayload(m, m2, a, lv[a].n)
  }

  // ---------- predecessors ----------

  lemma {:induction false} PredecessorFrom(bs: Blocks, end: int, c: int, a: int) returns (p: int)
    requires Tiled(bs, end) && c in bs && c < a && (a in bs || a == end)
    ensures p in bs && Succ(bs, p) == a
    decreases a - c
  {
    if Succ(bs, c) == a {
      p := c;
    } else {
      p := PredecessorFrom(bs, end, Succ(bs, c), a);
    }
  }

  /** Every block but the first has a block just before it, and so has `end`. */
  lemma Predecessor(bs: Blocks, end: int, a: int) returns (p: int)
    requires Tiled(bs, end) && a != 1 && (a in bs || a == end)
    ensures p in bs && Succ(bs, p) == a
  {
    p := PredecessorFrom(bs, end, 1, a);
  }

  // ---------- fusing the blocks of [c, d) into one block x ----------

  ghost predicate Run(bs: Blocks, end: int, c: int, d: int) {
    c in bs && c < d && (d in bs || d == end)
  }

  ghost function Fuse(bs: Blocks, c: int, d: int, x: Block): Blocks {
    map a | a in bs && !(c < a < d) :: if a == c then x else bs[a]
  }

  lemma FuseChained(bs: Blocks, end: int, c: int, d: int, x: Block)
    requires Tiled(bs, end) && Run(bs, end, c, d) && x.n == d - c
    ensures Chained(Fuse(bs, c, d, x), end)
  {
    var bs2 := Fuse(bs, c, d, x);
    forall a | a in bs2 ensures Succ(bs2, a) == end || Succ(bs2, a) in bs2 {
      assert a == c || Succ(bs2, a) == Succ(bs, a);
    }
  }

  lemma FuseTiled(bs: Blocks, end: int, c: int, d: int, x: Block)
    requires Tiled(bs, end) && Run(bs, end, c, d) && x.n == d - c && Fits(x)
    ensures Tiled(Fuse(bs, c, d, x), end)
  {
    FuseChained(bs, end, c, d, x);
  }

  /** What must be written so that `m2` describes the fused block. */
  ghost predicate FuseWrites(m: seq<int>, m2: seq<int>, c: int, d: int, x: Block)
    requires 0 <= c < d < |m|
  {
    && |m2| == |m|
    && (forall i :: 0 <= i < |m| && !(c <= i <= d) ==> m2[i] == m[i])
    && Words(m2[c]) == x.n && UsedBit(m2[c]) == x.Used? && PrecBit(m2[c]) == PrecBit(m[c])
    && Words(m2[d]) == Words(m[d]) && UsedBit(m2[d]) == UsedBit(m[d]) && PrecBit(m2[d]) == x.Used?
    && (x.Free? ==> Words(m2[d - 1]) == x.n)
  }

  /** Blocks outside the run keep their tags. */
  lemma FuseOther(m: seq<int>, m2: seq<int>, bs: Blocks, end: int, c: int, d: int, x: Block, a: int)
    requires Tiled(bs, end) && Tagged(m, bs, end) && Run(bs, end, c, d) && x.n == d - c
    requires d <= end && FuseWrites(m, m2, c, d, x)
    requires a in bs && (a < c || d <= a)
    ensures TagsOf(m2, a, bs[a])
  {
    assert TagsOf(m, a, bs[a]);
    if a < c {
      assert a + bs[a].n <= c;
    }
  }

  lemma FuseTagged(m: seq<int>, m2: seq<int>, bs: Blocks, end: int, c: int, d: int, x: Block)
    requires Tiled(bs, end) && Tagged(m, bs, end) && Run(bs, end, c, d) && x.n == d - c && Fits(x)
    requires d <= end && FuseWrites(m, m2, c, d, x)
    ensures Tiled(Fuse(bs, c, d, x), end) && Tagged(m2, Fuse(bs, c, d, x), end)
  {
    FuseTiled(bs, end, c, d, x);
    var bs2 := Fuse(bs, c, d, x);
    forall a | a in bs2 ensures TagsOf(m2, a, bs2[a]) {
      if a != c {
        FuseOther(m, m2, bs, end, c, d, x, a);
      }
    }
  }

  // ---------- cutting block c into a used block of r words and a free rest ----------

  ghost function Cut(bs: Blocks, c: int, r: int, req: int): Blocks
    requires c in bs
  {
    bs[c := Used(r, req)][c + r := Free(bs[c].n - r)]
  }

  ghost predicate Cuttable(bs: Blocks, c: int, r: int, req: int) {
    c in bs && Fits(Used(r, req)) && bs[c].n - r >= MIN_WORDS
  }

  lemma CutChained(bs: Blocks, end: int, c: int, r: int, req: int)
    requires Tiled(bs, end) && Cuttable(bs, c, r, req)
    ensures Chained(Cut(bs, c, r, req), end)
  {
    var bs2 := Cut(bs, c, r, req);
    forall a | a in bs2 ensures Succ(bs2, a) == end || Succ(bs2, a) in bs2 {
      assert a == c + r ==> Succ(bs2, a) == Succ(bs, c);
      assert a != c && a != c + r ==> Succ(bs2, a) == Succ(bs, a);
    }
  }

  lemma CutTiled(bs: Blocks, end: int, c: int, r: int, req: int)
    requires Tiled(bs, end) && Cuttable(bs, c, r, req)
    ensures Tiled(Cut(bs, c, r, req), end)
  {
    CutChained(bs, end, c, r, req);
  }

  ghost predicate CutWrites(m: seq<int>, m2: seq<int>, c: int, r: int, d: int)
    requires 0 <= c < c + r < d < |m|
  {
    && |m2| == |m|
    && (forall i :: 0 <= i < |m| && !(c <= i <= d) ==> m2[i] == m[i])
    && Words(m2[c]) == r && UsedBit(m2[c]) && PrecBit(m2[c]) == PrecBit(m[c])
    && Words(m2[c + r]) == d - c - r && !UsedBit(m2[c + r]) && PrecBit(m2[c + r])
    && Words(m2[d - 1]) == d - c - r
    && Words(m2[d]) == Words(m[d]) && UsedBit(m2[d]) == UsedBit(m[d]) && !PrecBit(m2[d])
  }

  lemma CutOther(m: seq<int>, m2: seq<int>, bs: Blocks, end: int, c: int, r: int, req: int, a: int)
    requires Tiled(bs, end) && Tagged(m, bs, end) && Cuttable(bs, c, r, req)
    requires CutWrites(m, m2, c, r, c + bs[c].n)
    requires a in bs && a != c
    ensures TagsOf(m2, a, bs[a])
  {
    assert TagsOf(m, a, bs[a]);
    if a < c {
      assert a + bs[a].n <= c;
    }
  }

  lemma CutTagged(m: seq<int>, m2: seq<int>, bs: Blocks, end: int, c: int, r: int, req: int)
    requires Tiled(bs, end) && Tagged(m, bs, end) && Cuttable(bs, c, r, req)
    requires CutWrites(m, m2, c, r, c + bs[c].n)
    ensures Tiled(Cut(bs, c, r, req), end) && Tagged(m2, Cut(bs, c, r, req), end)
  {
    CutTiled(bs, end, c, r, req);
    forall a | a in bs && a != c
      ensures TagsOf(m2, a, bs[a])
    {
      CutOther(m, m2, bs, end, c, r, req, a);
    }
  }

  // ---------- adding w words at the end of the heap ----------

  lemma ExtendTiled(bs: Blocks, end: int, w: int)
    requires Tiled(bs, end) && w >= MIN_WORDS
    ensures Tiled(bs[end := Free(w)], end + w)
  {
    var bs2 := bs[end := Free(w)];
    forall a | a in bs2 ensures Succ(bs2, a) == end + w || Succ(bs2, a) in bs2 {
      assert a != end ==> Succ(bs2, a) == Succ(bs, a);
    }
  }

  ghost predicate ExtendWrites(m: seq<int>, m2: seq<int>, end: int, w: int)
    requires 0 <= end < end + w < |m| && w >= MIN_WORDS
  {
    && |m2| == |m|
    && (forall i :: 0 <= i < end ==> m2[i] == m[i])
    && m2[end] == Header(w, false, PrecBit(m[end]))
    && m2[end + w - 1] == Header(w, false, PrecBit(m[end]))
    && m2[end + w] == Header(0, true, false)
  }

  lemma ExtendTagged(m: seq<int>, m2: seq<int>, bs: Blocks, end: int, w: int)
    requires Tiled(bs, end) && Tagged(m, bs, end) && w >= MIN_WORDS
    requires end + w < |m| && ExtendWrites(m, m2, end, w)
    ensures Tiled(bs[end := Free(w)], end + w) && Tagged(m2, bs[end := Free(w)], end + w)
  {
    ExtendTiled(bs, end, w);
    forall a | a in bs ensures TagsOf(m2, a, bs[a]) {
      assert TagsOf(m, a, bs[a]);
    }
  }

  // ---------- words that the free list may write ----------

  /** Word `i` is unchanged, or is the list head or a link of a free block. */
  predicate SameOrLink(m: seq<int>, m2: seq<int>, bs: Blocks, i: int)
    requires 0 <= i < |m| == |m2|
  {
    m2[i] == m[i] || i == 0 || FreeAt(bs, i - 1) || FreeAt(bs, i - 2)
  }

  /** `m2` differs from `m` at most in the list head and in next and prev words
      of free blocks. */
  ghost predicate LinkFrame(m: seq<int>, m2: seq<int>, bs: Blocks) {
    && |m| == |m2|
    && forall i {:trigger SameOrLink(m, m2, bs, i)} :: 0 <= i < |m| ==> SameOrLink(m, m2, bs, i)
  }

  lemma LinkFrameTagged(m: seq<int>, m2: seq<int>, bs: Blocks, end: int)
    requires Tiled(bs, end) && Tagged(m, bs, end) && LinkFrame(m, m2, bs)
    ensures Tagged(m2, bs, end)
  {
    forall a | a in bs ensures TagsOf(m2, a, bs[a]) {
      assert TagsOf(m, a, bs[a]);
      assert Succ(bs, a) == end || Succ(bs, a) in bs;
      assert SameOrLink(m, m2, bs, a) && SameOrLink(m, m2, bs, a + bs[a].n) && SameOrLink(m, m2, bs, a + bs[a].n - 1);
    }
    assert SameOrLink(m, m2, bs, 1) && SameOrLink(m, m2, bs, end);
  }

  lemma LinkFrameKept(m: seq<int>, m2: seq<int>, bs: Blocks, end: int)
    requires Tiled(bs, end) && LinkFrame(m, m2, bs)
    ensures Kept(m, m2, Live(bs))
  {
    forall a, i | a in bs && bs[a].Used? && a < i < a + bs[a].n && 0 <= i < |m| ensures m2[i] == m[i] {
      assert SameOrLink(m, m2, bs, i);
    }
  }
}
