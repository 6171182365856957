/** What the operations of the allocator do to the blocks and to the order of the free
    list, without the words that hold them. */
module HeapShapes {
  import opened Tags
  import opened Layout
  import opened FreeList
  import opened HeapProofs

  // ---------- taking blocks off the list ----------

  /** The elements that are not in [c, d), in their order. */
  ghost function Outside(fl: seq<int>, c: int, d: int): seq<int> {
    if fl == [] then []
    else if c <= fl[0] < d then Outside(fl[1..], c, d)
    else [fl[0]] + Outside(fl[1..], c, d)
  }

  lemma {:induction false} OutsideSame(fl: seq<int>, c: int, d: int)
    requires forall i :: 0 <= i < |fl| ==> !(c <= fl[i] < d)
    ensures Outside(fl, c, d) == fl
  {
    if fl != [] {
      OutsideSame(fl[1..], c, d);
      assert fl == [fl[0]] + fl[1..];
    }
  }

  lemma OutsideCons(a: int, fl: seq<int>, c: int, d: int)
    ensures Outside([a] + fl, c, d) == if c <= a < d then Outside(fl, c, d) else [a] + Outside(fl, c, d)
  {
    assert ([a] + fl)[1..] == fl;
  }

  /** Both intervals together, in either order. */
  lemma {:induction false} OutsideTwice(fl: seq<int>, c: int, d: int, e: int)
    requires c <= d <= e
    ensures Outside(Outside(fl, c, d), d, e) == Outside(fl, c, e)
    ensures Outside(Outside(fl, d, e), c, d) == Outside(fl, c, e)
  {
    if fl != [] {
      var a, tail := fl[0], fl[1..];
      OutsideTwice(tail, c, d, e);
      OutsideCons(a, Outside(tail, c, d), d, e);
      OutsideCons(a, Outside(tail, d, e), c, d);
    }
  }

  lemma {:induction false} DropOne(fl: seq<int>, k: int)
    requires 0 <= k < |fl| && forall i :: 0 <= i < |fl| && i != k ==> fl[i] != fl[k]
    ensures Outside(fl, fl[k], fl[k] + 1) == Without(fl, k)
    decreases k
  {
    var a, tail := fl[k], fl[1..];
    if k == 0 {
      OutsideSame(tail, a, a + 1);
    } else {
      DropOne(tail, k - 1);
      assert Without(fl, k) == [fl[0]] + Without(tail, k - 1);
    }
  }

  lemma SpreadDistinct(fl: seq<int>, top: int, i: int, k: int)
    requires Spread(fl, top) && 0 <= i < |fl| && 0 <= k < |fl| && i != k
    ensures fl[i] != fl[k]
  {
    assert if i < k then Disjoint3(fl[i], fl[k]) else Disjoint3(fl[k], fl[i]);
  }

  lemma WithoutOutside(fl: seq<int>, k: int, top: int)
    requires Spread(fl, top) && 0 <= k < |fl|
    ensures Without(fl, k) == Outside(fl, fl[k], fl[k] + 1)
  {
    forall i | 0 <= i < |fl| && i != k ensures fl[i] != fl[k] {
      SpreadDistinct(fl, top, i, k);
    }
    DropOne(fl, k);
  }

  lemma {:induction false} OutsideAgree(fl: seq<int>, c: int, d: int, e: int)
    requires forall i :: 0 <= i < |fl| ==> (c <= fl[i] < d <==> c <= fl[i] < e)
    ensures Outside(fl, c, d) == Outside(fl, c, e)
  {
    if fl != [] {
      OutsideAgree(fl[1..], c, d, e);
    }
  }

  lemma BlockOrNot(bs: Blocks, end: int, a: int, b: int)
    requires Tiled(bs, end) && a in bs && b in bs
    ensures b <= a < b + 1 <==> b <= a < Succ(bs, b)
  {
  }

  /** Taking the block `b` off the list takes off nothing else of its words. */
  lemma AgreeOnBlock(fl: seq<int>, bs: Blocks, end: int, b: int)
    requires Tiled(bs, end) && b in bs && forall a :: a in fl ==> FreeAt(bs, a)
    ensures Outside(fl, b, b + 1) == Outside(fl, b, Succ(bs, b))
  {
    forall i | 0 <= i < |fl| ensures b <= fl[i] < b + 1 <==> b <= fl[i] < Succ(bs, b) {
      assert fl[i] in fl;
      BlockOrNot(bs, end, fl[i], b);
    }
    OutsideAgree(fl, b, b + 1, Succ(bs, b));
  }

  // ---------- shapes ----------

  /** The blocks up to the final word `end`, and the free list. */
  datatype Shape = Shape(bs: Blocks, fl: seq<int>, end: int)

  /** A marker: a relation between two shapes is unfolded only where this is named for them. */
  ghost predicate Shown(s: Shape, t: Shape, x: int) { true }

  /** The free block `b`, which is off the list, is merged with the maximal run around it, and
      the result becomes the head of the list. */
  ghost predicate Merges(s: Shape, b: int, t: Shape) {
    forall x {:trigger Shown(s, t, x)} :: Shown(s, t, x) ==>
      t.end == s.end && exists c, d :: MaximalRun(s.bs, s.end, c, d, b) && MergesTo(s, c, d, t)
  }

  ghost predicate MergesTo(s: Shape, c: int, d: int, t: Shape) {
    t.bs == Fuse(s.bs, c, d, Free(d - c)) && t.fl == [c] + Outside(s.fl, c, d)
  }

  lemma MergesBy(s: Shape, b: int, c: int, d: int, t: Shape)
    requires t.end == s.end && MaximalRun(s.bs, s.end, c, d, b) && MergesTo(s, c, d, t)
    ensures Merges(s, b, t)
  {
  }

  /** mm_free. */
  ghost predicate Frees(s: Shape, a: int, t: Shape) {
    a in s.bs && Merges(s.(bs := s.bs[a := Free(s.bs[a].n)]), a, t)
  }

  /** requestMoreSpace, by `w` words. */
  ghost predicate Extends(s: Shape, w: int, t: Shape) {
    Merges(Shape(s.bs[s.end := Free(w)], s.fl, s.end + w), s.end, t)
  }

  lemma ExtendsBy(s: Shape, w: int, u: Shape, t: Shape)
    requires u == Shape(s.bs[s.end := Free(w)], s.fl, s.end + w) && Merges(u, s.end, t)
    ensures Extends(s, w, t)
  {
  }

  lemma FreesBy(s: Shape, a: int, u: Shape, t: Shape)
    requires a in s.bs && u == s.(bs := s.bs[a := Free(s.bs[a].n)]) && Merges(u, a, t)
    ensures Frees(s, a, t)
  {
  }

  /** What is left of block `a` after `r` words goes to the head of the list, if it is a block. */
  ghost function Rest(bs: Blocks, a: int, r: int): seq<int>
    requires a in bs
  {
    if bs[a].n - r >= MIN_WORDS then [a + r] else []
  }

  /** The tail of mm_malloc: `r` words of the free block `b`. */
  ghost predicate Places(s: Shape, b: int, r: int, size: int, t: Shape) {
    forall x {:trigger Shown(s, t, x)} :: Shown(s, t, x) ==>
      && b in s.bs && t.end == s.end && t.bs == Trimmed(s.bs, b, r, size)
      && t.fl == Rest(s.bs, b, r) + Outside(s.fl, b, Succ(s.bs, b))
  }

  lemma PlacesBy(s: Shape, b: int, r: int, size: int, rest: seq<int>, t: Shape)
    requires b in s.bs && t.end == s.end && t.bs == Trimmed(s.bs, b, r, size)
    requires rest == Outside(s.fl, b, Succ(s.bs, b)) && t.fl == if s.bs[b].n - r >= MIN_WORDS then [b + r] + rest else rest
    ensures Places(s, b, r, size, t)
  {
    assert [] + rest == rest;
  }

  /** mm_realloc takes over the free block after `a`. */
  ghost predicate Grows(s: Shape, a: int, t: Shape) {
    forall x {:trigger Shown(s, t, x)} :: Shown(s, t, x) ==>
      && a in s.bs && s.bs[a].Used? && FreeAt(s.bs, Succ(s.bs, a)) && t.end == s.end
      && var b := Succ(s.bs, a); var d := Succ(s.bs, b);
         t.bs == Fuse(s.bs, a, d, Used(d - a, s.bs[a].req)) && t.fl == Outside(s.fl, b, d)
  }

  lemma GrowsBy(s: Shape, a: int, n: int, k: int, t: Shape)
    requires a in s.bs && s.bs[a].Used? && s.bs[a].n == n && FreeAt(s.bs, a + n) && s.bs[a + n].n == k && t.end == s.end
    requires t.bs == Fuse(s.bs, a, a + n + k, Used(n + k, s.bs[a].req)) && t.fl == Outside(s.fl, a + n, a + n + k)
    ensures Grows(s, a, t)
  {
    assert Succ(s.bs, a) == a + n && Succ(s.bs, a + n) == a + n + k;
  }

  /** mm_realloc cuts `a` down to `r` words. */
  ghost predicate Trims(s: Shape, a: int, r: int, size: int, t: Shape) {
    forall x {:trigger Shown(s, t, x)} :: Shown(s, t, x) ==>
      a in s.bs && t.end == s.end && t.bs == Trimmed(s.bs, a, r, size) && t.fl == Rest(s.bs, a, r) + s.fl
  }

  lemma TrimsBy(s: Shape, a: int, r: int, size: int, t: Shape)
    requires a in s.bs && t.end == s.end && t.bs == Trimmed(s.bs, a, r, size)
    requires t.fl == if s.bs[a].n - r >= MIN_WORDS then [a + r] + s.fl else s.fl
    ensures Trims(s, a, r, size, t)
  {
    assert [] + s.fl == s.fl;
  }

  /** mm_realloc in place. */
  ghost predicate Resizes(s: Shape, a: int, r: int, size: int, t: Shape) {
    forall x {:trigger Shown(s, t, x)} :: Shown(s, t, x) ==>
      a in s.bs && if s.bs[a].n >= r then Trims(s, a, r, size, t) else exists u :: Grows(s, a, u) && Trims(u, a, r, size, t)
  }

  lemma ResizesBy(s: Shape, a: int, r: int, size: int, u: Shape, t: Shape)
    requires a in s.bs && s.bs[a].n < r && Grows(s, a, u) && Trims(u, a, r, size, t)
    ensures Resizes(s, a, r, size, t)
  {
  }

  /** The list without a free run that it does not touch is the list. */
  lemma OutsideListed(fl: seq<int>, bs: Blocks, end: int, b: int)
    requires Tiled(bs, end) && FreeAt(bs, b) && forall a :: a in fl <==> FreeAt(bs, a) && a != b
    ensures Outside(fl, b, Succ(bs, b)) == fl
  {
    forall i | 0 <= i < |fl| ensures !(b <= fl[i] < Succ(bs, b)) {
      assert fl[i] in fl;
    }
    OutsideSame(fl, b, Succ(bs, b));
  }

  lemma OutsideThree(fl: seq<int>, c: int, b: int, e: int, d: int)
    requires c <= b <= e <= d
    ensures Outside(Outside(Outside(fl, c, b), e, d), b, e) == Outside(fl, c, d)
  {
    OutsideTwice(Outside(fl, c, b), b, e, d);
    OutsideTwice(fl, c, b, d);
  }

  /** coalesceFreeBlock: the list stays as it is when the run is the block itself. */
  ghost function Relisted(fl: seq<int>, bs: Blocks, b: int, c: int, d: int): seq<int>
    requires b in bs
  {
    if d - c == bs[b].n then fl else [c] + Outside(fl, c, d)
  }

  /** The same when the other blocks of the run are off the list already. */
  ghost function Committed(fl: seq<int>, bs: Blocks, b: int, c: int, d: int): seq<int>
    requires b in bs
  {
    if d - c == bs[b].n then fl else [c] + Outside(fl, b, Succ(bs, b))
  }

  /** The list once both loops of coalesceFreeBlock are done. */
  lemma GatheredList(fl: seq<int>, fl1: seq<int>, bs: Blocks, end: int, b: int, c: int, d: int)
    requires Tiled(bs, end) && MaximalRun(bs, end, c, d, b) && b in bs && c <= b && Succ(bs, b) <= d
    requires fl1 == Outside(Outside(fl, c, b), Succ(bs, b), d)
    ensures Relisted(fl, bs, b, c, d) == Committed(fl1, bs, b, c, d)
  {
    if d - c == bs[b].n {
      RunOfOne(bs, end, c, d, b);
      OutsideSame(fl, b, b);
      OutsideSame(fl, d, d);
    } else {
      OutsideThree(fl, c, b, Succ(bs, b), d);
    }
  }

  /** insertFreeBlock and coalesceFreeBlock together. */
  lemma ReleasedMerges(s: Shape, b: int, c: int, d: int, t: Shape)
    requires Tiled(s.bs, s.end) && FreeAt(s.bs, b) && (forall a :: a in s.fl <==> FreeAt(s.bs, a) && a != b)
    requires MaximalRun(s.bs, s.end, c, d, b) && t == Shape(Fuse(s.bs, c, d, Free(d - c)), Relisted([b] + s.fl, s.bs, b, c, d), s.end)
    ensures Merges(s, b, t)
  {
    if d - c == s.bs[b].n {
      RunOfOne(s.bs, s.end, c, d, b);
      OutsideListed(s.fl, s.bs, s.end, b);
    } else {
      OutsideCons(b, s.fl, c, d);
    }
    assert MergesTo(s, c, d, t);
  }
}
