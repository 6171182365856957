/** What the invariant of the allocator means to its callers. */
module HeapTheorems {
  import opened Tags
  import opened Layout
  import opened FreeList
  import opened HeapProofs

  // ---------- the implicit walk ----------

  /** The blocks met when walking the heap by header sizes alone, as
      examine_heap does (uw_cse351/lab5/mm.c:538-540). */
  ghost function Walk(m: seq<int>, a: int): seq<int>
    decreases |m| - a
  {
    if 0 <= a < |m| && Words(m[a]) > 0 then [a] + Walk(m, a + Words(m[a])) else []
  }

  lemma {:induction false} WalkFrom(m: seq<int>, bs: Blocks, end: int, a: int)
    requires Tiled(bs, end) && Tagged(m, bs, end) && (a in bs || a == end)
    ensures forall b :: b in Walk(m, a) <==> b in bs && a <= b
    ensures forall i, j :: 0 <= i < j < |Walk(m, a)| ==> Walk(m, a)[i] < Walk(m, a)[j]
    decreases end - a
  {
    if a in bs {
      assert TagsOf(m, a, bs[a]);
      WalkFrom(m, bs, end, Succ(bs, a));
      var rest := Walk(m, Succ(bs, a));
      assert Walk(m, a) == [a] + rest;
      forall i | 0 <= i < |rest| ensures a < rest[i] {
        assert rest[i] in rest;
      }
    }
  }

  /** The walk, the tags and the free list show the same heap: the walk from the
      second word meets every block once and stops at the final word, and the
      free list holds exactly the blocks of the walk that are tagged free. */
  lemma ThreeViews(m: seq<int>, bs: Blocks, end: int, fl: seq<int>)
    requires HeapFull(m, bs, end, fl)
    ensures forall a :: a in Walk(m, 1) <==> a in bs
    ensures forall i, j :: 0 <= i < j < |Walk(m, 1)| ==> Walk(m, 1)[i] < Walk(m, 1)[j]
    ensures forall a :: a in fl <==> a in Walk(m, 1) && 0 <= a < |m| && !UsedBit(m[a])
    ensures forall i, j :: 0 <= i < j < |fl| ==> fl[i] != fl[j]
  {
    WalkFrom(m, bs, end, 1);
    forall a | a in bs ensures UsedBit(m[a]) == bs[a].Used? {
      assert TagsOf(m, a, bs[a]);
    }
    forall i, j | 0 <= i < j < |fl| ensures fl[i] != fl[j] {
      assert Disjoint3(fl[i], fl[j]);
    }
  }

  ghost function SumWords(bs: Blocks, end: int, a: int): int
    requires Tiled(bs, end) && (a in bs || a == end)
    decreases end - a
  {
    if a in bs then bs[a].n + SumWords(bs, end, Succ(bs, a)) else 0
  }

  /** Conservation: the sizes of all blocks add up to the heap without its first
      and last word. */
  lemma {:induction false} BlocksFillHeap(bs: Blocks, end: int, a: int)
    requires Tiled(bs, end) && (a in bs || a == end)
    ensures SumWords(bs, end, a) == end - a
    decreases end - a
  {
    if a in bs {
      BlocksFillHeap(bs, end, Succ(bs, a));
    }
  }

  // ---------- live payloads ----------

  /** Live payloads lie inside the heap, hold the requested bytes and do not
      overlap.  Byte addresses are `base + 8 * word`. */
  lemma LivePayloads(bs: Blocks, end: int, base: int, a: int, b: int)
    requires Tiled(bs, end) && base % 8 == 0 && a in Live(bs) && b in Live(bs)
    ensures var lo, hi := base + 8 * (a + 1), base + 8 * (a + 1) + bs[a].req - 1;
      lo % 8 == 0 && base <= lo <= hi < base + 8 * end
    ensures a != b ==>
      base + 8 * (a + 1) + bs[a].req - 1 < base + 8 * b || base + 8 * (b + 1) + bs[b].req - 1 < base + 8 * a
  {
    assert (base + 8 * (a + 1)) % 8 == 0;
    if a < b {
      assert a + bs[a].n <= b;
    } else if b < a {
      assert b + bs[b].n <= a;
    }
  }

  ghost function Bytes(x: Block): int {
    if x.Used? then x.req else 0
  }

  ghost function Pick<T>(s: set<T>): (x: T)
    requires s != {}
    ensures x in s
  {
    var x :| x in s;
    x
  }

  /** The bytes requested for the blocks at `keys`. */
  ghost function BytesAt(lv: Blocks, keys: set<int>): int
    requires keys <= lv.Keys
  {
    if keys == {} then 0 else var a := Pick(keys); Bytes(lv[a]) + BytesAt(lv, keys - {a})
  }

  /** The bytes in use. */
  ghost function LiveBytes(lv: Blocks): int {
    BytesAt(lv, lv.Keys)
  }

  lemma {:induction false} BytesWithout(lv: Blocks, keys: set<int>, a: int)
    requires keys <= lv.Keys && a in keys
    ensures BytesAt(lv, keys) == Bytes(lv[a]) + BytesAt(lv, keys - {a})
  {
    var b := Pick(keys);
    if a != b {
      BytesWithout(lv, keys - {b}, a);
      BytesWithout(lv, keys - {a}, b);
      assert keys - {b} - {a} == keys - {a} - {b};
    }
  }

  lemma {:induction false} BytesSame(lv: Blocks, lv2: Blocks, keys: set<int>)
    requires keys <= lv.Keys && keys <= lv2.Keys && forall a :: a in keys ==> lv[a] == lv2[a]
    ensures BytesAt(lv, keys) == BytesAt(lv2, keys)
  {
    if keys != {} {
      var a := Pick(keys);
      BytesWithout(lv, keys, a);
      BytesWithout(lv2, keys, a);
      BytesSame(lv, lv2, keys - {a});
    }
  }

  lemma LiveBytesAdded(lv: Blocks, a: int, x: Block)
    requires a !in lv
    ensures LiveBytes(lv[a := x]) == Bytes(x) + LiveBytes(lv)
  {
    var lv2 := lv[a := x];
    BytesWithout(lv2, lv2.Keys, a);
    assert lv2.Keys - {a} == lv.Keys;
    BytesSame(lv, lv2, lv.Keys);
  }

  lemma LiveBytesRemoved(lv: Blocks, a: int)
    requires a in lv
    ensures LiveBytes(lv - {a}) == LiveBytes(lv) - Bytes(lv[a])
  {
    LiveBytesAdded(lv - {a}, a, lv[a]);
    assert (lv - {a})[a := lv[a]] == lv;
  }

  lemma Last(keys: set<int>) returns (a: int)
    requires keys != {}
    ensures a in keys && forall b :: b in keys ==> b <= a
  {
    a := Pick(keys);
    var rest := keys - {a};
    assert forall b :: b in keys ==> b == a || b in rest;
    if rest != {} {
      var b := Last(rest);
      a := if a < b then b else a;
    }
  }

  /** Disjoint blocks from `lo` on that end at `hi` hold no more bytes than fit there. */
  lemma {:induction false} PackedBytes(bs: Blocks, end: int, keys: set<int>, hi: int)
    requires Tiled(bs, end) && 1 <= hi && keys <= bs.Keys
    requires forall a :: a in keys ==> a + bs[a].n <= hi
    ensures 0 <= BytesAt(bs, keys) <= 8 * (hi - 1)
  {
    if keys != {} {
      var a := Last(keys);
      BytesWithout(bs, keys, a);
      PackedBytes(bs, end, keys - {a}, a);
    }
  }

  /** The bytes that the program has asked for never exceed the heap. */
  lemma LiveBytesBound(bs: Blocks, end: int)
    requires Tiled(bs, end)
    ensures 0 <= LiveBytes(Live(bs)) <= 8 * (end - 1)
  {
    PackedBytes(bs, end, Live(bs).Keys, end);
    BytesSame(bs, Live(bs), Live(bs).Keys);
  }
}
