/** What the driver writes into payloads and reads back (uw_cse351/lab5/mdriver.c:580-585,
    uw_cse351/lab5/mdriver-realloc.c:609-623).  A word holds eight bytes, the lowest first. */
module Contents {
  import opened Tags
  import opened Layout
  import opened HeapProofs
  import opened Allocator

  /** Byte `i` of a word, the lowest first. */
  function Byte(w: int, i: nat): int
    decreases i
  {
    if i == 0 then w % 256 else Byte(w / 256, i - 1)
  }

  /** Word `w` after its `k` low bytes have been set to `b`. */
  function FillWord(w: int, b: int, k: nat): int
    decreases k
  {
    if k == 0 then w else 256 * FillWord(w / 256, b, k - 1) + b
  }

  /** The low bytes are `b` and the others are those of `w`. */
  lemma {:induction false} FillWordBytes(w: int, b: int, k: nat, i: nat)
    requires 0 <= b < 256
    ensures Byte(FillWord(w, b, k), i) == if i < k then b else Byte(w, i)
    decreases k
  {
    if k > 0 && i > 0 {
      FillWordBytes(w / 256, b, k - 1, i - 1);
      assert FillWord(w, b, k) / 256 == FillWord(w / 256, b, k - 1);
    }
  }

  /** How many of the `size` bytes fall into word `j`. */
  function Covered(size: int, j: int): nat {
    if size - 8 * j < 0 then 0 else if size - 8 * j < 8 then size - 8 * j else 8
  }

  /** Word `j` of the payload at `p` after memset. */
  ghost predicate FilledAt(m: seq<int>, m2: seq<int>, p: int, b: int, size: int, j: int)
    requires |m| == |m2| && 0 <= p + j < |m|
  {
    m2[p + j] == FillWord(m[p + j], b, Covered(size, j))
  }

  ghost predicate FilledTo(m: seq<int>, m2: seq<int>, p: int, b: int, size: int, k: int)
    requires |m| == |m2| && 0 <= p
  {
    forall j :: 0 <= j < k && j < |m| - p ==> FilledAt(m, m2, p, b, size, j)
  }

  lemma FilledNext(m: seq<int>, m1: seq<int>, p: int, b: int, size: int, j: int, v: int)
    requires |m| == |m1| && 0 <= p && 0 <= j && p + j < |m| && FilledTo(m, m1, p, b, size, j)
    requires v == FillWord(m[p + j], b, Covered(size, j))
    ensures FilledTo(m, m1[p + j := v], p, b, size, j + 1)
  {
    var m2 := m1[p + j := v];
    forall i | 0 <= i < j && i < |m| - p ensures FilledAt(m, m2, p, b, size, i) {
      assert FilledAt(m, m1, p, b, size, i);
    }
  }

  /** Words beyond the last one touched are covered by none of the bytes. */
  lemma FilledAll(m: seq<int>, m2: seq<int>, p: int, b: int, size: int, k: int)
    requires |m| == |m2| && 0 <= p && 0 <= k && size <= 8 * k && FilledTo(m, m2, p, b, size, k)
    requires forall i :: p + k <= i < |m| ==> m2[i] == m[i]
    ensures FilledTo(m, m2, p, b, size, |m| - p)
  {
    forall j | k <= j < |m| - p ensures FilledAt(m, m2, p, b, size, j) {
      assert Covered(size, j) == 0 && m2[p + j] == m[p + j];
    }
  }

  /** memset of the `size` requested bytes of the live block before `p`. */
  method MemSet(heap: Heap, p: int, b: int, size: int)
    requires heap.Valid() && p - 1 in Live(heap.bs) && size == heap.bs[p - 1].req
    modifies heap.mem.words, heap.mem`m
    ensures heap.Valid() && Kept(old(heap.mem.m), heap.mem.m, Live(heap.bs) - {p - 1})
    ensures |heap.mem.m| == |old(heap.mem.m)|
    ensures 0 <= p && FilledTo(old(heap.mem.m), heap.mem.m, p, b, size, |heap.mem.m| - p)
  {
    var mem, j := heap.mem, 0;
    ghost var n := heap.bs[p - 1].n;
    while 8 * j < size
      invariant 0 <= j && 8 * j < size + 8 && mem.Valid() && |mem.m| == |old(mem.m)|
      invariant InPayload(old(mem.m), mem.m, p - 1, n)
      invariant forall i :: p + j <= i < |mem.m| ==> mem.m[i] == old(mem.m)[i]
      invariant FilledTo(old(mem.m), mem.m, p, b, size, j)
    {
      var w := mem.Load(p + j);
      var v := FillWord(w, b, if size - 8 * j < 8 then size - 8 * j else 8);
      FilledNext(old(mem.m), mem.m, p, b, size, j, v);
      mem.Store(p + j, v);
      j := j + 1;
    }
    FilledAll(old(mem.m), mem.m, p, b, size, j);
    PayloadHeap(old(mem.m), mem.m, heap.bs, mem.brk - 1, heap.fl, p - 1);
  }

  // ---------- marked payloads ----------

  /** Byte `k` of the payload at `p`. */
  function ByteAt(m: seq<int>, p: int, k: nat): int
    requires 0 <= p && p + k / 8 < |m|
  {
    Byte(m[p + k / 8], k % 8)
  }

  /** The first `req` bytes of the payload of the block `a` are all `b`. */
  ghost predicate Marked(m: seq<int>, a: int, req: int, b: int) {
    0 <= a && forall k: nat {:trigger ByteAt(m, a + 1, k)} :: k < req && a + 1 + k / 8 < |m| ==> ByteAt(m, a + 1, k) == b
  }

  /** After memset they are. */
  lemma FilledMarked(m: seq<int>, m2: seq<int>, p: int, b: int, size: int)
    requires |m| == |m2| && 1 <= p && 0 <= b < 256 && FilledTo(m, m2, p, b, size, |m| - p)
    ensures Marked(m2, p - 1, size, b)
  {
    forall k: nat | k < size && p + k / 8 < |m| ensures ByteAt(m2, p, k) == b {
      assert FilledAt(m, m2, p, b, size, k / 8);
      FillWordBytes(m[p + k / 8], b, Covered(size, k / 8), k % 8);
    }
  }

  /** A payload that is kept stays marked. */
  lemma KeptMarked(m: seq<int>, m2: seq<int>, a: int, n: int, req: int, b: int)
    requires |m| == |m2| && SamePayload(m, m2, a, n) && req <= 8 * (n - 1) && Marked(m, a, req, b)
    ensures Marked(m2, a, req, b)
  {
    forall k: nat | k < req && a + 1 + k / 8 < |m2| ensures ByteAt(m2, a + 1, k) == b {
      assert ByteAt(m, a + 1, k) == b;
    }
  }

  /** So does the common prefix of a payload that was moved. */
  lemma MovedMarked(m: seq<int>, m2: seq<int>, a: int, c: int, words: int, req: int, b: int)
    requires |m| == |m2| && 0 <= c && SamePrefix(m, a, m2, c, words) && req <= 8 * words && Marked(m, a, req, b)
    requires a + words < |m|
    ensures Marked(m2, c, req, b)
  {
    forall k: nat | k < req && c + 1 + k / 8 < |m2| ensures ByteAt(m2, c + 1, k) == b {
      assert ByteAt(m, a + 1, k) == b;
      assert m2[c + 1 + k / 8] == m[a + 1 + k / 8];
    }
  }

  /** A char, which may be signed. */
  function CharValue(b: int, signedChar: bool): int { if signedChar && b >= 128 then b - 256 else b }

  /** The loop of mdriver-realloc.c that compares the old content with the index byte. */
  method CheckContent(heap: Heap, p: int, b: int, count: int, signedChar: bool) returns (ok: bool)
    requires heap.Valid() && 1 <= p && p + count / 8 < |heap.mem.m|
    ensures ok <==> forall k: nat :: k < count ==> CharValue(ByteAt(heap.mem.m, p, k), signedChar) == b
  {
    var j := 0;
    while j < count
      invariant 0 <= j && (j <= count || j == 0)
      invariant forall k: nat :: k < j ==> CharValue(ByteAt(heap.mem.m, p, k), signedChar) == b
    {
      var w := heap.mem.Load(p + j / 8);
      if CharValue(Byte(w, j % 8), signedChar) != b {
        assert CharValue(ByteAt(heap.mem.m, p, j), signedChar) != b;
        return false;
      }
      j := j + 1;
    }
    ok := true;
  }

  /** On a marked payload the comparison succeeds, unless char is signed and the byte is not
      a positive char. */
  lemma CheckSucceeds(m: seq<int>, p: int, b: int, count: int, signedChar: bool)
    requires 1 <= p && 0 < count && p + count / 8 < |m| && 0 <= b < 256 && Marked(m, p - 1, count, b)
    ensures (forall k: nat :: k < count ==> CharValue(ByteAt(m, p, k), signedChar) == b) <==> !(signedChar && b >= 128)
  {
    assert ByteAt(m, p, 0) == b;
  }
}
