/** The trace interpreter that judges the allocator (uw_cse351/lab5/mdriver.c
    and, for resizing requests, uw_cse351/lab5/mdriver-realloc.c:593-628). */
module TraceDriver {
  import opened Tags
  import opened Layout
  import opened Memlib
  import opened HeapProofs
  import opened HeapShapes
  import opened HeapTheorems
  import opened Allocator
  import opened Contents

  datatype TraceOp = Alloc(index: nat, size: int) | Resize(index: nat, size: int) | Release(index: nat)

  /** A request was served, was found faulty, or ended the process for lack of memory. */
  datatype Verdict = Fine | Faulty | Exited

  /** Sizes are positive, and only identifiers that hold a block are resized or freed. */
  predicate Admissible(op: TraceOp, held: set<nat>) {
    match op
    case Alloc(_, size) => 0 < size
    case Resize(i, size) => 0 < size && i in held
    case Release(i) => i in held
  }

  function HeldAfter(op: TraceOp, held: set<nat>): set<nat> {
    if op.Release? then held - {op.index} else held + {op.index}
  }

  ghost predicate WellFormed(ops: seq<TraceOp>, held: set<nat>) {
    ops == [] || (Admissible(ops[0], held) && WellFormed(ops[1..], HeldAfter(ops[0], held)))
  }

  lemma WellFormedStep(ops: seq<TraceOp>, i: nat, held: set<nat>)
    requires i < |ops| && WellFormed(ops[i..], held)
    ensures Admissible(ops[i], held) && WellFormed(ops[i + 1..], HeldAfter(ops[i], held))
  {
    assert ops[i..][0] == ops[i] && ops[i..][1..] == ops[i + 1..];
  }

  /** The content check of a resize request reads the index byte as a char, which is negative
      for large bytes if char is signed. */
  predicate Misread(op: TraceOp, signedChar: bool) { op.Resize? && signedChar && op.index % 256 >= 128 }

  /** None of the requests is a resize. */
  predicate NoResize(ops: seq<TraceOp>) {
    ops == [] || (NoResize(ops[..|ops| - 1]) && !ops[|ops| - 1].Resize?)
  }

  /** None of them is misread. */
  predicate NoMisread(ops: seq<TraceOp>, signedChar: bool) {
    ops == [] || (NoMisread(ops[..|ops| - 1], signedChar) && !Misread(ops[|ops| - 1], signedChar))
  }

  lemma PrefixStep(ops: seq<TraceOp>, n: nat, signedChar: bool)
    requires n < |ops|
    ensures NoResize(ops[..n + 1]) <==> NoResize(ops[..n]) && !ops[n].Resize?
    ensures NoMisread(ops[..n + 1], signedChar) <==> NoMisread(ops[..n], signedChar) && !Misread(ops[n], signedChar)
  {
    assert ops[..n + 1][..n] == ops[..n];
  }

  /** What a trace leaves held. */
  function HeldOf(ops: seq<TraceOp>, held: set<nat>): set<nat> {
    if ops == [] then held else HeldOf(ops[1..], HeldAfter(ops[0], held))
  }

  /** No identifier that holds a block is allocated again. */
  predicate NoReuse(ops: seq<TraceOp>, held: set<nat>) {
    ops == [] || (!Reuses(ops[0], held) && NoReuse(ops[1..], HeldAfter(ops[0], held)))
  }

  predicate Reuses(op: TraceOp, held: set<nat>) { op.Alloc? && op.index in held }

  lemma HeldStep(ops: seq<TraceOp>, i: nat, held: set<nat>)
    requires i < |ops|
    ensures HeldOf(ops[i..], held) == HeldOf(ops[i + 1..], HeldAfter(ops[i], held))
    ensures NoReuse(ops[i..], held) <==> !Reuses(ops[i], held) && NoReuse(ops[i + 1..], HeldAfter(ops[i], held))
  {
    assert ops[i..][0] == ops[i] && ops[i..][1..] == ops[i + 1..];
  }

  /** A marker: an effect is unfolded only where this is named for its two sets of blocks. */
  ghost predicate Seen(lv: Blocks, lv2: Blocks, x: int) { true }

  /** The effect of a request on the live blocks and on trace->blocks. */
  ghost predicate Effect(op: TraceOp, lv: Blocks, blocks: map<nat, int>, lv2: Blocks, blocks2: map<nat, int>) {
    forall x {:trigger Seen(lv, lv2, x)} :: Seen(lv, lv2, x) ==>
    match op
    case Alloc(i, size) => i in blocks2 && NewBlock(lv, blocks, i, size, blocks2[i], lv2, blocks2)
    case Resize(i, size) =>
      && i in blocks && i in blocks2 && (blocks2[i] == blocks[i] || blocks2[i] - 1 !in lv)
      && NewBlock(lv - {blocks[i] - 1}, blocks, i, size, blocks2[i], lv2, blocks2)
    case Release(i) => i in blocks && lv2 == lv - {blocks[i] - 1} && blocks2 == blocks
  }

  ghost predicate NewBlock(lv: Blocks, blocks: map<nat, int>, i: nat, size: int, p: int, lv2: Blocks, blocks2: map<nat, int>) {
    && p - 1 !in lv && p - 1 in lv2 && lv2 == lv[p - 1 := lv2[p - 1]] && lv2[p - 1].Used? && lv2[p - 1].req == size
    && blocks2 == blocks[i := p]
  }

  lemma AllocEffect(lv: Blocks, blocks: map<nat, int>, i: nat, size: int, p: int, lv2: Blocks)
    requires NewBlock(lv, blocks, i, size, p, lv2, blocks[i := p])
    ensures Effect(Alloc(i, size), lv, blocks, lv2, blocks[i := p])
  {
  }

  lemma ReleaseEffect(lv: Blocks, blocks: map<nat, int>, i: nat)
    requires i in blocks
    ensures Effect(Release(i), lv, blocks, lv - {blocks[i] - 1}, blocks)
  {
  }

  /** Its effect on the shape of the heap: mm_malloc, mm_realloc or mm_free of the pointer held. */
  ghost predicate Served(op: TraceOp, s: Shape, page: int, blocks: map<nat, int>, t: Shape, blocks2: map<nat, int>)
    requires 0 < page && (op.Release? || 0 < op.size)
  {
    match op
    case Alloc(i, size) => i in blocks2 && Allocs(s, page, ReqWords(size), size, blocks2[i] - 1, t)
    case Resize(i, size) => i in blocks && i in blocks2 && Reallocs(s, page, blocks[i] - 1, ReqWords(size), size, blocks2[i] - 1, t)
    case Release(i) => i in blocks && Frees(s, blocks[i] - 1, t)
  }

  /** The heap and trace->blocks. */
  datatype Outcome = Outcome(shape: Shape, blocks: map<nat, int>)

  /** What a request may lead to. */
  ghost function Outcomes(op: TraceOp, s: Shape, page: int, blocks: map<nat, int>): iset<Outcome>
    requires 0 < page && (op.Release? || 0 < op.size)
  {
    iset o: Outcome | Served(op, s, page, blocks, o.shape, o.blocks)
  }

  lemma AllocOutcome(s: Shape, page: int, blocks: map<nat, int>, i: nat, size: int, p: int, t: Shape)
    requires 0 < page && 0 < size && Allocs(s, page, ReqWords(size), size, p - 1, t)
    ensures Outcome(t, blocks[i := p]) in Outcomes(Alloc(i, size), s, page, blocks)
  {
  }

  lemma ResizeOutcome(s: Shape, page: int, blocks: map<nat, int>, i: nat, size: int, q: int, t: Shape)
    requires 0 < page && 0 < size && i in blocks && Reallocs(s, page, blocks[i] - 1, ReqWords(size), size, q - 1, t)
    ensures Outcome(t, blocks[i := q]) in Outcomes(Resize(i, size), s, page, blocks)
  {
  }

  lemma ReleaseOutcome(s: Shape, page: int, blocks: map<nat, int>, i: nat, t: Shape)
    requires 0 < page && i in blocks && Frees(s, blocks[i] - 1, t)
    ensures Outcome(t, blocks) in Outcomes(Release(i), s, page, blocks)
  {
  }

  /** The live blocks are exactly those that are held. */
  ghost predicate HeldAll(held: set<nat>, blocks: map<nat, int>, lv: Blocks) {
    forall a :: a in lv ==> exists i :: i in held && i in blocks && blocks[i] - 1 == a
  }

  lemma HeldAllStep(op: TraceOp, held: set<nat>, blocks: map<nat, int>, lv: Blocks, lv2: Blocks, blocks2: map<nat, int>)
    requires HeldAll(held, blocks, lv) && Effect(op, lv, blocks, lv2, blocks2) && !Reuses(op, held)
    ensures HeldAll(HeldAfter(op, held), blocks2, lv2)
  {
    assert Seen(lv, lv2, 0);
    forall a | a in lv2 ensures exists i :: i in HeldAfter(op, held) && i in blocks2 && blocks2[i] - 1 == a {
      if op.Release? || a != blocks2[op.index] - 1 {
        var i :| i in held && i in blocks && blocks[i] - 1 == a;
        assert i in HeldAfter(op, held) && blocks2[i] == blocks[i];
      } else {
        assert op.index in HeldAfter(op, held);
      }
    }
  }

  lemma RecordedMore(owners: seq<int>, lv: Blocks, a: int, x: Block)
    requires Recorded(owners, lv)
    ensures Recorded([a] + owners, lv[a := x])
  {
  }

  lemma NobodyHolds(blocks: map<nat, int>)
    ensures HeldAll({}, blocks, map[])
  {
  }

  // ---------- requests ----------

  /** A request that the heap cannot serve: no free block is large enough, and the
      pages to ask for do not fit into the storage. */
  ghost predicate Exhausted(bs: Blocks, brk: int, max: int, page: int, op: TraceOp) {
    !op.Release? && op.size > 0 && page > 0 && !CanServe(bs, brk, max, page, ReqWords(op.size))
  }

  function SizesAfter(op: TraceOp, sizes: map<nat, int>): map<nat, int> {
    if op.Release? then sizes else sizes[op.index := op.size]
  }

  /** The total of requested bytes after a request. */
  function TotalAfter(op: TraceOp, sizes: map<nat, int>, total: int): int {
    var now := if op.index in sizes then sizes[op.index] else 0;
    match op
    case Alloc(_, size) => total + size
    case Resize(_, size) => total + size - now
    case Release(_) => total - now
  }

  function PeakAfter(op: TraceOp, total: int, peak: int): int { if op.Release? then peak else Max(peak, total) }

  /** The largest total of requested bytes while the rest of a trace is served. */
  ghost function PeakFrom(ops: seq<TraceOp>, sizes: map<nat, int>, total: int, peak: int): int
    decreases |ops|
  {
    if ops == [] then peak else
      var op, now := ops[0], TotalAfter(ops[0], sizes, total);
      PeakFrom(ops[1..], SizesAfter(op, sizes), now, PeakAfter(op, now, peak))
  }

  lemma PeakStep(ops: seq<TraceOp>, i: nat, sizes: map<nat, int>, total: int, peak: int)
    requires i < |ops|
    ensures var now := TotalAfter(ops[i], sizes, total);
      PeakFrom(ops[i..], sizes, total, peak) == PeakFrom(ops[i + 1..], SizesAfter(ops[i], sizes), now, PeakAfter(ops[i], now, peak))
  {
    assert ops[i..][0] == ops[i] && ops[i..][1..] == ops[i + 1..];
  }

  /** The total of requested bytes once a trace is served. */
  ghost function TotalOf(ops: seq<TraceOp>, sizes: map<nat, int>, total: int): int {
    if ops == [] then total else TotalOf(ops[1..], SizesAfter(ops[0], sizes), TotalAfter(ops[0], sizes, total))
  }

  /** No total along a trace exceeds the peak. */
  lemma {:induction false} PeakCovers(ops: seq<TraceOp>, k: nat, held: set<nat>, sizes: map<nat, int>, total: int, peak: int)
    requires k <= |ops| && WellFormed(ops, held) && total <= peak && forall i :: i in held ==> i in sizes && 0 < sizes[i]
    ensures TotalOf(ops[..k], sizes, total) <= PeakFrom(ops, sizes, total, peak)
  {
    if k == 0 {
      if ops != [] {
        var now := TotalAfter(ops[0], sizes, total);
        PeakCovers(ops[1..], 0, HeldAfter(ops[0], held), SizesAfter(ops[0], sizes), now, PeakAfter(ops[0], now, peak));
        PeakGrows(ops, sizes, total, peak);
      }
    } else {
      var now := TotalAfter(ops[0], sizes, total);
      assert ops[..k][1..] == ops[1..][..k - 1];
      PeakCovers(ops[1..], k - 1, HeldAfter(ops[0], held), SizesAfter(ops[0], sizes), now, PeakAfter(ops[0], now, peak));
    }
  }

  lemma PeakGrows(ops: seq<TraceOp>, sizes: map<nat, int>, total: int, peak: int)
    ensures peak <= PeakFrom(ops, sizes, total, peak)
    decreases |ops|
  {
    if ops != [] {
      var now := TotalAfter(ops[0], sizes, total);
      PeakGrows(ops[1..], SizesAfter(ops[0], sizes), now, PeakAfter(ops[0], now, peak));
    }
  }

  /** The peak is one of the totals, or where it started. */
  lemma {:induction false} PeakReached(ops: seq<TraceOp>, sizes: map<nat, int>, total: int, peak: int)
    ensures PeakFrom(ops, sizes, total, peak) == peak
      || exists k :: 0 <= k <= |ops| && TotalOf(ops[..k], sizes, total) == PeakFrom(ops, sizes, total, peak)
    decreases |ops|
  {
    if ops != [] {
      var now, sizes2 := TotalAfter(ops[0], sizes, total), SizesAfter(ops[0], sizes);
      var peak2 := PeakAfter(ops[0], now, peak);
      var top := PeakFrom(ops, sizes, total, peak);
      PeakReached(ops[1..], sizes2, now, peak2);
      assert ops[..1][0] == ops[0] && ops[..1][1..] == [];
      if top == peak2 {
        assert top == peak || TotalOf(ops[..1], sizes, total) == top;
      } else {
        var k :| 0 <= k <= |ops| - 1 && TotalOf(ops[1..][..k], sizes2, now) == top;
        assert ops[..k + 1][0] == ops[0] && ops[..k + 1][1..] == ops[1..][..k];
      }
    }
  }

  /** The peak that eval_mm_util reports is the largest total along the trace. */
  lemma PeakIsLargest(ops: seq<TraceOp>)
    requires WellFormed(ops, {})
    ensures forall k :: 0 <= k <= |ops| ==> TotalOf(ops[..k], map[], 0) <= PeakFrom(ops, map[], 0, 0)
    ensures exists k :: 0 <= k <= |ops| && TotalOf(ops[..k], map[], 0) == PeakFrom(ops, map[], 0, 0)
  {
    forall k | 0 <= k <= |ops| ensures TotalOf(ops[..k], map[], 0) <= PeakFrom(ops, map[], 0, 0) {
      PeakCovers(ops, k, {}, map[], 0, 0);
    }
    PeakReached(ops, map[], 0, 0);
    assert TotalOf(ops[..0], map[], 0) == 0;
  }

  function Max(x: int, y: int): int { if y > x then y else x }

  // ---------- the range list ----------

  /** Every live block has a record, and nothing else has. */
  ghost predicate Recorded(owners: seq<int>, lv: Blocks) { forall a :: a in lv <==> a in owners }

  /** The byte addresses of a payload, both ends included. */
  datatype Range = Range(lo: int, hi: int)

  /** What add_range tests: alignment, both ends in the heap, and neither end of
      the new payload inside a recorded one. */
  ghost predicate Acceptable(ranges: seq<Range>, lo: int, hi: int, heapLo: int, heapHi: int) {
    && lo % 8 == 0
    && heapLo <= lo <= heapHi && heapLo <= hi <= heapHi
    && forall r :: r in ranges ==> !(r.lo <= lo <= r.hi) && !(r.lo <= hi <= r.hi)
  }

  method AddRange(ranges: seq<Range>, lo: int, size: int, heapLo: int, heapHi: int)
    returns (ok: bool, ranges2: seq<Range>)
    requires 0 < size
    ensures ok <==> Acceptable(ranges, lo, lo + size - 1, heapLo, heapHi)
    ensures ranges2 == if ok then [Range(lo, lo + size - 1)] + ranges else ranges
  {
    var hi := lo + size - 1;
    if lo % 8 != 0 || lo < heapLo || lo > heapHi || hi < heapLo || hi > heapHi {
      return false, ranges;
    }
    for i := 0 to |ranges|
      invariant forall j :: 0 <= j < i ==> !(ranges[j].lo <= lo <= ranges[j].hi) && !(ranges[j].lo <= hi <= ranges[j].hi)
    {
      var p := ranges[i];
      if (lo >= p.lo && lo <= p.hi) || (hi >= p.lo && hi <= p.hi) {
        assert p in ranges;
        return false, ranges;
      }
    }
    return true, [Range(lo, hi)] + ranges;
  }

  /** remove_range: drops the first record that starts at `lo`, if any. */
  method RemoveRange(ranges: seq<Range>, lo: int) returns (ranges2: seq<Range>, ghost k: int)
    ensures 0 <= k <= |ranges| && forall j :: 0 <= j < k ==> ranges[j].lo != lo
    ensures k < |ranges| ==> ranges[k].lo == lo && ranges2 == ranges[..k] + ranges[k + 1..]
    ensures k == |ranges| ==> ranges2 == ranges
    ensures |ranges2| == |ranges| <==> (forall r :: r in ranges ==> r.lo != lo)
    ensures forall r :: r in ranges && r.lo != lo ==> r in ranges2
  {
    for i := 0 to |ranges|
      invariant forall j :: 0 <= j < i ==> ranges[j].lo != lo
    {
      if ranges[i].lo == lo {
        return ranges[..i] + ranges[i + 1..], i;
      }
    }
    return ranges, |ranges|;
  }

  /** The record for the live block `a` when the heap starts at byte `base`. */
  ghost function RangeOf(base: int, a: int, req: int): Range {
    Range(base + 8 * (a + 1), base + 8 * (a + 1) + req - 1)
  }

  /** The i-th record describes the live block `owners[i]`; no block has two. */
  ghost predicate Tracks(ranges: seq<Range>, owners: seq<int>, lv: Blocks, base: int) {
    && |ranges| == |owners|
    && (forall i :: 0 <= i < |owners| ==>
          owners[i] in lv && lv[owners[i]].Used? && ranges[i] == RangeOf(base, owners[i], lv[owners[i]].req))
    && forall i, j :: 0 <= i < j < |owners| ==> owners[i] != owners[j]
  }

  /** A block that is not live has no record. */
  lemma NoRecord(ranges: seq<Range>, owners: seq<int>, lv: Blocks, base: int, a: int)
    requires Tracks(ranges, owners, lv, base) && a !in lv
    ensures forall r :: r in ranges ==> r.lo != base + 8 * (a + 1)
  {
  }

  /** A fresh live block always passes the tests of add_range. */
  lemma FreshAcceptable(ranges: seq<Range>, owners: seq<int>, bs: Blocks, end: int, base: int, a: int)
    requires Tiled(bs, end) && base % 8 == 0 && a in Live(bs) && a !in owners
    requires Tracks(ranges, owners, Live(bs), base)
    ensures var r := RangeOf(base, a, bs[a].req); Acceptable(ranges, r.lo, r.hi, base, base + 8 * (end + 1) - 1)
    ensures Tracks([RangeOf(base, a, bs[a].req)] + ranges, [a] + owners, Live(bs), base)
  {
    var me := RangeOf(base, a, bs[a].req);
    LivePayloads(bs, end, base, a, a);
    forall r | r in ranges ensures !(r.lo <= me.lo <= r.hi) && !(r.lo <= me.hi <= r.hi) {
      var i :| 0 <= i < |ranges| && ranges[i] == r;
      assert owners[i] in owners;
      LivePayloads(bs, end, base, a, owners[i]);
    }
  }

  /** The same in the terms of the driver: the block before `p` in a heap of `brk` words. */
  lemma PayloadAcceptable(ranges: seq<Range>, owners: seq<int>, bs: Blocks, brk: int, base: int, p: int, size: int)
    requires Tiled(bs, brk - 1) && base % 8 == 0 && p - 1 in Live(bs) && p - 1 !in owners && size == bs[p - 1].req
    requires Tracks(ranges, owners, Live(bs), base)
    ensures 0 < size && Acceptable(ranges, base + 8 * p, base + 8 * p + size - 1, base, base + 8 * brk - 1)
    ensures Tracks([Range(base + 8 * p, base + 8 * p + size - 1)] + ranges, [p - 1] + owners, Live(bs), base)
  {
    FreshAcceptable(ranges, owners, bs, brk - 1, base, p - 1);
  }

  /** Dropping the record at `k` together with its block. */
  lemma TracksWithout(ranges: seq<Range>, owners: seq<int>, lv: Blocks, base: int, a: int, k: int)
    requires Tracks(ranges, owners, lv, base) && a in lv && lv[a].Used? && 0 <= k <= |ranges|
    requires forall j :: 0 <= j < k ==> ranges[j].lo != base + 8 * (a + 1)
    requires k < |ranges| ==> ranges[k].lo == base + 8 * (a + 1)
    ensures k == |ranges| ==> Tracks(ranges, owners, lv - {a}, base) && a !in owners
    ensures k < |ranges| ==>
      Tracks(ranges[..k] + ranges[k + 1..], owners[..k] + owners[k + 1..], lv - {a}, base) &&
      a !in owners[..k] + owners[k + 1..] && owners[k] == a
  {
    if k < |ranges| {
      assert owners[k] == a;
    }
  }

  lemma OwnersWithout(owners: seq<int>, k: int)
    requires 0 <= k < |owners| && owners[k] !in owners[..k] + owners[k + 1..]
    ensures forall a :: a in owners[..k] + owners[k + 1..] <==> a in owners && a != owners[k]
  {
    assert owners == owners[..k] + [owners[k]] + owners[k + 1..];
  }

  lemma TracksMore(ranges: seq<Range>, owners: seq<int>, lv: Blocks, base: int, a: int, x: Block)
    requires Tracks(ranges, owners, lv, base) && a !in lv
    ensures Tracks(ranges, owners, lv[a := x], base) && a !in owners
  {
  }

  // ---------- eval_mm_valid ----------

  /** The identifiers in `held` point to distinct live blocks. */
  ghost predicate Holds(held: set<nat>, blocks: map<nat, int>, lv: Blocks) {
    && (forall i :: i in held ==> i in blocks && blocks[i] - 1 in lv)
    && forall i, j :: i in held && j in held && i != j ==> blocks[i] != blocks[j]
  }

  lemma HoldsAlloc(held: set<nat>, blocks: map<nat, int>, lv: Blocks, i: nat, p: int, x: Block)
    requires Holds(held, blocks, lv) && p - 1 !in lv
    ensures Holds(held + {i}, blocks[i := p], lv[p - 1 := x])
  {
  }

  lemma HoldsRelease(held: set<nat>, blocks: map<nat, int>, lv: Blocks, i: nat)
    requires Holds(held, blocks, lv) && i in held
    ensures Holds(held - {i}, blocks, lv - {blocks[i] - 1})
  {
  }

  lemma HoldsResize(held: set<nat>, blocks: map<nat, int>, lv: Blocks, i: nat, q: int, x: Block)
    requires Holds(held, blocks, lv) && i in held && (q == blocks[i] || q - 1 !in lv)
    ensures Holds(held + {i}, blocks[i := q], (lv - {blocks[i] - 1})[q - 1 := x])
  {
  }

  /** The recorded sizes are the requested ones. */
  ghost predicate Sizes(held: set<nat>, blocks: map<nat, int>, sizes: map<nat, int>, lv: Blocks) {
    forall i :: i in held ==> i in blocks && i in sizes && blocks[i] - 1 in lv && sizes[i] == Bytes(lv[blocks[i] - 1])
  }

  lemma SizesAlloc(held: set<nat>, blocks: map<nat, int>, sizes: map<nat, int>, lv: Blocks, i: nat, p: int, x: Block)
    requires Holds(held, blocks, lv) && Sizes(held, blocks, sizes, lv) && p - 1 !in lv
    ensures Sizes(held + {i}, blocks[i := p], sizes[i := Bytes(x)], lv[p - 1 := x])
  {
  }

  lemma SizesRelease(held: set<nat>, blocks: map<nat, int>, sizes: map<nat, int>, lv: Blocks, i: nat)
    requires Holds(held, blocks, lv) && Sizes(held, blocks, sizes, lv) && i in held
    ensures Sizes(held - {i}, blocks, sizes, lv - {blocks[i] - 1})
  {
  }

  lemma SizesResize(held: set<nat>, blocks: map<nat, int>, sizes: map<nat, int>, lv: Blocks, i: nat, q: int, x: Block)
    requires Holds(held, blocks, lv) && Sizes(held, blocks, sizes, lv) && i in held && (q == blocks[i] || q - 1 !in lv)
    ensures Sizes(held, blocks[i := q], sizes[i := Bytes(x)], (lv - {blocks[i] - 1})[q - 1 := x])
  {
  }

  // ---------- contents ----------

  /** The payload that `i` holds is filled with its low byte. */
  ghost predicate MarkAt(i: nat, blocks: map<nat, int>, lv: Blocks, m: seq<int>) {
    i in blocks && blocks[i] - 1 in lv && Marked(m, blocks[i] - 1, Bytes(lv[blocks[i] - 1]), i % 256)
  }

  ghost predicate Marks(held: set<nat>, blocks: map<nat, int>, lv: Blocks, m: seq<int>) {
    forall i {:trigger MarkAt(i, blocks, lv, m)} :: i in held ==> MarkAt(i, blocks, lv, m)
  }

  /** The block that `i` holds is in `kept`, too, and the same. */
  ghost predicate SameBlock(i: nat, blocks: map<nat, int>, lv: Blocks, kept: Blocks) {
    i in blocks && blocks[i] - 1 in lv && blocks[i] - 1 in kept && kept[blocks[i] - 1] == lv[blocks[i] - 1]
  }

  lemma MarkKept(i: nat, blocks: map<nat, int>, blocks2: map<nat, int>, lv: Blocks, lv2: Blocks, kept: Blocks, m: seq<int>, m2: seq<int>)
    requires MarkAt(i, blocks, lv, m) && Kept(m, m2, kept) && SameBlock(i, blocks, lv, kept) && SameBlock(i, blocks, lv, lv2)
    requires i in blocks2 && blocks2[i] == blocks[i] && Fits(lv[blocks[i] - 1]) && lv[blocks[i] - 1].Used?
    ensures MarkAt(i, blocks2, lv2, m2)
  {
    var a := blocks[i] - 1;
    assert SamePayload(m, m2, a, kept[a].n);
    KeptMarked(m, m2, a, kept[a].n, Bytes(lv[a]), i % 256);
  }

  ghost predicate AllFit(lv: Blocks) { forall a :: a in lv ==> lv[a].Used? && Fits(lv[a]) }

  lemma LiveFit(bs: Blocks, end: int)
    requires Tiled(bs, end)
    ensures AllFit(Live(bs))
  {
  }

  /** A new block p for `i`, after mm_malloc. */
  lemma MarksAlloc(held: set<nat>, blocks: map<nat, int>, lv: Blocks, m: seq<int>, p: int, x: Block, m2: seq<int>)
    requires Marks(held, blocks, lv, m) && AllFit(lv) && Kept(m, m2, lv) && p - 1 !in lv
    ensures Marks(held, blocks, lv[p - 1 := x], m2)
  {
    forall i | i in held ensures MarkAt(i, blocks, lv[p - 1 := x], m2) {
      assert MarkAt(i, blocks, lv, m);
      MarkKept(i, blocks, blocks, lv, lv[p - 1 := x], lv, m, m2);
    }
  }

  /** The block a is no longer held, after mm_free or mm_realloc. */
  lemma MarksWithout(held: set<nat>, blocks: map<nat, int>, lv: Blocks, m: seq<int>, i: nat, m2: seq<int>, lv2: Blocks)
    requires Marks(held, blocks, lv, m) && AllFit(lv) && Holds(held, blocks, lv) && i in held
    requires Kept(m, m2, lv - {blocks[i] - 1})
    requires forall a :: a in lv && a != blocks[i] - 1 ==> a in lv2 && lv2[a] == lv[a]
    ensures Marks(held - {i}, blocks, lv2, m2)
  {
    forall j | j in held - {i} ensures MarkAt(j, blocks, lv2, m2) {
      assert MarkAt(j, blocks, lv, m);
      MarkKept(j, blocks, blocks, lv, lv2, lv - {blocks[i] - 1}, m, m2);
    }
  }

  /** memset of the block p, now held by `i`. */
  lemma MarksFilled(held: set<nat>, blocks: map<nat, int>, lv: Blocks, m: seq<int>, i: nat, p: int, m2: seq<int>)
    requires Marks(held - {i}, blocks, lv, m) && AllFit(lv) && Holds(held + {i}, blocks[i := p], lv)
    requires Kept(m, m2, lv - {p - 1}) && Marked(m2, p - 1, Bytes(lv[p - 1]), i % 256)
    ensures Marks(held + {i}, blocks[i := p], lv, m2)
  {
    forall j | j in held + {i} ensures MarkAt(j, blocks[i := p], lv, m2) {
      if j != i {
        assert MarkAt(j, blocks, lv, m);
        assert blocks[i := p][j] != blocks[i := p][i];
        MarkKept(j, blocks, blocks[i := p], lv, lv, lv - {p - 1}, m, m2);
      }
    }
  }

  /** The content that the driver expects after mm_realloc. */
  lemma MarkMoved(i: nat, blocks: map<nat, int>, m: seq<int>, bs: Blocks, end: int, m2: seq<int>, bs2: Blocks, end2: int, q: int, size: int, count: int)
    requires Tiled(bs, end) && Tiled(bs2, end2) && MarkAt(i, blocks, Live(bs), m) && end < |m|
    requires Moved(m, bs, m2, bs2, blocks[i] - 1, q - 1, size)
    requires count <= Bytes(bs[blocks[i] - 1]) && count <= size
    ensures Marked(m2, q - 1, count, i % 256)
  {
    var a := blocks[i] - 1;
    var words := (if bs[a].n <= bs2[q - 1].n then bs[a].n else bs2[q - 1].n) - 1;
    assert Marked(m, a, count, i % 256);
    MovedMarked(m, m2, a, q - 1, words, count, i % 256);
  }

  /** A marker: the books for these blocks and words are unfolded only where it is named. */
  ghost predicate Open(lv: Blocks, m: seq<int>, x: int) { true }

  /** Identifiers, sizes and contents describe the live blocks. */
  ghost predicate Books(held: set<nat>, blocks: map<nat, int>, sizes: map<nat, int>, lv: Blocks, m: seq<int>) {
    forall x {:trigger Open(lv, m, x)} :: Open(lv, m, x) ==>
      Holds(held, blocks, lv) && Sizes(held, blocks, sizes, lv) && Marks(held, blocks, lv, m)
  }

  /** What a resize keeps, likewise. */
  ghost predicate Carried(m: seq<int>, bs: Blocks, m2: seq<int>, bs2: Blocks, a: int, b: int, size: int) {
    forall x {:trigger Open(bs, m2, x)} :: Open(bs, m2, x) ==> Moved(m, bs, m2, bs2, a, b, size)
  }

  lemma CarriedBy(m: seq<int>, bs: Blocks, m2: seq<int>, bs2: Blocks, a: int, b: int, size: int)
    requires Moved(m, bs, m2, bs2, a, b, size)
    ensures Carried(m, bs, m2, bs2, a, b, size)
  {
  }

  lemma ResizeEffect(m: seq<int>, bs: Blocks, m2: seq<int>, bs2: Blocks, blocks: map<nat, int>, i: nat, q: int, size: int)
    requires i in blocks && Carried(m, bs, m2, bs2, blocks[i] - 1, q - 1, size)
    ensures Effect(Resize(i, size), Live(bs), blocks, Live(bs2), blocks[i := q])
  {
    assert Open(bs, m2, 0);
  }

  lemma BooksHave(held: set<nat>, blocks: map<nat, int>, sizes: map<nat, int>, lv: Blocks, m: seq<int>, i: nat)
    requires Books(held, blocks, sizes, lv, m) && i in held
    ensures i in blocks && blocks[i] - 1 in lv && i in sizes && sizes[i] == Bytes(lv[blocks[i] - 1]) && MarkAt(i, blocks, lv, m)
  {
    assert Open(lv, m, 0);
    assert MarkAt(i, blocks, lv, m);
  }

  lemma NoBooks(blocks: map<nat, int>, sizes: map<nat, int>, m: seq<int>)
    ensures Books({}, blocks, sizes, map[], m)
  {
  }

  lemma BooksReleased(held: set<nat>, blocks: map<nat, int>, sizes: map<nat, int>, lv: Blocks, m: seq<int>, i: nat, m2: seq<int>)
    requires Books(held, blocks, sizes, lv, m) && AllFit(lv) && i in held && i in blocks && Kept(m, m2, lv - {blocks[i] - 1})
    ensures Books(held - {i}, blocks, sizes, lv - {blocks[i] - 1}, m2)
  {
    assert Open(lv, m, 0);
    HoldsRelease(held, blocks, lv, i);
    SizesRelease(held, blocks, sizes, lv, i);
    MarksWithout(held, blocks, lv, m, i, m2, lv - {blocks[i] - 1});
  }

  /** The books without the contents of `i`, which now has the block p of x.req bytes. */
  ghost predicate BooksBut(held: set<nat>, blocks: map<nat, int>, sizes: map<nat, int>, lv: Blocks, m: seq<int>, i: nat, p: int, size: int) {
    forall x {:trigger Open(lv, m, x)} :: Open(lv, m, x) ==>
      && Holds(held + {i}, blocks[i := p], lv) && Sizes(held + {i}, blocks[i := p], sizes[i := size], lv)
      && Marks(held - {i}, blocks, lv, m)
  }

  lemma BooksAlloc(held: set<nat>, blocks: map<nat, int>, sizes: map<nat, int>, lv: Blocks, m: seq<int>, i: nat, p: int, x: Block, m2: seq<int>)
    requires Books(held, blocks, sizes, lv, m) && AllFit(lv) && p - 1 !in lv && Kept(m, m2, lv)
    ensures BooksBut(held, blocks, sizes, lv[p - 1 := x], m2, i, p, Bytes(x))
  {
    assert Open(lv, m, 0);
    HoldsAlloc(held, blocks, lv, i, p, x);
    SizesAlloc(held, blocks, sizes, lv, i, p, x);
    MarksAlloc(held, blocks, lv, m, p, x, m2);
  }

  lemma BooksResized(held: set<nat>, blocks: map<nat, int>, sizes: map<nat, int>, lv: Blocks, m: seq<int>, i: nat, q: int, x: Block, m2: seq<int>)
    requires Books(held, blocks, sizes, lv, m) && AllFit(lv) && i in held && i in blocks && (q == blocks[i] || q - 1 !in lv)
    requires Kept(m, m2, lv - {blocks[i] - 1})
    ensures BooksBut(held, blocks, sizes, (lv - {blocks[i] - 1})[q - 1 := x], m2, i, q, Bytes(x))
  {
    assert Open(lv, m, 0);
    assert held + {i} == held;
    HoldsResize(held, blocks, lv, i, q, x);
    SizesResize(held, blocks, sizes, lv, i, q, x);
    MarksWithout(held, blocks, lv, m, i, m2, (lv - {blocks[i] - 1})[q - 1 := x]);
  }

  /** memset completes them. */
  lemma BooksFilled(held: set<nat>, blocks: map<nat, int>, sizes: map<nat, int>, lv: Blocks, m: seq<int>, i: nat, p: int, size: int, m2: seq<int>)
    requires BooksBut(held, blocks, sizes, lv, m, i, p, size) && AllFit(lv) && Kept(m, m2, lv - {p - 1})
    requires |m| == |m2| && 1 <= p && FilledTo(m, m2, p, i % 256, size, |m| - p)
    ensures Books(held + {i}, blocks[i := p], sizes[i := size], lv, m2)
  {
    assert Open(lv, m, 0);
    FilledMarked(m, m2, p, i % 256, size);
    assert i in held + {i} && blocks[i := p][i] == p && sizes[i := size][i] == size;
    MarksFilled(held, blocks, lv, m, i, p, m2);
  }

  // ---------- totals ----------

  /** Identifiers, sizes and their total describe the live blocks. */
  ghost predicate Counted(held: set<nat>, blocks: map<nat, int>, sizes: map<nat, int>, lv: Blocks, total: int) {
    forall x {:trigger Seen(lv, lv, x)} :: Seen(lv, lv, x) ==>
      Holds(held, blocks, lv) && Sizes(held, blocks, sizes, lv) && total == LiveBytes(lv)
  }

  lemma CountedHave(held: set<nat>, blocks: map<nat, int>, sizes: map<nat, int>, lv: Blocks, total: int, i: nat)
    requires Counted(held, blocks, sizes, lv, total) && i in held
    ensures i in blocks && blocks[i] - 1 in lv && i in sizes
  {
    assert Seen(lv, lv, 0);
  }

  lemma NothingCounted(blocks: map<nat, int>, sizes: map<nat, int>)
    ensures Counted({}, blocks, sizes, map[], 0)
  {
  }

  lemma CountedAlloc(held: set<nat>, blocks: map<nat, int>, sizes: map<nat, int>, lv: Blocks, total: int,
                     bs: Blocks, end: int, i: nat, p: int, size: int)
    requires Counted(held, blocks, sizes, lv, total) && p - 1 !in lv
    requires Tiled(bs, end) && p - 1 in bs && bs[p - 1].Used? && bs[p - 1].req == size && Live(bs) == lv[p - 1 := bs[p - 1]]
    ensures Counted(held + {i}, blocks[i := p], sizes[i := size], Live(bs), total + size) && total + size <= 8 * end
  {
    assert Seen(lv, lv, 0);
    LiveBytesAdded(lv, p - 1, bs[p - 1]);
    LiveBytesBound(bs, end);
    HoldsAlloc(held, blocks, lv, i, p, bs[p - 1]);
    SizesAlloc(held, blocks, sizes, lv, i, p, bs[p - 1]);
  }

  lemma CountedRelease(held: set<nat>, blocks: map<nat, int>, sizes: map<nat, int>, bs: Blocks, end: int, total: int, i: nat)
    requires Counted(held, blocks, sizes, Live(bs), total) && i in held && Tiled(bs, end)
    ensures i in blocks && blocks[i] - 1 in Live(bs) && i in sizes
    ensures Counted(held - {i}, blocks, sizes, Live(bs) - {blocks[i] - 1}, total - sizes[i])
    ensures 0 <= sizes[i]
  {
    assert Seen(Live(bs), Live(bs), 0);
    LiveBytesRemoved(Live(bs), blocks[i] - 1);
    HoldsRelease(held, blocks, Live(bs), i);
    SizesRelease(held, blocks, sizes, Live(bs), i);
  }

  lemma CountedResize(held: set<nat>, blocks: map<nat, int>, sizes: map<nat, int>, lv: Blocks, total: int,
                      bs: Blocks, end: int, i: nat, q: int, size: int)
    requires Counted(held, blocks, sizes, lv, total) && i in held && Tiled(bs, end)
    requires Effect(Resize(i, size), lv, blocks, Live(bs), blocks[i := q])
    ensures i in sizes && Counted(held + {i}, blocks[i := q], sizes[i := size], Live(bs), total + (size - sizes[i]))
    ensures total + (size - sizes[i]) <= 8 * end && held + {i} == held
  {
    assert Seen(lv, lv, 0) && Seen(lv, Live(bs), 0);
    assert blocks[i := q][i] == q && held + {i} == held;
    LiveBytesRemoved(lv, blocks[i] - 1);
    LiveBytesAdded(lv - {blocks[i] - 1}, q - 1, bs[q - 1]);
    LiveBytesBound(bs, end);
    HoldsResize(held, blocks, lv, i, q, bs[q - 1]);
    SizesResize(held, blocks, sizes, lv, i, q, bs[q - 1]);
  }

  function Ratio(x: int, y: int): (u: real)
    requires 0 <= x <= y && 0 < y
    ensures 0.0 <= u <= 1.0
  {
    x as real / y as real
  }

  class Driver {
    const heap: Heap
    const base: int             // address of mem_heap_lo()
    const signedChar: bool      // whether plain char is signed
    var ranges: seq<Range>
    var blocks: map<nat, int>   // trace->blocks
    var sizes: map<nat, int>    // trace->block_sizes
    var totalSize: int
    var maxTotalSize: int
    ghost var owners: seq<int>
    ghost var held: set<nat>

    constructor (h: Heap, lo: int, signed: bool)
      ensures heap == h && base == lo && signedChar == signed
    {
      heap, base, signedChar := h, lo, signed;
      ranges, blocks, sizes, owners, held := [], map[], map[], [], {};
      totalSize, maxTotalSize := 0, 0;
    }

    /** Records, identifiers, sizes and contents describe the live blocks. */
    ghost predicate Valid()
      reads this, heap, heap.mem, heap.mem.words
    {
      && heap.Valid() && base % 8 == 0
      && Tracks(ranges, owners, Live(heap.bs), base) && Recorded(owners, Live(heap.bs))
      && Books(held, blocks, sizes, Live(heap.bs), heap.mem.m)
    }

    /** The heap as it is cannot serve the request. */
    ghost predicate Unserved(op: TraceOp)
      reads this, heap, heap.mem
    {
      && Exhausted(heap.bs, heap.mem.brk, |heap.mem.m|, heap.mem.page, op)
      && (op.Resize? && op.index in blocks ==> !Extensible(heap.bs, blocks[op.index] - 1, ReqWords(op.size)))
    }

    method NoteRange(p: int, size: int) returns (ok: bool)
      requires Tiled(heap.bs, heap.mem.brk - 1) && base % 8 == 0
      requires p - 1 in Live(heap.bs) && size == heap.bs[p - 1].req
      requires Tracks(ranges, owners, Live(heap.bs), base) && p - 1 !in owners
      modifies `ranges, `owners
      ensures ok && Tracks(ranges, owners, Live(heap.bs), base) && owners == [p - 1] + old(owners)
    {
      PayloadAcceptable(ranges, owners, heap.bs, heap.mem.brk, base, p, size);
      ok, ranges := AddRange(ranges, base + 8 * p, size, base, base + 8 * heap.mem.brk - 1);
      owners := [p - 1] + owners;
    }

    method DropRange(p: int, ghost lv: Blocks)
      requires Tracks(ranges, owners, lv, base) && p - 1 in lv && lv[p - 1].Used?
      modifies `ranges, `owners
      ensures Tracks(ranges, owners, lv - {p - 1}, base) && p - 1 !in owners
      ensures forall a :: a in owners <==> a in old(owners) && a != p - 1
    {
      ghost var k, old_ := 0, ranges;
      ranges, k := RemoveRange(ranges, base + 8 * p);
      TracksWithout(old_, owners, lv, base, p - 1, k);
      if k < |old_| {
        OwnersWithout(owners, k);
        owners := owners[..k] + owners[k + 1..];
      }
    }

    /** memset and "remember region". */
    method Fill(index: nat, p: int, size: int)
      requires heap.Valid() && base % 8 == 0 && p - 1 in Live(heap.bs) && size == heap.bs[p - 1].req
      requires Tracks(ranges, owners, Live(heap.bs), base) && Recorded(owners, Live(heap.bs))
      requires BooksBut(held, blocks, sizes, Live(heap.bs), heap.mem.m, index, p, size)
      modifies `blocks, `sizes, `held, heap.mem`m, heap.mem.words
      ensures Valid() && held == old(held) + {index} && blocks == old(blocks)[index := p] && |heap.mem.m| == |old(heap.mem.m)|
    {
      LiveFit(heap.bs, heap.mem.brk - 1);
      MemSet(heap, p, index % 256, size);
      BooksFilled(held, blocks, sizes, Live(heap.bs), old(heap.mem.m), index, p, size, heap.mem.m);
      blocks, sizes := blocks[index := p], sizes[index := size];
      held := held + {index};
    }

    /** The request has had its effect, starting from `s`. */
    ghost predicate Does(op: TraceOp, s: Shape, was: map<nat, int>)
      reads this, heap, heap.mem
    {
      && Effect(op, Live(s.bs), was, Live(heap.bs), blocks)
      && 0 < heap.mem.page && (op.Release? || 0 < op.size) && Outcome(heap.Now(), blocks) in Outcomes(op, s, heap.mem.page, was)
    }

    /** mm_malloc: it fails exactly when the request cannot be served. */
    method TryAlloc(index: nat, size: int) returns (p: int, ok: bool)
      requires heap.Valid() && 0 < size
      modifies heap, heap.mem, heap.mem.words
      ensures heap.Valid() && |heap.mem.m| == old(|heap.mem.m|)
      ensures ok <==> !old(Unserved(Alloc(index, size)))
      ensures !ok ==> Unserved(Alloc(index, size))
      ensures ok ==> Outcome(heap.Now(), blocks[index := p]) in Outcomes(Alloc(index, size), old(heap.Now()), heap.mem.page, blocks)
      ensures ok ==> NewBlock(Live(old(heap.bs)), blocks, index, size, p, Live(heap.bs), blocks[index := p])
      ensures ok ==> Effect(Alloc(index, size), Live(old(heap.bs)), blocks, Live(heap.bs), blocks[index := p])
      ensures heap.mem.brk >= old(heap.mem.brk)
      ensures Kept(old(heap.mem.m), heap.mem.m, Live(old(heap.bs)))
      ensures old(Coalesced(heap.bs)) ==> Coalesced(heap.bs)
    {
      p, ok := heap.Malloc(size);
      if ok {
        AllocEffect(Live(old(heap.bs)), blocks, index, size, p, Live(heap.bs));
        AllocOutcome(old(heap.Now()), heap.mem.page, blocks, index, size, p, heap.Now());
      }
    }

    /** What the driver does with the result of mm_malloc. */
    method AfterAlloc(index: nat, p: int, size: int, ghost lv: Blocks, ghost m0: seq<int>) returns (v: Verdict)
      requires heap.Valid() && base % 8 == 0 && AllFit(lv) && Kept(m0, heap.mem.m, lv)
      requires NewBlock(lv, blocks, index, size, p, Live(heap.bs), blocks[index := p])
      requires Tracks(ranges, owners, lv, base) && Recorded(owners, lv) && Books(held, blocks, sizes, lv, m0)
      modifies this, heap.mem`m, heap.mem.words
      ensures v == Fine && Valid() && held == old(held) + {index} && blocks == old(blocks)[index := p]
      ensures |heap.mem.m| == |old(heap.mem.m)|
    {
      if p == 0 {
        return Faulty;
      }
      TracksMore(ranges, owners, lv, base, p - 1, heap.bs[p - 1]);
      BooksAlloc(held, blocks, sizes, lv, m0, index, p, heap.bs[p - 1], heap.mem.m);
      RecordedMore(owners, lv, p - 1, heap.bs[p - 1]);
      var ok := NoteRange(p, size);
      if !ok {
        return Faulty;
      }
      Fill(index, p, size);
      return Fine;
    }

    method DoAlloc(index: nat, size: int) returns (v: Verdict)
      requires Valid() && 0 < size
      modifies this, heap, heap.mem, heap.mem.words
      ensures v != Faulty && |heap.mem.m| == old(|heap.mem.m|)
      ensures v == Fine ==> Valid() && held == old(held) + {index} && (old(Coalesced(heap.bs)) ==> Coalesced(heap.bs))
      ensures v == Fine ==> Does(Alloc(index, size), old(heap.Now()), old(blocks))
      ensures v == Exited <==> old(Unserved(Alloc(index, size)))
      ensures v == Exited ==> Unserved(Alloc(index, size))
    {
      ghost var lv, m0 := Live(heap.bs), heap.mem.m;
      LiveFit(heap.bs, heap.mem.brk - 1);
      var p, ok := TryAlloc(index, size);
      if !ok {
        return Exited;
      }
      v := AfterAlloc(index, p, size, lv, m0);
    }

    method DoRelease(index: nat)
      requires Valid() && index in held
      modifies this, heap, heap.mem, heap.mem.words
      ensures Valid() && held == old(held) - {index} && heap.mem.brk == old(heap.mem.brk) && |heap.mem.m| == old(|heap.mem.m|)
      ensures Does(Release(index), old(heap.Now()), old(blocks))
      ensures index in old(blocks) && Live(heap.bs) == Live(old(heap.bs)) - {old(blocks)[index] - 1}
      ensures forall r :: r in ranges ==> r.lo != base + 8 * old(blocks)[index]
      ensures old(Coalesced(heap.bs)) ==> Coalesced(heap.bs)
    {
      ghost var lv, m0 := Live(heap.bs), heap.mem.m;
      BooksHave(held, blocks, sizes, lv, m0, index);
      var p := blocks[index];
      LiveFit(heap.bs, heap.mem.brk - 1);
      DropRange(p, lv);
      NoRecord(ranges, owners, lv - {p - 1}, base, p - 1);
      FreeHeld(p);
      BooksReleased(held, blocks, sizes, lv, m0, index, heap.mem.m);
      ReleaseEffect(lv, blocks, index);
      ReleaseOutcome(old(heap.Now()), heap.mem.page, blocks, index, heap.Now());
      held := held - {index};
    }

    /** mm_free, in the terms the driver needs. */
    method FreeHeld(p: int)
      requires heap.Valid() && p - 1 in Live(heap.bs)
      modifies heap, heap.mem, heap.mem.words
      ensures heap.Valid() && Live(heap.bs) == Live(old(heap.bs)) - {p - 1} && Kept(old(heap.mem.m), heap.mem.m, Live(heap.bs))
      ensures heap.mem.brk == old(heap.mem.brk) && Frees(old(heap.Now()), p - 1, heap.Now())
      ensures old(Coalesced(heap.bs)) ==> Coalesced(heap.bs)
    {
      heap.FreePtr(p);
    }

    /** mm_realloc: it fails exactly when the request cannot be served. */
    method TryResize(index: nat, size: int) returns (newp: int, ok: bool)
      requires heap.Valid() && index in blocks && blocks[index] - 1 in Live(heap.bs) && 0 < size
      modifies heap, heap.mem, heap.mem.words
      ensures heap.Valid() && heap.mem.brk >= old(heap.mem.brk) && |heap.mem.m| == old(|heap.mem.m|)
      ensures ok <==> !old(Unserved(Resize(index, size)))
      ensures !ok ==> Unserved(Resize(index, size))
      ensures ok ==> Carried(old(heap.mem.m), old(heap.bs), heap.mem.m, heap.bs, blocks[index] - 1, newp - 1, size)
      ensures ok ==> Outcome(heap.Now(), blocks[index := newp]) in Outcomes(Resize(index, size), old(heap.Now()), heap.mem.page, blocks)
      ensures ok ==> Effect(Resize(index, size), Live(old(heap.bs)), blocks, Live(heap.bs), blocks[index := newp])
    {
      newp, ok := ReallocHeld(blocks[index], size);
      if ok {
        ResizeEffect(old(heap.mem.m), old(heap.bs), heap.mem.m, heap.bs, blocks, index, newp, size);
        ResizeOutcome(old(heap.Now()), heap.mem.page, blocks, index, size, newp, heap.Now());
      }
    }

    method ReallocHeld(p: int, size: int) returns (q: int, ok: bool)
      requires heap.Valid() && p - 1 in Live(heap.bs) && 0 < size
      modifies heap, heap.mem, heap.mem.words
      ensures heap.Valid() && heap.mem.brk >= old(heap.mem.brk) && |heap.mem.m| == old(|heap.mem.m|)
      ensures !ok ==> heap.bs == old(heap.bs) && heap.mem.brk == old(heap.mem.brk)
      ensures ok <==> old(Extensible(heap.bs, p - 1, ReqWords(size))
                       || CanServe(heap.bs, heap.mem.brk, |heap.mem.m|, heap.mem.page, ReqWords(size)))
      ensures ok ==> Carried(old(heap.mem.m), old(heap.bs), heap.mem.m, heap.bs, p - 1, q - 1, size)
      ensures ok ==> Reallocs(old(heap.Now()), heap.mem.page, p - 1, ReqWords(size), size, q - 1, heap.Now())
    {
      q, ok := heap.Realloc(p, size);
      if ok {
        CarriedBy(old(heap.mem.m), old(heap.bs), heap.mem.m, heap.bs, p - 1, q - 1, size);
      }
    }

    /** Exchange the record of the old block for one of `newp`. */
    method Rerecord(oldp: int, newp: int, size: int, ghost lv: Blocks) returns (ok: bool)
      requires Tiled(heap.bs, heap.mem.brk - 1) && base % 8 == 0 && newp - 1 in Live(heap.bs) && size == heap.bs[newp - 1].req
      requires Tracks(ranges, owners, lv, base) && oldp - 1 in lv && lv[oldp - 1].Used? && (newp == oldp || newp - 1 !in lv)
      requires Live(heap.bs) == (lv - {oldp - 1})[newp - 1 := heap.bs[newp - 1]]
      modifies `ranges, `owners
      ensures ok && Tracks(ranges, owners, Live(heap.bs), base)
      ensures old(Recorded(owners, lv)) ==> Recorded(owners, Live(heap.bs))
    {
      DropRange(oldp, lv);
      TracksMore(ranges, owners, lv - {oldp - 1}, base, newp - 1, heap.bs[newp - 1]);
      ok := NoteRange(newp, size);
    }

    /** The content check finds what was written for `index`, read as char. */
    method SameContent(index: nat, newp: int, size: int, ghost bs0: Blocks, ghost end0: int, ghost m0: seq<int>) returns (ok: bool)
      requires heap.Valid() && index in blocks && index in sizes && Tiled(bs0, end0) && end0 < |m0| && MarkAt(index, blocks, Live(bs0), m0)
      requires Moved(m0, bs0, heap.mem.m, heap.bs, blocks[index] - 1, newp - 1, size)
      requires 0 < size && sizes[index] == Bytes(bs0[blocks[index] - 1])
      ensures ok <==> !(signedChar && index % 256 >= 128)
    {
      var oldsize := sizes[index];
      if size < oldsize {
        oldsize := size;
      }
      MarkMoved(index, blocks, m0, bs0, end0, heap.mem.m, heap.bs, heap.mem.brk - 1, newp, size, oldsize);
      assert newp - 1 in heap.bs && Fits(heap.bs[newp - 1]);
      CheckSucceeds(heap.mem.m, newp, index % 256, oldsize, signedChar);
      ok := CheckContent(heap, newp, index % 256, oldsize, signedChar);
    }

    /** What the driver does with the result of mm_realloc. */
    method Rebook(index: nat, newp: int, size: int, ghost bs0: Blocks, ghost end0: int, ghost m0: seq<int>) returns (v: Verdict)
      requires heap.Valid() && base % 8 == 0 && 0 < size && index in held && index in blocks && Tiled(bs0, end0) && end0 < |m0|
      requires Carried(m0, bs0, heap.mem.m, heap.bs, blocks[index] - 1, newp - 1, size)
      requires Tracks(ranges, owners, Live(bs0), base) && Recorded(owners, Live(bs0)) && Books(held, blocks, sizes, Live(bs0), m0)
      modifies this, heap.mem`m, heap.mem.words
      ensures v != Exited && |heap.mem.m| == |old(heap.mem.m)|
      ensures v == Faulty <==> Misread(Resize(index, size), signedChar)
      ensures v == Fine ==> Valid() && held == old(held) && blocks == old(blocks)[index := newp]
    {
      assert Open(bs0, heap.mem.m, 0);
      LiveFit(bs0, end0);
      BooksResized(held, blocks, sizes, Live(bs0), m0, index, newp, heap.bs[newp - 1], heap.mem.m);
      BooksHave(held, blocks, sizes, Live(bs0), m0, index);
      var ok := Rerecord(blocks[index], newp, size, Live(bs0));
      if !ok {
        return Faulty;
      }
      ok := SameContent(index, newp, size, bs0, end0, m0);
      if !ok {
        return Faulty;
      }
      Fill(index, newp, size);
      assert held == old(held);
      return Fine;
    }

    method DoResize(index: nat, size: int) returns (v: Verdict)
      requires Valid() && index in held && 0 < size
      modifies this, heap, heap.mem, heap.mem.words
      ensures |heap.mem.m| == old(|heap.mem.m|)
      ensures v == Fine ==> Valid() && held == old(held) && Does(Resize(index, size), old(heap.Now()), old(blocks))
      ensures v == Faulty <==> !old(Unserved(Resize(index, size))) && Misread(Resize(index, size), signedChar)
      ensures v == Exited <==> old(Unserved(Resize(index, size)))
      ensures v == Exited ==> Unserved(Resize(index, size))
    {
      ghost var bs0, end0, m0 := heap.bs, heap.mem.brk - 1, heap.mem.m;
      BooksHave(held, blocks, sizes, Live(bs0), m0, index);
      var newp, ok := TryResize(index, size);
      if !ok {
        return Exited;
      }
      v := Rebook(index, newp, size, bs0, end0, m0);
    }

    method DoOp(op: TraceOp) returns (v: Verdict)
      requires Valid() && Admissible(op, held)
      modifies this, heap, heap.mem, heap.mem.words
      ensures |heap.mem.m| == old(|heap.mem.m|)
      ensures v == Fine ==> Does(op, old(heap.Now()), old(blocks))
      ensures v == Fine ==> Valid() && held == HeldAfter(op, old(held)) && (!op.Resize? && old(Coalesced(heap.bs)) ==> Coalesced(heap.bs))
      ensures v == Exited <==> old(Unserved(op))
      ensures v == Exited ==> Unserved(op)
      ensures v == Faulty <==> !old(Unserved(op)) && Misread(op, signedChar)
    {
      v := Fine;
      match op
      case Alloc(index, size) => v := DoAlloc(index, size);
      case Resize(index, size) =>
        assert held + {index} == held;
        v := DoResize(index, size);
      case Release(index) => DoRelease(index);
    }

    /** A new heap and nothing in the books. */
    method Start() returns (ok: bool)
      requires heap.mem.Valid() && MIN_WORDS <= heap.mem.page && base % 8 == 0
      modifies this, heap, heap.mem, heap.mem.words
      ensures |heap.mem.m| == old(|heap.mem.m|) && (ok <==> 6 <= |heap.mem.m|)
      ensures ok ==> Valid() && held == {} && Coalesced(heap.bs) && Live(heap.bs) == map[]
    {
      heap.mem.ResetBrk();
      ranges, owners, blocks, sizes, held := [], [], map[], map[], {};
      ok := heap.Init();
      NoBooks(blocks, sizes, heap.mem.m);
    }

    /** eval_mm_valid on a well-formed trace, of which it serves the first `done` requests.  It
        stops early exactly when the storage is too small for the heap or for the request that
        it has reached, or when that is a resize request whose content check misreads the index
        byte, and only then it reports an error; so never if char is unsigned. */
    method EvalValid(ops: seq<TraceOp>) returns (v: Verdict, ghost done: nat)
      requires heap.mem.Valid() && MIN_WORDS <= heap.mem.page && base % 8 == 0 && WellFormed(ops, {})
      modifies this, heap, heap.mem, heap.mem.words
      ensures done <= |ops| && |heap.mem.m| == old(|heap.mem.m|)
      ensures v == Fine <==> 6 <= |heap.mem.m| && done == |ops|
      ensures v == Fine ==> Valid() && held == HeldOf(ops, {})
      ensures v == Fine && NoReuse(ops, {}) ==> HeldAll(held, blocks, Live(heap.bs))
      ensures v == Exited && 6 <= |heap.mem.m| ==> done < |ops| && Unserved(ops[done])
      ensures v == Faulty ==> done < |ops| && Misread(ops[done], signedChar)
      ensures NoMisread(ops[..done], signedChar)
      ensures v == Fine && NoResize(ops) ==> Coalesced(heap.bs)
    {
      done := 0;
      var ok := Start();
      if !ok {
        return Exited, 0;
      }
      v := Fine;
      var i := 0;
      NobodyHolds(blocks);
      while i < |ops| && v == Fine
        invariant 0 <= i <= |ops| && |heap.mem.m| == old(|heap.mem.m|) && done <= i
        invariant v == Fine ==> HeldOf(ops, {}) == HeldOf(ops[i..], held)
        invariant v == Fine && NoReuse(ops, {}) ==> NoReuse(ops[i..], held) && HeldAll(held, blocks, Live(heap.bs))
        invariant v == Fine ==> done == i && Valid() && WellFormed(ops[i..], held) && (NoResize(ops[..i]) ==> Coalesced(heap.bs))
        invariant v == Exited ==> done < i && Unserved(ops[done])
        invariant v == Faulty ==> done < i && Misread(ops[done], signedChar)
        invariant NoMisread(ops[..done], signedChar)
      {
        WellFormedStep(ops, i, held);
        PrefixStep(ops, i, signedChar);
        HeldStep(ops, i, held);
        ghost var held0, lv0, blocks0 := held, Live(heap.bs), blocks;
        v := DoOp(ops[i]);
        if v == Fine && NoReuse(ops, {}) {
          HeldAllStep(ops[i], held0, blocks0, lv0, Live(heap.bs), blocks);
        }
        i := i + 1;
        if v == Fine {
          done := i;
        }
      }
      assert ops[..|ops|] == ops;
    }

    // ---------- eval_mm_util ----------

    /** The running totals of eval_mm_util are what they claim to be. */
    ghost predicate Counting()
      reads this, heap, heap.mem, heap.mem.words
    {
      && heap.Valid() && Counted(held, blocks, sizes, Live(heap.bs), totalSize)
      && totalSize <= maxTotalSize <= 8 * heap.mem.brk
    }

    /** Bookkeeping once `p` holds `size` bytes for `index`. */
    method Count(index: nat, p: int, size: int, delta: int)
      modifies this
      ensures blocks == old(blocks)[index := p] && sizes == old(sizes)[index := size] && held == old(held) + {index}
      ensures totalSize == old(totalSize) + delta
      ensures maxTotalSize == if totalSize > old(maxTotalSize) then totalSize else old(maxTotalSize)
    {
      blocks, sizes, held := blocks[index := p], sizes[index := size], held + {index};
      totalSize := totalSize + delta;
      maxTotalSize := if totalSize > maxTotalSize then totalSize else maxTotalSize;
    }

    method CountAlloc(index: nat, size: int) returns (ok: bool)
      requires Counting() && 0 < size
      modifies this, heap, heap.mem, heap.mem.words
      ensures |heap.mem.m| == old(|heap.mem.m|)
      ensures ok ==> Counting() && held == old(held) + {index} && old(heap.mem.brk) <= heap.mem.brk
      ensures ok ==> sizes == old(sizes)[index := size] && totalSize == old(totalSize) + size
      ensures ok ==> maxTotalSize == Max(old(maxTotalSize), totalSize) && Does(Alloc(index, size), old(heap.Now()), old(blocks))
      ensures ok <==> !old(Unserved(Alloc(index, size)))
      ensures !ok ==> Unserved(Alloc(index, size))
    {
      ghost var lv := Live(heap.bs);
      var p;
      p, ok := TryAlloc(index, size);
      if ok {
        CountedAlloc(held, blocks, sizes, lv, totalSize, heap.bs, heap.mem.brk - 1, index, p, size);
        Count(index, p, size, size);
      }
    }

    method CountRelease(index: nat)
      requires Counting() && index in held
      modifies this, heap, heap.mem, heap.mem.words
      ensures |heap.mem.m| == old(|heap.mem.m|)
      ensures Counting() && held == old(held) - {index} && heap.mem.brk == old(heap.mem.brk)
      ensures sizes == old(sizes) && index in sizes && totalSize == old(totalSize) - sizes[index] && maxTotalSize == old(maxTotalSize)
      ensures Does(Release(index), old(heap.Now()), old(blocks))
    {
      CountedRelease(held, blocks, sizes, heap.bs, heap.mem.brk - 1, totalSize, index);
      var size, p := sizes[index], blocks[index];
      ReleaseEffect(Live(heap.bs), blocks, index);
      FreeHeld(p);
      ReleaseOutcome(old(heap.Now()), heap.mem.page, blocks, index, heap.Now());
      totalSize := totalSize - size;
      held := held - {index};
    }

    method CountResize(index: nat, size: int) returns (ok: bool)
      requires Counting() && index in held && 0 < size
      modifies this, heap, heap.mem, heap.mem.words
      ensures |heap.mem.m| == old(|heap.mem.m|)
      ensures ok ==> Counting() && held == old(held) && old(heap.mem.brk) <= heap.mem.brk
      ensures ok ==> index in old(sizes) && sizes == old(sizes)[index := size] && totalSize == old(totalSize) + size - old(sizes)[index]
      ensures ok ==> maxTotalSize == Max(old(maxTotalSize), totalSize) && Does(Resize(index, size), old(heap.Now()), old(blocks))
      ensures ok <==> !old(Unserved(Resize(index, size)))
      ensures !ok ==> Unserved(Resize(index, size))
    {
      ghost var lv := Live(heap.bs);
      CountedHave(held, blocks, sizes, lv, totalSize, index);
      var oldSize := sizes[index];
      var newp;
      newp, ok := TryResize(index, size);
      if ok {
        CountedResize(held, blocks, sizes, lv, totalSize, heap.bs, heap.mem.brk - 1, index, newp, size);
        Count(index, newp, size, size - oldSize);
      }
    }

    method StartCount() returns (ok: bool)
      requires heap.mem.Valid() && MIN_WORDS <= heap.mem.page
      modifies this, heap, heap.mem, heap.mem.words
      ensures ok ==> Counting() && held == {} && sizes == map[] && totalSize == maxTotalSize == 0 && 0 < heap.mem.brk
      ensures ok ==> Live(heap.bs) == map[]
      ensures ok <==> 6 <= |heap.mem.m|
    {
      heap.mem.ResetBrk();
      blocks, sizes, held, totalSize, maxTotalSize := map[], map[], {}, 0, 0;
      NothingCounted(blocks, sizes);
      ok := heap.Init();
    }

    /** One request of the trace. */
    method CountOp(op: TraceOp) returns (ok: bool)
      requires Counting() && Admissible(op, held)
      modifies this, heap, heap.mem, heap.mem.words
      ensures |heap.mem.m| == old(|heap.mem.m|)
      ensures ok ==> Counting() && held == HeldAfter(op, old(held)) && old(heap.mem.brk) <= heap.mem.brk
      ensures ok ==> sizes == SizesAfter(op, old(sizes)) && totalSize == TotalAfter(op, old(sizes), old(totalSize))
      ensures ok ==> maxTotalSize == PeakAfter(op, totalSize, old(maxTotalSize)) && Does(op, old(heap.Now()), old(blocks))
      ensures ok <==> !old(Unserved(op))
      ensures !ok ==> Unserved(op)
    {
      ok := true;
      match op
      case Alloc(index, size) => ok := CountAlloc(index, size);
      case Resize(index, size) =>
        assert held + {index} == held;
        ok := CountResize(index, size);
      case Release(index) => CountRelease(index);
    }

    /** eval_mm_util: the largest total of live bytes never exceeds the final
        heap, so the utilisation is at most 1; it stops early exactly when the heap
        cannot serve the request it has reached. */
    method EvalUtil(ops: seq<TraceOp>) returns (ok: bool, util: real, ghost done: nat)
      requires heap.mem.Valid() && MIN_WORDS <= heap.mem.page && WellFormed(ops, {})
      modifies this, heap, heap.mem, heap.mem.words
      ensures done <= |ops| && (ok <==> 6 <= |heap.mem.m| && done == |ops|)
      ensures ok ==> Counting() && 0 < heap.mem.brk && 0.0 <= util <= 1.0 && held == HeldOf(ops, {})
      ensures ok && NoReuse(ops, {}) ==> HeldAll(held, blocks, Live(heap.bs))
      ensures ok ==> maxTotalSize == PeakFrom(ops, map[], 0, 0)
      ensures ok ==> util == maxTotalSize as real / (8 * heap.mem.brk) as real
      ensures !ok && 6 <= |heap.mem.m| ==> done < |ops| && Unserved(ops[done])
    {
      util, done := 0.0, 0;
      ok := StartCount();
      if !ok {
        return;
      }
      NobodyHolds(blocks);
      for i := 0 to |ops|
        invariant Counting() && WellFormed(ops[i..], held) && 0 < heap.mem.brk && 0 <= maxTotalSize && ok && done == i && 6 <= |heap.mem.m|
        invariant PeakFrom(ops, map[], 0, 0) == PeakFrom(ops[i..], sizes, totalSize, maxTotalSize)
        invariant HeldOf(ops, {}) == HeldOf(ops[i..], held)
        invariant NoReuse(ops, {}) ==> NoReuse(ops[i..], held) && HeldAll(held, blocks, Live(heap.bs))
      {
        WellFormedStep(ops, i, held);
        HeldStep(ops, i, held);
        ghost var held0, lv0, blocks0 := held, Live(heap.bs), blocks;
        PeakStep(ops, i, sizes, totalSize, maxTotalSize);
        ok := CountOp(ops[i]);
        if !ok { return; }
        if NoReuse(ops, {}) {
          HeldAllStep(ops[i], held0, blocks0, lv0, Live(heap.bs), blocks);
        }
        done := i + 1;
      }
      util := Ratio(maxTotalSize, 8 * heap.mem.brk);
    }
  }
}
