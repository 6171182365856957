/** The MapReduce library: partition by hash, group by key, merge
    (mit_6.824/src/mapreduce).  Files hold key/value pairs; the user functions,
    the hash and what becomes of a string in a JSON file are parameters. */
module MapReduce {
  import opened SortedKeys

  datatype KeyValue = KeyValue(key: string, value: string)
  datatype Doc = Doc(name: string, text: string)

  /** reduceName, mergeName and the final output file. */
  datatype FileName = Inter(m: nat, r: nat) | Res(r: nat) | Out
  type Files = map<FileName, seq<KeyValue>>

  datatype Job = Job(
    docs: seq<Doc>,
    nReduce: nat,
    mapF: (string, string) -> seq<KeyValue>,
    reduceF: (string, seq<string>) -> string,
    ihash: string -> nat,
    enc: string -> string)   // written by a json.Encoder and read back

  // ---------- pairs ----------

  /** The reduce task that a key belongs to. */
  function Slot(job: Job): string -> nat
    requires job.nReduce > 0
  {
    k => job.ihash(k) % job.nReduce
  }

  /** The pairs whose key belongs to slot `r`, in order. */
  ghost function Part(kvs: seq<KeyValue>, slot: string -> nat, r: nat): seq<KeyValue> {
    if kvs == [] then [] else
      var last := kvs[|kvs| - 1];
      Part(kvs[..|kvs| - 1], slot, r) + (if slot(last.key) == r then [last] else [])
  }

  /** The values emitted for `k`, in order. */
  ghost function Values(kvs: seq<KeyValue>, k: string): seq<string> {
    if kvs == [] then [] else
      var last := kvs[|kvs| - 1];
      Values(kvs[..|kvs| - 1], k) + (if last.key == k then [last.value] else [])
  }

  ghost function KeySet(kvs: seq<KeyValue>): set<string> { set kv | kv in kvs :: kv.key }

  ghost function Groups(kvs: seq<KeyValue>): map<string, seq<string>> {
    map k | k in KeySet(kvs) :: Values(kvs, k)
  }

  lemma Snoc(kvs: seq<KeyValue>, kv: KeyValue)
    ensures (kvs + [kv])[..|kvs + [kv]| - 1] == kvs && (kvs + [kv])[|kvs + [kv]| - 1] == kv
    ensures KeySet(kvs + [kv]) == KeySet(kvs) + {kv.key}
  {
  }

  lemma {:induction false} ValuesConcat(a: seq<KeyValue>, b: seq<KeyValue>, k: string)
    ensures Values(a + b, k) == Values(a, k) + Values(b, k)
  {
    if b == [] {
      assert a + b == a;
    } else {
      var b', kv := b[..|b| - 1], b[|b| - 1];
      assert a + b == (a + b') + [kv];
      Snoc(a + b', kv);
      ValuesConcat(a, b', k);
    }
  }

  lemma {:induction false} PartConcat(a: seq<KeyValue>, b: seq<KeyValue>, slot: string -> nat, r: nat)
    ensures Part(a + b, slot, r) == Part(a, slot, r) + Part(b, slot, r)
  {
    if b == [] {
      assert a + b == a;
    } else {
      var b', kv := b[..|b| - 1], b[|b| - 1];
      assert a + b == (a + b') + [kv];
      Snoc(a + b', kv);
      PartConcat(a, b', slot, r);
    }
  }

  /** A partition has the keys of its own slot and no other key. */
  lemma {:induction false} PartKeys(kvs: seq<KeyValue>, slot: string -> nat, r: nat, k: string)
    ensures k in KeySet(Part(kvs, slot, r)) <==> k in KeySet(kvs) && slot(k) == r
  {
    if kvs != [] {
      var init, kv := kvs[..|kvs| - 1], kvs[|kvs| - 1];
      assert kvs == init + [kv];
      PartKeys(init, slot, r, k);
      Snoc(init, kv);
      Snoc(Part(init, slot, r), kv);
    }
  }

  /** ... and keeps all their values in order. */
  lemma {:induction false} PartValues(kvs: seq<KeyValue>, slot: string -> nat, k: string)
    ensures Values(Part(kvs, slot, slot(k)), k) == Values(kvs, k)
  {
    if kvs != [] {
      var init, kv := kvs[..|kvs| - 1], kvs[|kvs| - 1];
      PartValues(init, slot, k);
      ValuesConcat(Part(init, slot, slot(k)), [kv], k);
      ValuesConcat(Part(init, slot, slot(k)), [], k);
    }
  }

  /** Where the pairs with the key `k` are. */
  ghost function PlacesOf(kvs: seq<KeyValue>, k: string): set<nat> { set n: nat | n < |kvs| && kvs[n].key == k }

  lemma {:induction false} ValuesCount(kvs: seq<KeyValue>, k: string)
    ensures |Values(kvs, k)| == |PlacesOf(kvs, k)|
  {
    if kvs == [] {
      assert PlacesOf(kvs, k) == {};
    } else {
      var l := |kvs| - 1;
      ValuesCount(kvs[..l], k);
      assert l !in PlacesOf(kvs[..l], k);
      assert PlacesOf(kvs, k) == PlacesOf(kvs[..l], k) + if kvs[l].key == k then {l} else {};
    }
  }

  /** The n-th pair has the key `k` and i pairs before it have it, too. */
  ghost predicate NthOf(kvs: seq<KeyValue>, k: string, i: nat, n: nat) {
    n in PlacesOf(kvs, k) && |PlacesOf(kvs[..n], k)| == i
  }

  /** The values are those of the pairs with the key, one for each, in their order. */
  lemma {:induction false} ValuesInOrder(kvs: seq<KeyValue>, k: string, i: nat)
    requires i < |Values(kvs, k)|
    ensures exists n: nat :: NthOf(kvs, k, i, n) && kvs[n].value == Values(kvs, k)[i]
  {
    var l := |kvs| - 1;
    var was := kvs[..l];
    ValuesCount(was, k);
    if i < |Values(was, k)| {
      ValuesInOrder(was, k, i);
      var n: nat :| NthOf(was, k, i, n) && was[n].value == Values(was, k)[i];
      assert was[..n] == kvs[..n];
      assert NthOf(kvs, k, i, n);
    } else {
      assert NthOf(kvs, k, i, l);
    }
  }

  // ---------- JSON ----------

  /** The pairs after they were written as JSON and read back. */
  ghost function Coded(kvs: seq<KeyValue>, enc: string -> string): (out: seq<KeyValue>)
    ensures |out| == |kvs|
    ensures forall i :: 0 <= i < |kvs| ==> out[i] == KeyValue(enc(kvs[i].key), enc(kvs[i].value))
  {
    seq(|kvs|, i requires 0 <= i < |kvs| => KeyValue(enc(kvs[i].key), enc(kvs[i].value)))
  }

  lemma CodedConcat(a: seq<KeyValue>, b: seq<KeyValue>, enc: string -> string)
    ensures Coded(a + b, enc) == Coded(a, enc) + Coded(b, enc)
  {
  }

  // ---------- doMap ----------

  ghost function Emitted(job: Job, m: nat): seq<KeyValue>
    requires m < |job.docs|
  {
    job.mapF(job.docs[m].name, job.docs[m].text)
  }

  /** What map task `m` leaves for reduce task `r`. */
  ghost function MapFile(job: Job, m: nat, r: nat): seq<KeyValue>
    requires m < |job.docs| && job.nReduce > 0
  {
    Coded(Part(Emitted(job, m), Slot(job), r), job.enc)
  }

  lemma {:induction false} PartMembers(kvs: seq<KeyValue>, slot: string -> nat, r: nat, kv: KeyValue)
    ensures kv in Part(kvs, slot, r) <==> kv in kvs && slot(kv.key) == r
  {
    if kvs != [] {
      var init, last := kvs[..|kvs| - 1], kvs[|kvs| - 1];
      assert kvs == init + [last];
      PartMembers(init, slot, r, kv);
    }
  }

  /** What map task `m` emits goes to the reduce task that ihash of its key names, modulo
      nReduce, encoded. */
  lemma MapFileLines(job: Job, m: nat, r: nat, kv: KeyValue)
    requires m < |job.docs| && job.nReduce > 0
    ensures kv in MapFile(job, m, r) <==> exists e ::
      && e in job.mapF(job.docs[m].name, job.docs[m].text) && job.ihash(e.key) % job.nReduce == r
      && kv == KeyValue(job.enc(e.key), job.enc(e.value))
  {
    var part, file := Part(Emitted(job, m), Slot(job), r), MapFile(job, m, r);
    if kv in file {
      var i :| 0 <= i < |file| && file[i] == kv;
      PartMembers(Emitted(job, m), Slot(job), r, part[i]);
      assert part[i] in part;
    }
    if e :| e in Emitted(job, m) && job.ihash(e.key) % job.nReduce == r && kv == KeyValue(job.enc(e.key), job.enc(e.value)) {
      PartMembers(Emitted(job, m), Slot(job), r, e);
      var i :| 0 <= i < |part| && part[i] == e;
      assert file[i] == kv;
    }
  }

  ghost predicate MapOutput(job: Job, m: nat, f: FileName) {
    f.Inter? && f.m == m && f.r < job.nReduce
  }

  /** `g` is `f` after map task `m` has run. */
  ghost predicate MapDone(job: Job, m: nat, f: Files, g: Files)
    requires m < |job.docs| && job.nReduce > 0
  {
    && (forall r: nat :: r < job.nReduce ==> Inter(m, r) in g && g[Inter(m, r)] == MapFile(job, m, r))
    && Others(job, m, f, g)
  }

  /** Files that map task `m` does not write are the same in `f` and `g`. */
  ghost predicate Others(job: Job, m: nat, f: Files, g: Files) {
    forall x :: !MapOutput(job, m, x) ==> (x in g <==> x in f) && (x in f ==> g[x] == f[x])
  }

  /** The partitions after `kvs` have been written. */
  ghost predicate Partial(job: Job, m: nat, kvs: seq<KeyValue>, f: Files)
    requires job.nReduce > 0
  {
    forall r: nat :: r < job.nReduce ==> Inter(m, r) in f && f[Inter(m, r)] == Coded(Part(kvs, Slot(job), r), job.enc)
  }

  lemma PartialNext(job: Job, m: nat, kvs: seq<KeyValue>, kv: KeyValue, f: Files)
    requires job.nReduce > 0 && Partial(job, m, kvs, f)
    ensures var x := Inter(m, Slot(job)(kv.key));
      x in f && Partial(job, m, kvs + [kv], f[x := f[x] + [KeyValue(job.enc(kv.key), job.enc(kv.value))]])
  {
    Snoc(kvs, kv);
    CodedConcat(Part(kvs, Slot(job), Slot(job)(kv.key)), [kv], job.enc);
  }

  // ---------- doReduce ----------

  /** All intermediate files of maps 0..n for reduce task `r` exist. */
  ghost predicate HasInter(f: Files, n: nat, r: nat) { forall i: nat :: i < n ==> Inter(i, r) in f }

  /** Their pairs, in the order of the map tasks. */
  ghost function Gather(f: Files, n: nat, r: nat): seq<KeyValue>
    requires HasInter(f, n, r)
  {
    if n == 0 then [] else Gather(f, n - 1, r) + f[Inter(n - 1, r)]
  }

  /** One line per key, in sorted order, with the value `val` gives it. */
  ghost function Listing(keys: seq<string>, val: string -> string): (out: seq<KeyValue>)
    ensures |out| == |keys| && forall i :: 0 <= i < |keys| ==> out[i] == KeyValue(keys[i], val(keys[i]))
  {
    seq(|keys|, i requires 0 <= i < |keys| => KeyValue(keys[i], val(keys[i])))
  }

  /** The output of reducing `pairs`: every key once, in order, with reduceF
      applied to all its values in the order of `pairs`. */
  ghost function Reduced(pairs: seq<KeyValue>, reduceF: (string, seq<string>) -> string): seq<KeyValue> {
    Listing(SortedListing(KeySet(pairs)), k => reduceF(k, Values(pairs, k)))
  }

  lemma ValuesSnoc(kvs: seq<KeyValue>, kv: KeyValue, k: string)
    ensures Values(kvs + [kv], k) == Values(kvs, k) + (if kv.key == k then [kv.value] else [])
  {
    Snoc(kvs, kv);
  }

  lemma GroupsSnoc(kvs: seq<KeyValue>, kv: KeyValue)
    ensures Groups(kvs + [kv]) ==
      Groups(kvs)[kv.key := (if kv.key in Groups(kvs) then Groups(kvs)[kv.key] else []) + [kv.value]]
  {
    Snoc(kvs, kv);
    var g := Groups(kvs)[kv.key := (if kv.key in Groups(kvs) then Groups(kvs)[kv.key] else []) + [kv.value]];
    assert Groups(kvs + [kv]).Keys == g.Keys;
    forall k | k in g ensures Groups(kvs + [kv])[k] == g[k] {
      ValuesSnoc(kvs, kv, k);
      if k !in KeySet(kvs) {
        NoValues(kvs, k);
      }
    }
  }

  lemma {:induction false} NoValues(kvs: seq<KeyValue>, k: string)
    requires k !in KeySet(kvs)
    ensures Values(kvs, k) == []
  {
    if kvs != [] {
      var init, kv := kvs[..|kvs| - 1], kvs[|kvs| - 1];
      assert kvs == init + [kv];
      Snoc(init, kv);
      NoValues(init, k);
    }
  }

  // ---------- merge ----------

  ghost predicate HasRes(f: Files, n: nat) { forall i: nat :: i < n ==> Res(i) in f }

  ghost function Results(f: Files, n: nat): seq<KeyValue>
    requires HasRes(f, n)
  {
    if n == 0 then [] else Results(f, n - 1) + f[Res(n - 1)]
  }

  /** A map filled from left to right: later pairs overwrite earlier ones. */
  ghost function Overwrite(kvs: seq<KeyValue>): map<string, string> {
    if kvs == [] then map[] else
      var last := kvs[|kvs| - 1];
      Overwrite(kvs[..|kvs| - 1])[last.key := last.value]
  }

  lemma OverwriteSnoc(kvs: seq<KeyValue>, kv: KeyValue)
    ensures Overwrite(kvs + [kv]) == Overwrite(kvs)[kv.key := kv.value]
  {
    Snoc(kvs, kv);
  }

  /** The n-th pair is the last one with the key `k`. */
  ghost predicate LastOf(kvs: seq<KeyValue>, k: string, n: nat) {
    n < |kvs| && kvs[n].key == k && forall i :: n < i < |kvs| ==> kvs[i].key != k
  }

  /** The last pair of each key wins. */
  lemma {:induction false} LastWins(kvs: seq<KeyValue>, k: string, n: nat)
    requires LastOf(kvs, k, n)
    ensures k in Overwrite(kvs) && Overwrite(kvs)[k] == kvs[n].value
  {
    if n < |kvs| - 1 {
      LastWins(kvs[..|kvs| - 1], k, n);
    }
  }

  ghost function Lookup(m: map<string, string>): string -> string {
    k => if k in m then m[k] else ""
  }

  ghost function MergeOf(f: Files, n: nat): seq<KeyValue>
    requires HasRes(f, n)
  {
    var m := Overwrite(Results(f, n));
    Listing(SortedListing(m.Keys), Lookup(m))
  }

  // ---------- results by slot ----------

  /** The first n results are those of the slots of `pairs`. */
  ghost predicate Sliced(f: Files, n: nat, pairs: seq<KeyValue>, slot: string -> nat, reduceF: (string, seq<string>) -> string) {
    && (forall k :: slot(k) < n)
    && (forall r: nat :: r < n ==> Res(r) in f && f[Res(r)] == Reduced(Part(pairs, slot, r), reduceF))
  }

  /** The lines of a reduce output. */
  lemma ReducedLines(pairs: seq<KeyValue>, reduceF: (string, seq<string>) -> string, kv: KeyValue)
    ensures kv in Reduced(pairs, reduceF) <==> kv.key in KeySet(pairs) && kv.value == reduceF(kv.key, Values(pairs, kv.key))
  {
    ListingOf(KeySet(pairs));
    var keys, out := SortedListing(KeySet(pairs)), Reduced(pairs, reduceF);
    if kv in out {
      var i :| 0 <= i < |out| && out[i] == kv;
      assert keys[i] in Elements(keys);
    }
    if kv.key in KeySet(pairs) && kv.value == reduceF(kv.key, Values(pairs, kv.key)) {
      assert kv.key in Elements(keys);
      var i :| 0 <= i < |keys| && keys[i] == kv.key;
      assert out[i] == kv;
    }
  }

  lemma SliceLines(pairs: seq<KeyValue>, slot: string -> nat, r: nat, reduceF: (string, seq<string>) -> string, kv: KeyValue)
    ensures kv in Reduced(Part(pairs, slot, r), reduceF) <==>
      slot(kv.key) == r && kv.key in KeySet(pairs) && kv.value == reduceF(kv.key, Values(pairs, kv.key))
  {
    ReducedLines(Part(pairs, slot, r), reduceF, kv);
    PartKeys(pairs, slot, r, kv.key);
    PartValues(pairs, slot, kv.key);
  }

  /** A line that occurs only in file `slot` occurs in the first n files iff slot < n. */
  lemma {:induction false} LineInResults(f: Files, n: nat, kv: KeyValue, slot: nat, line: bool)
    requires HasRes(f, n) && forall r: nat :: r < n ==> (kv in f[Res(r)] <==> line && slot == r)
    ensures kv in Results(f, n) <==> line && slot < n
  {
    if n > 0 {
      LineInResults(f, n - 1, kv, slot, line);
    }
  }

  lemma ResultsLines(f: Files, n: nat, pairs: seq<KeyValue>, slot: string -> nat, reduceF: (string, seq<string>) -> string, kv: KeyValue)
    requires Sliced(f, n, pairs, slot, reduceF)
    ensures HasRes(f, n)
    ensures kv in Results(f, n) <==> kv.key in KeySet(pairs) && kv.value == reduceF(kv.key, Values(pairs, kv.key))
  {
    var line := kv.key in KeySet(pairs) && kv.value == reduceF(kv.key, Values(pairs, kv.key));
    forall r: nat | r < n ensures kv in f[Res(r)] <==> line && slot(kv.key) == r {
      SliceLines(pairs, slot, r, reduceF, kv);
    }
    LineInResults(f, n, kv, slot(kv.key), line);
  }

  lemma {:induction false} OverwriteIs(kvs: seq<KeyValue>)
    ensures Overwrite(kvs).Keys == KeySet(kvs)
    ensures forall k :: k in Overwrite(kvs) ==> KeyValue(k, Overwrite(kvs)[k]) in kvs
  {
    if kvs != [] {
      var init, kv := kvs[..|kvs| - 1], kvs[|kvs| - 1];
      assert kvs == init + [kv];
      OverwriteIs(init);
      Snoc(init, kv);
    }
  }

  lemma MergedMap(f: Files, n: nat, pairs: seq<KeyValue>, slot: string -> nat, reduceF: (string, seq<string>) -> string)
    requires Sliced(f, n, pairs, slot, reduceF)
    ensures HasRes(f, n)
    ensures var m := Overwrite(Results(f, n));
      m.Keys == KeySet(pairs) && forall k :: k in m ==> m[k] == reduceF(k, Values(pairs, k))
  {
    ResultsLines(f, n, pairs, slot, reduceF, KeyValue("", ""));
    var res := Results(f, n);
    OverwriteIs(res);
    forall k ensures k in KeySet(res) <==> k in KeySet(pairs) {
      ResultsLines(f, n, pairs, slot, reduceF, KeyValue(k, reduceF(k, Values(pairs, k))));
      if k in KeySet(res) {
        var kv :| kv in res && kv.key == k;
        ResultsLines(f, n, pairs, slot, reduceF, kv);
      }
    }
    forall k | k in Overwrite(res) ensures Overwrite(res)[k] == reduceF(k, Values(pairs, k)) {
      ResultsLines(f, n, pairs, slot, reduceF, KeyValue(k, Overwrite(res)[k]));
    }
  }

  /** Merging the slots gives what reducing everything at once would give. */
  lemma MergeOfSlices(f: Files, n: nat, pairs: seq<KeyValue>, slot: string -> nat, reduceF: (string, seq<string>) -> string)
    requires Sliced(f, n, pairs, slot, reduceF)
    ensures HasRes(f, n) && MergeOf(f, n) == Reduced(pairs, reduceF)
  {
    MergedMap(f, n, pairs, slot, reduceF);
    ListingOf(KeySet(pairs));
    var keys := SortedListing(KeySet(pairs));
    forall i | 0 <= i < |keys| ensures MergeOf(f, n)[i] == Reduced(pairs, reduceF)[i] {
      assert keys[i] in Elements(keys);
    }
  }

  // ---------- what a whole job computes ----------

  /** Everything that maps 0..n emit, in file order then emission order. */
  ghost function AllPairs(job: Job, n: nat): seq<KeyValue>
    requires n <= |job.docs|
  {
    if n == 0 then [] else AllPairs(job, n - 1) + Emitted(job, n - 1)
  }

  /** The pairs of map task m follow those of the tasks before it. */
  lemma {:induction false} PairsInOrder(job: Job, n: nat, m: nat, i: nat)
    requires m < n <= |job.docs| && i < |Emitted(job, m)|
    ensures |AllPairs(job, m)| + i < |AllPairs(job, n)|
    ensures AllPairs(job, n)[|AllPairs(job, m)| + i] == job.mapF(job.docs[m].name, job.docs[m].text)[i]
    ensures |AllPairs(job, n)| == |AllPairs(job, n - 1)| + |job.mapF(job.docs[n - 1].name, job.docs[n - 1].text)|
  {
    if m < n - 1 {
      PairsInOrder(job, n - 1, m, i);
    }
  }

  ghost function Everything(job: Job): seq<KeyValue> { AllPairs(job, |job.docs|) }

  /** The intended final output; it mentions neither the hash, nor nReduce, nor files. */
  ghost function JobOutput(job: Job): seq<KeyValue> {
    Reduced(Everything(job), job.reduceF)
  }

  ghost predicate Mapped(job: Job, f: Files)
    requires job.nReduce > 0
  {
    forall m: nat, r: nat :: m < |job.docs| && r < job.nReduce ==>
      Inter(m, r) in f && f[Inter(m, r)] == MapFile(job, m, r)
  }

  /** What reduce task `r` reads. */
  ghost function Read(job: Job, n: nat, r: nat): seq<KeyValue>
    requires job.nReduce > 0 && n <= |job.docs|
  {
    Coded(Part(AllPairs(job, n), Slot(job), r), job.enc)
  }

  /** What it leaves. */
  ghost function ResFile(job: Job, r: nat): seq<KeyValue>
    requires job.nReduce > 0
  {
    Coded(Reduced(Read(job, |job.docs|, r), job.reduceF), job.enc)
  }

  ghost predicate AllReduced(job: Job, f: Files)
    requires job.nReduce > 0
  {
    forall r: nat :: r < job.nReduce ==> Res(r) in f && f[Res(r)] == ResFile(job, r)
  }

  ghost function ResFiles(job: Job, n: nat): Files
    requires job.nReduce > 0
  {
    if n == 0 then map[] else ResFiles(job, n - 1)[Res(n - 1) := ResFile(job, n - 1)]
  }

  /** The output that the files of the job lead to. */
  ghost function ActualOutput(job: Job): seq<KeyValue>
    requires job.nReduce > 0
  {
    ResFilesHave(job, job.nReduce);
    MergeOf(ResFiles(job, job.nReduce), job.nReduce)
  }

  lemma {:induction false} ResFilesHave(job: Job, n: nat)
    requires job.nReduce > 0
    ensures forall r: nat :: r < n ==> Res(r) in ResFiles(job, n) && ResFiles(job, n)[Res(r)] == ResFile(job, r)
  {
    if n > 0 {
      ResFilesHave(job, n - 1);
    }
  }

  lemma {:induction false} SameResults(f: Files, g: Files, n: nat)
    requires HasRes(f, n) && HasRes(g, n) && forall r: nat :: r < n ==> f[Res(r)] == g[Res(r)]
    ensures Results(f, n) == Results(g, n)
  {
    if n > 0 {
      SameResults(f, g, n - 1);
    }
  }

  /** Whoever left the results, merging them gives the same output. */
  lemma MergeIsActual(job: Job, f: Files)
    requires job.nReduce > 0 && AllReduced(job, f)
    ensures HasRes(f, job.nReduce) && MergeOf(f, job.nReduce) == ActualOutput(job)
  {
    ResFilesHave(job, job.nReduce);
    SameResults(f, ResFiles(job, job.nReduce), job.nReduce);
  }

  lemma {:induction false} GatherIsRead(job: Job, f: Files, n: nat, r: nat)
    requires job.nReduce > 0 && Mapped(job, f) && n <= |job.docs| && r < job.nReduce
    ensures HasInter(f, n, r) && Gather(f, n, r) == Read(job, n, r)
  {
    if n > 0 {
      GatherIsRead(job, f, n - 1, r);
      var a, b := Part(AllPairs(job, n - 1), Slot(job), r), Part(Emitted(job, n - 1), Slot(job), r);
      PartConcat(AllPairs(job, n - 1), Emitted(job, n - 1), Slot(job), r);
      CodedConcat(a, b, job.enc);
      assert f[Inter(n - 1, r)] == MapFile(job, n - 1, r);
    }
  }

  // ---------- when the output is the intended one ----------

  /** Every emitted key survives the encoding. */
  ghost predicate KeysKept(job: Job) { forall k :: k in KeySet(Everything(job)) ==> job.enc(k) == k }

  /** What is read back for a key reduces to the same value, which survives too. */
  ghost predicate ValueKept(job: Job, k: string) {
    job.enc(job.reduceF(k, Values(Coded(Everything(job), job.enc), k))) == job.reduceF(k, Values(Everything(job), k))
  }

  ghost predicate ValuesKept(job: Job) { forall k :: k in KeySet(Everything(job)) ==> ValueKept(job, k) }

  ghost predicate Idempotent(enc: string -> string) { forall s :: enc(enc(s)) == enc(s) }

  ghost predicate KeysFixed(kvs: seq<KeyValue>, enc: string -> string) { forall k :: k in KeySet(kvs) ==> enc(k) == k }

  /** While the keys survive, encoding and partition commute. */
  lemma {:induction false} CodedPart(kvs: seq<KeyValue>, slot: string -> nat, r: nat, enc: string -> string)
    requires KeysFixed(kvs, enc)
    ensures Coded(Part(kvs, slot, r), enc) == Part(Coded(kvs, enc), slot, r)
  {
    if kvs != [] {
      var init, kv := kvs[..|kvs| - 1], kvs[|kvs| - 1];
      assert kvs == init + [kv];
      Snoc(init, kv);
      assert KeysFixed(init, enc);
      CodedPart(init, slot, r, enc);
      CodedConcat(init, [kv], enc);
      PartConcat(Coded(init, enc), Coded([kv], enc), slot, r);
    }
  }

  lemma CodedKeys(kvs: seq<KeyValue>, enc: string -> string, k: string)
    ensures k in KeySet(Coded(kvs, enc)) <==> exists x :: x in KeySet(kvs) && enc(x) == k
  {
    var out := Coded(kvs, enc);
    if k in KeySet(out) {
      var i :| 0 <= i < |out| && out[i].key == k;
      assert kvs[i].key in KeySet(kvs);
    }
    if x :| x in KeySet(kvs) && enc(x) == k {
      var i :| 0 <= i < |kvs| && kvs[i].key == x;
      assert out[i].key == k;
    }
  }

  lemma CodedKeysFixed(kvs: seq<KeyValue>, enc: string -> string)
    requires KeysFixed(kvs, enc)
    ensures KeySet(Coded(kvs, enc)) == KeySet(kvs)
  {
    forall k ensures k in KeySet(Coded(kvs, enc)) <==> k in KeySet(kvs) {
      CodedKeys(kvs, enc, k);
    }
  }

  /** reduceF with its result encoded. */
  ghost function CodedReduce(job: Job): (string, seq<string>) -> string {
    (k, vs) => job.enc(job.reduceF(k, vs))
  }

  lemma CodedReduced(job: Job, pairs: seq<KeyValue>)
    requires KeysFixed(pairs, job.enc)
    ensures Coded(Reduced(pairs, job.reduceF), job.enc) == Reduced(pairs, CodedReduce(job))
  {
    var keys := SortedListing(KeySet(pairs));
    ListingOf(KeySet(pairs));
    forall i | 0 <= i < |keys| ensures job.enc(keys[i]) == keys[i] {
      assert keys[i] in Elements(keys);
    }
  }

  lemma ReadKeys(job: Job, r: nat)
    requires job.nReduce > 0 && KeysKept(job)
    ensures KeysFixed(Read(job, |job.docs|, r), job.enc)
  {
    var part := Part(Everything(job), Slot(job), r);
    forall k | k in KeySet(Read(job, |job.docs|, r)) ensures job.enc(k) == k {
      CodedKeys(part, job.enc, k);
      var x :| x in KeySet(part) && job.enc(x) == k;
      PartKeys(Everything(job), Slot(job), r, x);
    }
  }

  /** If the keys survive, the results are the slots of what was read back. */
  lemma KeptSliced(job: Job, f: Files)
    requires job.nReduce > 0 && KeysKept(job) && AllReduced(job, f)
    ensures Sliced(f, job.nReduce, Coded(Everything(job), job.enc), Slot(job), CodedReduce(job))
  {
    var all := Everything(job);
    forall r: nat | r < job.nReduce
      ensures Res(r) in f && f[Res(r)] == Reduced(Part(Coded(all, job.enc), Slot(job), r), CodedReduce(job))
    {
      CodedPart(all, Slot(job), r, job.enc);
      ReadKeys(job, r);
      CodedReduced(job, Read(job, |job.docs|, r));
    }
  }

  lemma KeptOutput(job: Job)
    requires job.nReduce > 0 && KeysKept(job)
    ensures ActualOutput(job) == Reduced(Coded(Everything(job), job.enc), CodedReduce(job))
  {
    var f := ResFiles(job, job.nReduce);
    ResFilesHave(job, job.nReduce);
    KeptSliced(job, f);
    MergeOfSlices(f, job.nReduce, Coded(Everything(job), job.enc), Slot(job), CodedReduce(job));
  }

  /** If the keys survive, the output is right exactly when the values do. */
  lemma KeptExactly(job: Job)
    requires job.nReduce > 0 && KeysKept(job)
    ensures ActualOutput(job) == JobOutput(job) <==> ValuesKept(job)
  {
    var all := Everything(job);
    KeptOutput(job);
    CodedKeysFixed(all, job.enc);
    ListingOf(KeySet(all));
    var keys := SortedListing(KeySet(all));
    forall i | 0 <= i < |keys| ensures keys[i] in KeySet(all) {
      assert keys[i] in Elements(keys);
    }
    if ActualOutput(job) == JobOutput(job) {
      forall k | k in KeySet(all) ensures ValueKept(job, k) {
        assert k in Elements(keys);
        var i :| 0 <= i < |keys| && keys[i] == k;
        assert ActualOutput(job)[i] == JobOutput(job)[i];
      }
    }
  }

  /** The keys of the output were all encoded. */
  lemma {:induction false} ResultKeys(job: Job, f: Files, n: nat, k: string)
    requires job.nReduce > 0 && HasRes(f, n) && forall r: nat :: r < n ==> f[Res(r)] == ResFile(job, r)
    requires k in KeySet(Results(f, n))
    ensures exists x :: job.enc(x) == k
  {
    if n > 0 {
      if k in KeySet(f[Res(n - 1)]) {
        CodedKeys(Reduced(Read(job, |job.docs|, n - 1), job.reduceF), job.enc, k);
      } else {
        ResultKeys(job, f, n - 1, k);
      }
    }
  }

  lemma OutputKeys(f: Files, n: nat)
    requires HasRes(f, n)
    ensures KeySet(MergeOf(f, n)) == KeySet(Results(f, n))
  {
    var m := Overwrite(Results(f, n));
    OverwriteIs(Results(f, n));
    ListingOf(m.Keys);
    var keys := SortedListing(m.Keys);
    ListingKeys(keys, Lookup(m));
  }

  lemma ListingKeys(keys: seq<string>, val: string -> string)
    ensures KeySet(Listing(keys, val)) == Elements(keys)
  {
    var out := Listing(keys, val);
    forall k | k in keys ensures k in KeySet(out) {
      var i :| 0 <= i < |keys| && keys[i] == k;
      assert out[i] in out;
    }
  }

  lemma RightKeepsKeys(job: Job)
    requires job.nReduce > 0 && Idempotent(job.enc) && ActualOutput(job) == JobOutput(job)
    ensures KeysKept(job)
  {
    var all, f := Everything(job), ResFiles(job, job.nReduce);
    ResFilesHave(job, job.nReduce);
    OutputKeys(f, job.nReduce);
    ListingOf(KeySet(all));
    ListingKeys(SortedListing(KeySet(all)), k => job.reduceF(k, Values(all, k)));
    forall k | k in KeySet(all) ensures job.enc(k) == k {
      ResultKeys(job, f, job.nReduce, k);
    }
  }

  /** The output of a job is the intended one, whatever the hash and nReduce,
      exactly when its keys and reduced values survive the JSON files. */
  lemma OutputExactly(job: Job)
    requires job.nReduce > 0 && Idempotent(job.enc)
    ensures ActualOutput(job) == JobOutput(job) <==> KeysKept(job) && ValuesKept(job)
  {
    if KeysKept(job) {
      KeptExactly(job);
    } else if ActualOutput(job) == JobOutput(job) {
      RightKeepsKeys(job);
    }
  }

  /** The keys of one reduce output are distinct, and are the encoded keys of its slot. */
  lemma ResFileKeys(job: Job, r: nat, k: string)
    requires job.nReduce > 0 && Idempotent(job.enc)
    ensures k in KeySet(ResFile(job, r)) <==>
      exists x :: x in KeySet(Everything(job)) && Slot(job)(x) == r && job.enc(x) == k
  {
    var all, part, read := Everything(job), Part(Everything(job), Slot(job), r), Read(job, |job.docs|, r);
    ListingOf(KeySet(read));
    ListingKeys(SortedListing(KeySet(read)), y => job.reduceF(y, Values(read, y)));
    assert KeySet(Reduced(read, job.reduceF)) == KeySet(read);
    CodedKeys(Reduced(read, job.reduceF), job.enc, k);
    if k in KeySet(ResFile(job, r)) {
      var y :| y in KeySet(read) && job.enc(y) == k;
      CodedKeys(part, job.enc, y);
      var x :| x in KeySet(part) && job.enc(x) == y;
      PartKeys(all, Slot(job), r, x);
    }
    if x :| x in KeySet(all) && Slot(job)(x) == r && job.enc(x) == k {
      PartKeys(all, Slot(job), r, x);
      CodedKeys(part, job.enc, k);
    }
  }

  /** A key is in two reduce outputs, so that merging overwrites one of its lines. */
  ghost predicate Overwrites(job: Job)
    requires job.nReduce > 0
  {
    exists k, r1: nat, r2: nat :: r1 != r2 && k in KeySet(ResFile(job, r1)) && k in KeySet(ResFile(job, r2))
  }

  /** Two emitted keys of different slots look alike in a JSON file. */
  ghost predicate Collides(job: Job)
    requires job.nReduce > 0
  {
    exists x, y :: Colliding(job, x, y)
  }

  ghost predicate Colliding(job: Job, x: string, y: string)
    requires job.nReduce > 0
  {
    && x in KeySet(Everything(job)) && y in KeySet(Everything(job))
    && Slot(job)(x) != Slot(job)(y) && job.enc(x) == job.enc(y)
  }

  lemma MergeOverwritesExactly(job: Job)
    requires job.nReduce > 0 && Idempotent(job.enc)
    ensures Overwrites(job) <==> Collides(job)
  {
    if k, r1: nat, r2: nat :| r1 != r2 && k in KeySet(ResFile(job, r1)) && k in KeySet(ResFile(job, r2)) {
      ResFileKeys(job, r1, k);
      ResFileKeys(job, r2, k);
      var x :| x in KeySet(Everything(job)) && Slot(job)(x) == r1 && job.enc(x) == k;
      var y :| y in KeySet(Everything(job)) && Slot(job)(y) == r2 && job.enc(y) == k;
      assert Colliding(job, x, y);
    }
    if x, y :| Colliding(job, x, y) {
      ResFileKeys(job, Slot(job)(x), job.enc(x));
      ResFileKeys(job, Slot(job)(y), job.enc(x));
    }
  }

  /** In one reduce output no key appears twice. */
  lemma ResFileDistinct(job: Job, r: nat, i: nat, j: nat)
    requires job.nReduce > 0 && Idempotent(job.enc) && i < j < |ResFile(job, r)|
    ensures ResFile(job, r)[i].key != ResFile(job, r)[j].key
  {
    var read := Read(job, |job.docs|, r);
    var keys := SortedListing(KeySet(read));
    ListingOf(KeySet(read));
    assert keys[i] in Elements(keys) && keys[j] in Elements(keys);
    CodedKeys(Part(Everything(job), Slot(job), r), job.enc, keys[i]);
    CodedKeys(Part(Everything(job), Slot(job), r), job.enc, keys[j]);
    LessIrreflexive(keys[i]);
  }

  /** kvs[kv.Key] = append(kvs[kv.Key], kv.Value), creating the entry if needed. */
  method AddPair(kvs: map<string, seq<string>>, kv: KeyValue, ghost seen: seq<KeyValue>)
    returns (kvs2: map<string, seq<string>>)
    requires kvs == Groups(seen)
    ensures kvs2 == Groups(seen + [kv])
  {
    GroupsSnoc(seen, kv);
    kvs2 := kvs;
    if kv.key !in kvs2 {
      kvs2 := kvs2[kv.key := []];
    }
    kvs2 := kvs2[kv.key := kvs2[kv.key] + [kv.value]];
  }

  class Disk {
    var files: Files

    constructor ()
      ensures files == map[]
    {
      files := map[];
    }

    /** doMap: create all partitions, then append every pair to its own. */
    method DoMap(job: Job, m: nat)
      requires m < |job.docs| && job.nReduce > 0
      modifies this
      ensures MapDone(job, m, old(files), files)
    {
      var kvs := job.mapF(job.docs[m].name, job.docs[m].text);
      for i := 0 to job.nReduce
        invariant forall r: nat :: r < i ==> Inter(m, r) in files && files[Inter(m, r)] == []
        invariant Others(job, m, old(files), files)
      {
        files := files[Inter(m, i) := []];
      }
      for j := 0 to |kvs|
        invariant Partial(job, m, kvs[..j], files) && Others(job, m, old(files), files)
      {
        var kv := kvs[j];
        var idx := job.ihash(kv.key) % job.nReduce;
        assert kvs[..j + 1] == kvs[..j] + [kv];
        PartialNext(job, m, kvs[..j], kv, files);
        files := files[Inter(m, idx) := files[Inter(m, idx)] + [KeyValue(job.enc(kv.key), job.enc(kv.value))]];
      }
      assert kvs[..|kvs|] == kvs;
    }

    /** The grouping loops of doReduce; None is the panic on a missing file. */
    method GroupPairs(n: nat, r: nat) returns (ok: bool, kvs: map<string, seq<string>>)
      ensures ok <==> HasInter(files, n, r)
      ensures ok ==> kvs == Groups(Gather(files, n, r))
    {
      kvs := map[];
      ghost var seen: seq<KeyValue> := [];
      for i := 0 to n
        invariant HasInter(files, i, r) && seen == Gather(files, i, r) && kvs == Groups(seen)
      {
        if Inter(i, r) !in files {
          return false, map[];
        }
        var pairs := files[Inter(i, r)];
        for j := 0 to |pairs|
          invariant seen == Gather(files, i, r) + pairs[..j] && kvs == Groups(seen)
        {
          var kv := pairs[j];
          kvs := AddPair(kvs, kv, seen);
          assert pairs[..j + 1] == pairs[..j] + [kv];
          seen := seen + [kv];
        }
        assert pairs[..|pairs|] == pairs;
      }
      ok := true;
    }

    /** doReduce: group by key, sort the keys, write one line per key. */
    method DoReduce(job: Job, r: nat) returns (ok: bool)
      modifies this
      ensures ok <==> HasInter(old(files), |job.docs|, r)
      ensures ok ==> files == old(files)[Res(r) := Coded(Reduced(Gather(old(files), |job.docs|, r), job.reduceF), job.enc)]
      ensures !ok ==> files == old(files)
    {
      var kvs;
      ok, kvs := GroupPairs(|job.docs|, r);
      if !ok {
        return;
      }
      ghost var pairs := Gather(files, |job.docs|, r);
      var keys := SortedKeysOf(kvs);
      ListingIs(keys, KeySet(pairs));
      var out: seq<KeyValue> := [];
      for i := 0 to |keys|
        invariant out == Coded(Reduced(pairs, job.reduceF)[..i], job.enc)
      {
        assert keys[i] in Elements(keys);
        var v := job.reduceF(keys[i], kvs[keys[i]]);
        assert Reduced(pairs, job.reduceF)[i] == KeyValue(keys[i], v);
        out := out + [KeyValue(job.enc(keys[i]), job.enc(v))];
      }
      assert Reduced(pairs, job.reduceF)[..|keys|] == Reduced(pairs, job.reduceF);
      files := files[Res(r) := out];
    }

    /** The reading loops of merge; false is the exit on a missing file. */
    method CollectResults(n: nat) returns (ok: bool, kvs: map<string, string>)
      ensures ok <==> HasRes(files, n)
      ensures ok ==> kvs == Overwrite(Results(files, n))
    {
      kvs := map[];
      ghost var seen: seq<KeyValue> := [];
      for i := 0 to n
        invariant HasRes(files, i) && seen == Results(files, i) && kvs == Overwrite(seen)
      {
        if Res(i) !in files {
          return false, map[];
        }
        var pairs := files[Res(i)];
        for j := 0 to |pairs|
          invariant seen == Results(files, i) + pairs[..j] && kvs == Overwrite(seen)
        {
          var kv := pairs[j];
          OverwriteSnoc(seen, kv);
          kvs := kvs[kv.key := kv.value];
          assert pairs[..j + 1] == pairs[..j] + [kv];
          seen := seen + [kv];
        }
        assert pairs[..|pairs|] == pairs;
      }
      ok := true;
    }

    /** merge: all results in one map, written in key order. */
    method Merge(n: nat) returns (ok: bool)
      modifies this
      ensures ok <==> HasRes(old(files), n)
      ensures ok ==> files == old(files)[Out := MergeOf(old(files), n)]
      ensures !ok ==> files == old(files)
    {
      var kvs;
      ok, kvs := CollectResults(n);
      if !ok {
        return;
      }
      var keys := SortedKeysOf(kvs);
      ListingIs(keys, kvs.Keys);
      var out: seq<KeyValue> := [];
      for i := 0 to |keys|
        invariant |out| == i && forall j :: 0 <= j < i ==> out[j] == KeyValue(keys[j], Lookup(kvs)(keys[j]))
      {
        assert keys[i] in Elements(keys);
        out := out + [KeyValue(keys[i], kvs[keys[i]])];
      }
      assert out == MergeOf(files, n);
      files := files[Out := out];
    }

    /** The map phase of Sequential. */
    method MapAll(job: Job)
      requires job.nReduce > 0
      modifies this
      ensures Mapped(job, files)
    {
      for m := 0 to |job.docs|
        invariant forall i: nat, r: nat :: i < m && r < job.nReduce ==>
          Inter(i, r) in files && files[Inter(i, r)] == MapFile(job, i, r)
      {
        ghost var before := files;
        DoMap(job, m);
        forall i: nat, r: nat | i <= m && r < job.nReduce
          ensures Inter(i, r) in files && files[Inter(i, r)] == MapFile(job, i, r)
        {
          if i < m {
            assert !MapOutput(job, m, Inter(i, r)) && Inter(i, r) in before;
          }
        }
      }
    }

    /** The reduce phase of Sequential; no intermediate file is missing. */
    method ReduceAll(job: Job) returns (ok: bool)
      requires job.nReduce > 0 && Mapped(job, files)
      modifies this
      ensures ok && Mapped(job, files) && AllReduced(job, files)
    {
      for r := 0 to job.nReduce
        invariant Mapped(job, files)
        invariant forall i: nat :: i < r ==> Res(i) in files && files[Res(i)] == ResFile(job, i)
      {
        GatherIsRead(job, files, |job.docs|, r);
        ok := DoReduce(job, r);
        if !ok {
          return;
        }
      }
      ok := true;
    }

    /** Sequential: map, reduce, merge. */
    method Sequential(job: Job) returns (ok: bool)
      requires job.nReduce > 0
      modifies this
      ensures ok && Mapped(job, files) && AllReduced(job, files)
      ensures Out in files && files[Out] == ActualOutput(job)
    {
      MapAll(job);
      ok := ReduceAll(job);
      if !ok {
        return;
      }
      MergeIsActual(job, files);
      ok := Merge(job.nReduce);
    }
  }
}
