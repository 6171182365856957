/** The word count and inverted index programs
    (mit_6.824/src/main/wc.go, mit_6.824/src/main/ii.go). */
module WordCount {
  import opened MapReduce
  import opened Json
  import SortedKeys

  // ---------- numbers as text ----------

  datatype Option<T> = None | Some(value: T)

  function Digit(d: nat): char
    requires d < 10
  {
    "0123456789"[d]
  }

  /** strconv.Itoa on the counts used here. */
  function Itoa(n: nat): (s: string)
    ensures s != []
  {
    if n < 10 then [Digit(n)] else Itoa(n / 10) + [Digit(n % 10)]
  }

  function DigitsValue(s: string): Option<nat> {
    if s == [] then Some(0) else
      var c := s[|s| - 1];
      match DigitsValue(s[..|s| - 1])
      case Some(v) => if '0' <= c <= '9' then Some(10 * v + (c - '0') as nat) else None
      case None => None
  }

  /** strconv.Atoi: an optional sign and at least one digit. */
  function Atoi(s: string): Option<int> {
    var body := if s != [] && (s[0] == '+' || s[0] == '-') then s[1..] else s;
    if body == [] then None else
      match DigitsValue(body)
      case Some(v) =>
        var n: int := v;
        Some(if s[0] == '-' then -n else n)
      case None => None
  }

  lemma {:induction false} ItoaDigits(n: nat)
    ensures DigitsValue(Itoa(n)) == Some(n) && '0' <= Itoa(n)[0] <= '9'
  {
    if n < 10 {
      assert Itoa(n)[..0] == [];
    } else {
      ItoaDigits(n / 10);
      assert Itoa(n)[..|Itoa(n)| - 1] == Itoa(n / 10);
    }
  }

  /** Reading a printed count gives it back, so counts are printed faithfully. */
  lemma AtoiItoa(n: nat)
    ensures Atoi(Itoa(n)) == Some(n)
  {
    ItoaDigits(n);
  }

  /** A sign may precede the digits. */
  lemma AtoiSigned(n: nat)
    ensures Atoi("+" + Itoa(n)) == Some(n) && Atoi("-" + Itoa(n)) == Some(-(n as int))
  {
    ItoaDigits(n);
    assert ("+" + Itoa(n))[1..] == Itoa(n) && ("-" + Itoa(n))[1..] == Itoa(n);
  }

  /** Anything but digits is an error. */
  lemma {:induction false} DigitsOnly(s: string)
    ensures DigitsValue(s).Some? <==> forall i :: 0 <= i < |s| ==> '0' <= s[i] <= '9'
  {
    if s != [] {
      DigitsOnly(s[..|s| - 1]);
    }
  }

  /** A number without its last k decimal digits. */
  function Dropped(n: nat, k: nat): nat { if k == 0 then n else Dropped(n / 10, k - 1) }

  /** Each digit is in its place, and there are as many as it takes. */
  lemma {:induction false} ItoaPlaces(n: nat, k: nat)
    ensures k < |Itoa(n)| ==> Itoa(n)[|Itoa(n)| - 1 - k] == "0123456789"[Dropped(n, k) % 10]
    ensures 0 < k ==> (k < |Itoa(n)| <==> 0 < Dropped(n, k))
  {
    if n >= 10 {
      if k > 0 { ItoaPlaces(n / 10, k - 1); }
    } else if k > 0 {
      DroppedZero(k - 1);
    }
  }

  lemma DroppedZero(k: nat)
    ensures Dropped(0, k) == 0
  {
  }

  // ---------- words as maximal runs of letters ----------

  /** unicode.IsLetter of a single byte taken as a code point. */
  predicate IsLetter(c: char) {
    || 'a' <= c <= 'z' || 'A' <= c <= 'Z'
    || c == '\U{AA}' || c == '\U{B5}' || c == '\U{BA}'
    || ('\U{C0}' <= c <= '\U{FF}' && c != '\U{D7}' && c != '\U{F7}')
  }

  /** The letters among the code points below 256, as ranges (category L of Unicode). */
  const LATIN1: seq<(char, char)> := [
    ('A', 'Z'), ('a', 'z'), ('\U{AA}', '\U{AA}'), ('\U{B5}', '\U{B5}'), ('\U{BA}', '\U{BA}'),
    ('\U{C0}', '\U{D6}'), ('\U{D8}', '\U{F6}'), ('\U{F8}', '\U{FF}')]

  lemma LettersAre(c: char)
    ensures IsLetter(c) <==> exists i :: 0 <= i < |LATIN1| && LATIN1[i].0 <= c <= LATIN1[i].1
  {
    var i := if c <= 'Z' then 0 else if c <= 'z' then 1 else if c <= '\U{AA}' then 2 else if c <= '\U{B5}' then 3
             else if c <= '\U{BA}' then 4 else if c <= '\U{D6}' then 5 else if c <= '\U{F6}' then 6 else 7;
    assert IsLetter(c) <==> LATIN1[i].0 <= c <= LATIN1[i].1;
  }

  ghost predicate AllLetters(text: string, i: nat, j: nat) {
    j <= |text| && forall k :: i <= k < j ==> IsLetter(text[k])
  }

  /** text[i..j] is a word: letters only, and not extensible on either side. */
  ghost predicate IsRun(text: string, i: nat, j: nat) {
    && i < j <= |text| && AllLetters(text, i, j)
    && (i == 0 || !IsLetter(text[i - 1]))
    && (j == |text| || !IsLetter(text[j]))
  }

  /** The occurrences of the word `w` that start at `from` or later. */
  ghost function RunsFrom(text: string, from: nat, w: string): set<(nat, nat)> {
    set i: nat, j: nat | i <= |text| && j <= |text| && from <= i && IsRun(text, i, j) && text[i..j] == w :: (i, j)
  }

  ghost function Occurrences(text: string, w: string): nat { |RunsFrom(text, 0, w)| }

  ghost function RunEnd(text: string, i: nat): (e: nat)
    requires i <= |text|
    ensures i <= e <= |text| && AllLetters(text, i, e) && (e < |text| ==> !IsLetter(text[e]))
    decreases |text| - i
  {
    if i < |text| && IsLetter(text[i]) then RunEnd(text, i + 1) else i
  }

  /** The words of text[from..], in order. */
  ghost function WordsFrom(text: string, from: nat): seq<string>
    requires from <= |text|
    decreases |text| - from
  {
    if from == |text| then []
    else if !IsLetter(text[from]) then WordsFrom(text, from + 1)
    else
      var e := RunEnd(text, from + 1);
      [text[from..e]] + WordsFrom(text, e)
  }

  ghost function Words(text: string): seq<string> { WordsFrom(text, 0) }

  ghost function CountWord(words: seq<string>, w: string): nat {
    if words == [] then 0 else (if words[0] == w then 1 else 0) + CountWord(words[1..], w)
  }

  /** No word straddles `from`. */
  ghost predicate Boundary(text: string, from: nat) {
    from == 0 || from >= |text| || !IsLetter(text[from - 1]) || !IsLetter(text[from])
  }

  lemma RunAt(text: string, from: nat, e: nat, w: string)
    requires from < e <= |text| && Boundary(text, from) && AllLetters(text, from, e) && (e < |text| ==> !IsLetter(text[e]))
    ensures RunsFrom(text, from, w) == RunsFrom(text, e, w) + (if text[from..e] == w then {(from, e)} else {})
  {
    assert IsRun(text, from, e);
    forall i: nat, j: nat | from <= i < e && IsRun(text, i, j) ensures i == from && j == e {
    }
  }

  lemma NoRunAt(text: string, from: nat, w: string)
    requires from < |text| && !IsLetter(text[from])
    ensures RunsFrom(text, from, w) == RunsFrom(text, from + 1, w)
  {
  }

  lemma NoRunLeft(text: string, w: string)
    ensures RunsFrom(text, |text|, w) == {}
  {
  }

  /** The scanner's words are exactly the maximal runs of letters, each
      occurrence counted once. */
  lemma {:induction false} CountIsOccurrences(text: string, from: nat, w: string)
    requires from <= |text| && Boundary(text, from)
    ensures CountWord(WordsFrom(text, from), w) == |RunsFrom(text, from, w)|
    decreases |text| - from
  {
    if from == |text| {
      NoRunLeft(text, w);
    } else if !IsLetter(text[from]) {
      CountIsOccurrences(text, from + 1, w);
      NoRunAt(text, from, w);
    } else {
      var e := RunEnd(text, from + 1);
      assert AllLetters(text, from, e);
      CountIsOccurrences(text, e, w);
      RunAt(text, from, e, w);
      assert (from, e) !in RunsFrom(text, e, w);
    }
  }

  /** The words that start between two places. */
  ghost function RunsBetween(text: string, from: nat, to: nat): set<(nat, nat)> {
    set i: nat, j: nat | from <= i < to && i <= |text| && j <= |text| && IsRun(text, i, j) :: (i, j)
  }

  /** The run text[i..j] is the word w, and k others start between `from` and it. */
  ghost predicate KthRun(text: string, from: nat, k: nat, w: string, i: nat, j: nat) {
    from <= i && IsRun(text, i, j) && text[i..j] == w && |RunsBetween(text, from, i)| == k
  }

  lemma RunBetween(text: string, from: nat, e: nat, to: nat)
    requires from < e <= |text| && e <= to && Boundary(text, from) && AllLetters(text, from, e) && (e < |text| ==> !IsLetter(text[e]))
    ensures RunsBetween(text, from, to) == RunsBetween(text, e, to) + {(from, e)}
  {
    assert IsRun(text, from, e);
    forall i: nat, j: nat | from <= i < e && IsRun(text, i, j) ensures i == from && j == e {
    }
  }

  lemma NoRunBetween(text: string, from: nat, to: nat)
    requires from < |text| && !IsLetter(text[from]) && from + 1 <= to
    ensures RunsBetween(text, from, to) == RunsBetween(text, from + 1, to)
  {
  }

  /** The words come in the order of the text. */
  lemma {:induction false} WordsInOrder(text: string, from: nat, k: nat)
    requires from <= |text| && Boundary(text, from) && k < |WordsFrom(text, from)|
    ensures exists i: nat, j: nat :: KthRun(text, from, k, WordsFrom(text, from)[k], i, j)
    decreases |text| - from
  {
    if !IsLetter(text[from]) {
      WordsInOrder(text, from + 1, k);
      var i: nat, j: nat :| KthRun(text, from + 1, k, WordsFrom(text, from)[k], i, j);
      NoRunBetween(text, from, i);
      assert KthRun(text, from, k, WordsFrom(text, from)[k], i, j);
    } else {
      var e := RunEnd(text, from + 1);
      assert AllLetters(text, from, e);
      if k == 0 {
        assert RunsBetween(text, from, from) == {};
        assert KthRun(text, from, k, WordsFrom(text, from)[k], from, e);
      } else {
        WordsInOrder(text, e, k - 1);
        var i: nat, j: nat :| KthRun(text, e, k - 1, WordsFrom(text, from)[k], i, j);
        RunBetween(text, from, e, i);
        assert (from, e) !in RunsBetween(text, e, i);
        assert KthRun(text, from, k, WordsFrom(text, from)[k], i, j);
      }
    }
  }

  lemma {:induction false} CountConcat(a: seq<string>, b: seq<string>, w: string)
    ensures CountWord(a + b, w) == CountWord(a, w) + CountWord(b, w)
  {
    if a == [] {
      assert a + b == b;
    } else {
      assert (a + b)[1..] == a[1..] + b;
      CountConcat(a[1..], b, w);
    }
  }

  lemma {:induction false} CountPositive(words: seq<string>, w: string)
    ensures CountWord(words, w) > 0 <==> w in words
  {
    if words != [] {
      CountPositive(words[1..], w);
    }
  }

  // ---------- the scanning loop ----------

  /** What the loop of mapF still has to find, given its two indices. */
  ghost predicate Scanning(text: string, begin: nat, end: nat, done: seq<string>) {
    && begin <= end <= |text| && AllLetters(text, begin, end)
    && Words(text) == done + WordsFrom(text, begin)
  }

  lemma ScanWord(text: string, begin: nat, end: nat, done: seq<string>)
    requires Scanning(text, begin, end, done) && begin < end && (end < |text| ==> !IsLetter(text[end]))
    ensures Words(text) == done + [text[begin..end]] + WordsFrom(text, end)
    ensures end < |text| ==> WordsFrom(text, end) == WordsFrom(text, end + 1)
  {
    RunEndIs(text, begin + 1, end);
    assert done + ([text[begin..end]] + WordsFrom(text, end)) == done + [text[begin..end]] + WordsFrom(text, end);
  }

  lemma {:induction false} RunEndIs(text: string, i: nat, e: nat)
    requires i <= e <= |text| && AllLetters(text, i, e) && (e < |text| ==> !IsLetter(text[e]))
    ensures RunEnd(text, i) == e
    decreases e - i
  {
    if i < e {
      RunEndIs(text, i + 1, e);
    }
  }

  ghost function Ones(words: seq<string>): (kvs: seq<KeyValue>)
    ensures |kvs| == |words| && forall i :: 0 <= i < |words| ==> kvs[i] == KeyValue(words[i], "1")
  {
    seq(|words|, i requires 0 <= i < |words| => KeyValue(words[i], "1"))
  }

  /** mapF of wc.go: one pair per word. */
  method WcMapF(document: string, value: string) returns (res: seq<KeyValue>)
    ensures res == Ones(Words(value))
  {
    res := [];
    var begin, end, doclen := 0, 0, |value|;
    ghost var done := [];
    while end < doclen
      invariant Scanning(value, begin, end, done) && res == Ones(done)
      decreases doclen - begin, doclen - end
    {
      if !IsLetter(value[begin]) {
        begin := begin + 1;
        end := begin;
      } else if !IsLetter(value[end]) {
        ScanWord(value, begin, end, done);
        done := done + [value[begin..end]];
        res := res + [KeyValue(value[begin..end], "1")];
        end := end + 1;
        begin := end;
      } else {
        end := end + 1;
      }
    }
    if begin != end {
      ScanWord(value, begin, end, done);
      done := done + [value[begin..end]];
      res := res + [KeyValue(value[begin..end], "1")];
    }
  }

  // ---------- word count ----------

  /** The sum of the values, or None where reduceF panics. */
  function SumValues(values: seq<string>): Option<int> {
    if values == [] then Some(0) else
      match (SumValues(values[..|values| - 1]), Atoi(values[|values| - 1]))
      case (Some(a), Some(b)) => Some(a + b)
      case _ => None
  }

  /** strconv.Itoa of the sum; the empty string stands for the panic. */
  function Printed(sum: Option<int>): string {
    match sum
    case Some(n) => if n < 0 then "-" + Itoa(-n) else Itoa(n)
    case None => ""
  }

  /** reduceF of wc.go: the printed sum; ok is false where it panics. */
  method WcReduceF(key: string, values: seq<string>) returns (ok: bool, res: string)
    ensures ok <==> SumValues(values).Some?
    ensures res == Printed(SumValues(values))
  {
    var sum := 0;
    for j := 0 to |values|
      invariant SumValues(values[..j]) == Some(sum)
    {
      assert values[..j + 1][..j] == values[..j];
      match Atoi(values[j])
      case None =>
        SumFails(values, j);
        return false, "";
      case Some(i) =>
        sum := sum + i;
    }
    assert values[..|values|] == values;
    ok, res := true, if sum < 0 then "-" + Itoa(-sum) else Itoa(sum);
  }

  lemma {:induction false} SumFails(values: seq<string>, j: nat)
    requires j < |values| && Atoi(values[j]) == None
    ensures SumValues(values) == None
  {
    if j < |values| - 1 {
      SumFails(values[..|values| - 1], j);
    }
  }

  function Total(ns: seq<int>): int { if ns == [] then 0 else ns[0] + Total(ns[1..]) }

  lemma {:induction false} TotalSnoc(ns: seq<int>, n: int)
    ensures Total(ns + [n]) == Total(ns) + n
  {
    if ns != [] {
      TotalSnoc(ns[1..], n);
      assert (ns + [n])[1..] == ns[1..] + [n];
    }
  }

  /** It is the sum of the numbers that the values denote. */
  lemma {:induction false} SumIsTotal(values: seq<string>, ns: seq<int>)
    requires |ns| == |values| && forall i :: 0 <= i < |ns| ==> Atoi(values[i]) == Some(ns[i])
    ensures SumValues(values) == Some(Total(ns))
  {
    if values != [] {
      var l := |values| - 1;
      SumIsTotal(values[..l], ns[..l]);
      TotalSnoc(ns[..l], ns[l]);
      assert ns == ns[..l] + [ns[l]];
    }
  }

  ghost function WcJob(docs: seq<Doc>, n: nat, h: string -> nat): Job {
    Job(docs, n, (name, text) => Ones(Words(text)), (k, vs) => Printed(SumValues(vs)), h, s => Coerce(s))
  }

  /** How often `w` occurs as a word in the first `n` documents. */
  ghost function TotalOccurrences(docs: seq<Doc>, n: nat, w: string): nat
    requires n <= |docs|
  {
    if n == 0 then 0 else TotalOccurrences(docs, n - 1, w) + Occurrences(docs[n - 1].text, w)
  }

  ghost predicate AllOnes(values: seq<string>) { forall i :: 0 <= i < |values| ==> values[i] == "1" }

  lemma {:induction false} SumOfOnes(values: seq<string>)
    requires AllOnes(values)
    ensures SumValues(values) == Some(|values|)
  {
    if values != [] {
      SumOfOnes(values[..|values| - 1]);
      AtoiItoa(1);
      assert Itoa(1) == "1";
    }
  }

  lemma {:induction false} OnesValues(words: seq<string>, w: string)
    ensures AllOnes(Values(Ones(words), w)) && |Values(Ones(words), w)| == CountWord(words, w)
  {
    if words != [] {
      var init, last := words[..|words| - 1], words[|words| - 1];
      assert words == init + [last];
      assert Ones(words)[..|words| - 1] == Ones(init);
      OnesValues(init, w);
      CountConcat(init, [last], w);
    }
  }

  lemma WcDocument(text: string, w: string)
    ensures var vs := Values(Ones(Words(text)), w); AllOnes(vs) && |vs| == Occurrences(text, w)
  {
    OnesValues(Words(text), w);
    CountIsOccurrences(text, 0, w);
  }

  lemma OnesConcat(a: seq<string>, b: seq<string>)
    requires AllOnes(a) && AllOnes(b)
    ensures AllOnes(a + b)
  {
  }

  ghost predicate EmitsOnes(job: Job) {
    forall m: nat :: m < |job.docs| ==> Emitted(job, m) == Ones(Words(job.docs[m].text))
  }

  lemma {:induction false} WcValues(job: Job, n: nat, w: string)
    requires EmitsOnes(job) && n <= |job.docs|
    ensures var vs := Values(AllPairs(job, n), w); AllOnes(vs) && |vs| == TotalOccurrences(job.docs, n, w)
  {
    if n > 0 {
      WcValues(job, n - 1, w);
      WcDocument(job.docs[n - 1].text, w);
      ValuesConcat(AllPairs(job, n - 1), Emitted(job, n - 1), w);
      OnesConcat(Values(AllPairs(job, n - 1), w), Values(Emitted(job, n - 1), w));
    }
  }

  /** A key was emitted exactly when some value was. */
  lemma {:induction false} KeyHasValue(kvs: seq<KeyValue>, k: string)
    ensures k in KeySet(kvs) <==> Values(kvs, k) != []
  {
    if kvs != [] {
      var init, kv := kvs[..|kvs| - 1], kvs[|kvs| - 1];
      assert kvs == init + [kv];
      Snoc(init, kv);
      KeyHasValue(init, k);
    }
  }

  /** The intended word count: a line for each word that occurs, with the number of
      its occurrences as a maximal run of letters in all documents. */
  lemma WordCountOutput(docs: seq<Doc>, n: nat, h: string -> nat, kv: KeyValue)
    ensures var total := TotalOccurrences(docs, |docs|, kv.key);
      kv in JobOutput(WcJob(docs, n, h)) <==> total > 0 && kv.value == Itoa(total)
  {
    var job := WcJob(docs, n, h);
    var all := AllPairs(job, |docs|);
    var vs := Values(all, kv.key);
    ReducedLines(all, job.reduceF, kv);
    WcValues(job, |docs|, kv.key);
    KeyHasValue(all, kv.key);
    SumOfOnes(vs);
    assert job.reduceF(kv.key, vs) == Printed(SumValues(vs));
  }

  // ---------- when the word count comes out ----------

  lemma CoerceIdempotent(enc: string -> string)
    requires forall s :: enc(s) == Coerce(s)
    ensures Idempotent(enc)
  {
    forall s ensures enc(enc(s)) == enc(s) {
      CoerceTwice(s);
    }
  }

  lemma {:induction false} ItoaValid(n: nat)
    ensures Valid(Itoa(n))
  {
    AsciiValid([Digit(n % 10)]);
    if n >= 10 {
      ItoaValid(n / 10);
      ValidConcat(Itoa(n / 10), [Digit(n % 10)]);
    }
  }

  /** The keys of a word count are the words that occur. */
  lemma WcKeys(job: Job, w: string)
    requires EmitsOnes(job)
    ensures w in KeySet(Everything(job)) <==> TotalOccurrences(job.docs, |job.docs|, w) > 0
  {
    WcValues(job, |job.docs|, w);
    KeyHasValue(Everything(job), w);
  }

  lemma {:induction false} AllValuesOne(job: Job, n: nat)
    requires EmitsOnes(job) && n <= |job.docs|
    ensures forall kv :: kv in AllPairs(job, n) ==> kv.value == "1"
  {
    if n > 0 {
      AllValuesOne(job, n - 1);
    }
  }

  lemma CodedSame(kvs: seq<KeyValue>, enc: string -> string)
    requires forall kv :: kv in kvs ==> enc(kv.key) == kv.key && enc(kv.value) == kv.value
    ensures Coded(kvs, enc) == kvs
  {
    forall i | 0 <= i < |kvs| ensures Coded(kvs, enc)[i] == kvs[i] {
      assert kvs[i] in kvs;
    }
  }

  /** Counts survive whenever the words do. */
  lemma WcValueKept(job: Job, k: string)
    requires EmitsOnes(job) && KeysKept(job) && k in KeySet(Everything(job))
    requires (forall s :: job.enc(s) == Coerce(s)) && forall vs :: job.reduceF(k, vs) == Printed(SumValues(vs))
    ensures ValueKept(job, k)
  {
    var all := Everything(job);
    AllValuesOne(job, |job.docs|);
    AsciiValid("1");
    SurvivesExactly("1");
    CodedSame(all, job.enc);
    WcValues(job, |job.docs|, k);
    SumOfOnes(Values(all, k));
    ItoaValid(|Values(all, k)|);
    SurvivesExactly(Itoa(|Values(all, k)|));
  }

  /** Every word that occurs is valid UTF-8. */
  ghost predicate WordsValid(docs: seq<Doc>) {
    forall w :: TotalOccurrences(docs, |docs|, w) > 0 ==> Valid(w)
  }

  lemma WordsKept(job: Job)
    requires (forall w :: w in KeySet(Everything(job)) <==> TotalOccurrences(job.docs, |job.docs|, w) > 0)
    requires forall s :: job.enc(s) == Coerce(s)
    ensures KeysKept(job) <==> WordsValid(job.docs)
  {
    forall w ensures job.enc(w) == w <==> Valid(w) {
      SurvivesExactly(w);
    }
  }

  /** wc.go counts right, for any number of reduce tasks and any hash, exactly when
      every word that occurs is valid UTF-8. */
  lemma WordCountExactly(docs: seq<Doc>, n: nat, h: string -> nat)
    requires n > 0
    ensures ActualOutput(WcJob(docs, n, h)) == JobOutput(WcJob(docs, n, h)) <==> WordsValid(docs)
  {
    var job := WcJob(docs, n, h);
    CoerceIdempotent(job.enc);
    OutputExactly(job);
    forall w ensures w in KeySet(Everything(job)) <==> TotalOccurrences(docs, |docs|, w) > 0 {
      WcKeys(job, w);
    }
    WordsKept(job);
    if KeysKept(job) {
      forall k | k in KeySet(Everything(job)) ensures ValueKept(job, k) {
        WcValueKept(job, k);
      }
    }
  }

  /** Then its output has the lines one expects. */
  lemma WordCountLines(docs: seq<Doc>, n: nat, h: string -> nat, kv: KeyValue)
    requires n > 0 && WordsValid(docs)
    ensures var total := TotalOccurrences(docs, |docs|, kv.key);
      kv in ActualOutput(WcJob(docs, n, h)) <==> total > 0 && kv.value == Itoa(total)
  {
    WordCountExactly(docs, n, h);
    WordCountOutput(docs, n, h, kv);
  }

  // ---------- inverted index ----------

  /** The distinct words, in the order of their first occurrence. */
  ghost function FirstOccurrences(words: seq<string>): seq<string> {
    if words == [] then [] else
      var init, last := words[..|words| - 1], words[|words| - 1];
      FirstOccurrences(init) + (if last in init then [] else [last])
  }

  /** It occurs at n first, after k different words. */
  ghost predicate KthFirst(words: seq<string>, k: nat, w: string, n: nat) {
    n < |words| && words[n] == w && w !in words[..n] && |SortedKeys.Elements(words[..n])| == k
  }

  lemma {:induction false} FirstsCount(words: seq<string>)
    ensures |FirstOccurrences(words)| == |SortedKeys.Elements(words)|
  {
    if words == [] {
      assert SortedKeys.Elements(words) == {};
    } else {
      var init, last := words[..|words| - 1], words[|words| - 1];
      FirstsCount(init);
      assert words == init + [last];
      assert SortedKeys.Elements(words) == SortedKeys.Elements(init) + if last in init then {} else {last};
      assert last !in init ==> last !in SortedKeys.Elements(init);
    }
  }

  /** The k-th of them is the one before which k different words occur. */
  lemma {:induction false} FirstsInOrder(words: seq<string>, k: nat)
    requires k < |FirstOccurrences(words)|
    ensures exists n: nat :: KthFirst(words, k, FirstOccurrences(words)[k], n)
  {
    var l := |words| - 1;
    FirstsCount(words[..l]);
    if k < |FirstOccurrences(words[..l])| {
      FirstsInOrder(words[..l], k);
      var n: nat :| KthFirst(words[..l], k, FirstOccurrences(words)[k], n);
      assert words[..l][..n] == words[..n];
      assert KthFirst(words, k, FirstOccurrences(words)[k], n);
    } else {
      assert KthFirst(words, k, FirstOccurrences(words)[k], l);
    }
  }

  ghost function Tagged(words: seq<string>, name: string): (kvs: seq<KeyValue>)
    ensures |kvs| == |words| && forall i :: 0 <= i < |words| ==> kvs[i] == KeyValue(words[i], name)
  {
    seq(|words|, i requires 0 <= i < |words| => KeyValue(words[i], name))
  }

  /** The body shared by both places where ii.go's mapF meets the end of a word. */
  method NoteWord(document: string, key: string, wc: set<string>, res: seq<KeyValue>, ghost done: seq<string>)
    returns (wc2: set<string>, res2: seq<KeyValue>)
    requires wc == (set w | w in done) && res == Tagged(FirstOccurrences(done), document)
    ensures wc2 == (set w | w in done + [key]) && res2 == Tagged(FirstOccurrences(done + [key]), document)
  {
    assert (done + [key])[..|done + [key]| - 1] == done;
    wc2, res2 := wc, res;
    if key !in wc {
      wc2 := wc + {key};
      res2 := res + [KeyValue(key, document)];
    }
  }

  /** mapF of ii.go: one pair per distinct word of the document. */
  method IiMapF(document: string, value: string) returns (res: seq<KeyValue>)
    ensures res == Tagged(FirstOccurrences(Words(value)), document)
  {
    res := [];
    var wc: set<string> := {};
    var begin, end, doclen := 0, 0, |value|;
    ghost var done: seq<string> := [];
    while end < doclen
      invariant Scanning(value, begin, end, done)
      invariant wc == (set w | w in done) && res == Tagged(FirstOccurrences(done), document)
      decreases doclen - begin, doclen - end
    {
      if !IsLetter(value[begin]) {
        begin := begin + 1;
        end := begin;
      } else if !IsLetter(value[end]) {
        ScanWord(value, begin, end, done);
        wc, res := NoteWord(document, value[begin..end], wc, res, done);
        done := done + [value[begin..end]];
        end := end + 1;
        begin := end;
      } else {
        end := end + 1;
      }
    }
    if begin != end {
      ScanWord(value, begin, end, done);
      wc, res := NoteWord(document, value[begin..end], wc, res, done);
      done := done + [value[begin..end]];
    }
    assert WordsFrom(value, |value|) == [] && done + [] == done;
  }

  /** strings.Join. */
  function Join(parts: seq<string>, sep: string): string {
    if parts == [] then "" else if |parts| == 1 then parts[0]
    else Join(parts[..|parts| - 1], sep) + sep + parts[|parts| - 1]
  }

  /** Between two parts there is one separator. */
  lemma {:induction false} JoinConcat(a: seq<string>, b: seq<string>, sep: string)
    requires a != [] && b != []
    ensures Join(a + b, sep) == Join(a, sep) + sep + Join(b, sep)
  {
    var init, last := b[..|b| - 1], b[|b| - 1];
    assert (a + b)[..|a + b| - 1] == a + init && (a + b)[|a + b| - 1] == last;
    if init == [] {
      assert a + init == a;
    } else {
      JoinConcat(a, init, sep);
    }
  }

  /** reduceF of ii.go. */
  function IndexLine(names: seq<string>): string { Itoa(|names|) + " " + Join(names, ",") }

  ghost function IiJob(docs: seq<Doc>, n: nat, h: string -> nat): Job {
    Job(docs, n, (name, text) => Tagged(FirstOccurrences(Words(text)), name),
        (k, vs) => IndexLine(vs), h, s => Coerce(s))
  }

  /** The names of the first `n` documents that contain the word `w`, in order. */
  ghost function DocsWith(docs: seq<Doc>, n: nat, w: string): seq<string>
    requires n <= |docs|
  {
    if n == 0 then [] else
      DocsWith(docs, n - 1, w) + (if Occurrences(docs[n - 1].text, w) > 0 then [docs[n - 1].name] else [])
  }

  lemma {:induction false} TaggedValues(words: seq<string>, name: string, w: string)
    ensures Values(Tagged(FirstOccurrences(words), name), w) == if w in words then [name] else []
  {
    if words != [] {
      var init, last := words[..|words| - 1], words[|words| - 1];
      assert words == init + [last];
      TaggedValues(init, name, w);
      if last !in init {
        var f := FirstOccurrences(init);
        assert Tagged(f + [last], name) == Tagged(f, name) + [KeyValue(last, name)];
        ValuesSnoc(Tagged(f, name), KeyValue(last, name), w);
      } else {
        assert FirstOccurrences(words) == FirstOccurrences(init);
      }
    }
  }

  lemma IiDocument(name: string, text: string, w: string)
    ensures Values(Tagged(FirstOccurrences(Words(text)), name), w) == if Occurrences(text, w) > 0 then [name] else []
  {
    TaggedValues(Words(text), name, w);
    CountIsOccurrences(text, 0, w);
    CountPositive(Words(text), w);
  }

  /** Each document contributes its name once to the words it contains. */
  ghost predicate EmitsNameAt(job: Job, m: nat, w: string)
    requires m < |job.docs|
  {
    Values(Emitted(job, m), w) == if Occurrences(job.docs[m].text, w) > 0 then [job.docs[m].name] else []
  }

  ghost predicate EmitsNames(job: Job, w: string) {
    forall m: nat {:trigger EmitsNameAt(job, m, w)} :: m < |job.docs| ==> EmitsNameAt(job, m, w)
  }

  lemma PairsStep(job: Job, n: nat, w: string)
    requires 0 < n <= |job.docs|
    ensures Values(AllPairs(job, n), w) == Values(AllPairs(job, n - 1), w) + Values(Emitted(job, n - 1), w)
  {
    ValuesConcat(AllPairs(job, n - 1), Emitted(job, n - 1), w);
  }

  lemma EmitsName(job: Job, m: nat, w: string)
    requires EmitsNames(job, w) && m < |job.docs|
    ensures DocsWith(job.docs, m + 1, w) == DocsWith(job.docs, m, w) + Values(Emitted(job, m), w)
  {
    assert EmitsNameAt(job, m, w);
  }

  lemma {:induction false} IiValues(job: Job, n: nat, w: string)
    requires EmitsNames(job, w) && n <= |job.docs|
    ensures Values(AllPairs(job, n), w) == DocsWith(job.docs, n, w)
  {
    if n > 0 {
      IiValues(job, n - 1, w);
      PairsStep(job, n, w);
      EmitsName(job, n - 1, w);
    }
  }

  /** The intended index: a line for each word that occurs, with the number of
      documents that contain it and their names in order. */
  lemma InvertedIndexOutput(docs: seq<Doc>, n: nat, h: string -> nat, kv: KeyValue)
    ensures var names := DocsWith(docs, |docs|, kv.key);
      kv in JobOutput(IiJob(docs, n, h)) <==> names != [] && kv.value == Itoa(|names|) + " " + Join(names, ",")
  {
    var job := IiJob(docs, n, h);
    var all := AllPairs(job, |docs|);
    ReducedLines(all, job.reduceF, kv);
    forall m: nat | m < |docs| ensures EmitsNameAt(job, m, kv.key) {
      IiDocument(docs[m].name, docs[m].text, kv.key);
    }
    IiValues(job, |docs|, kv.key);
    KeyHasValue(all, kv.key);
  }

  // ---------- when the index comes out ----------

  ghost function CoerceAll(names: seq<string>): (out: seq<string>)
    ensures |out| == |names| && forall i :: 0 <= i < |names| ==> out[i] == Coerce(names[i])
  {
    seq(|names|, i requires 0 <= i < |names| => Coerce(names[i]))
  }

  lemma {:induction false} CodedValues(kvs: seq<KeyValue>, enc: string -> string, k: string)
    requires KeysFixed(kvs, enc) && forall s :: enc(s) == Coerce(s)
    ensures Values(Coded(kvs, enc), k) == CoerceAll(Values(kvs, k))
  {
    if kvs != [] {
      var init, kv := kvs[..|kvs| - 1], kvs[|kvs| - 1];
      assert kvs == init + [kv];
      Snoc(init, kv);
      CodedValues(init, enc, k);
      CodedConcat(init, [kv], enc);
      ValuesSnoc(Coded(init, enc), Coded([kv], enc)[0], k);
      ValuesSnoc(init, kv, k);
    }
  }

  ghost predicate AllValid(names: seq<string>) { forall i :: 0 <= i < |names| ==> Valid(names[i]) }

  lemma {:induction false} JoinValid(names: seq<string>)
    requires AllValid(names)
    ensures Valid(Join(names, ","))
  {
    if |names| > 1 {
      var init, last := names[..|names| - 1], names[|names| - 1];
      JoinValid(init);
      AsciiValid(",");
      ValidConcat(Join(init, ","), ",");
      ValidConcat(Join(init, ",") + ",", last);
    }
  }

  /** Joining what was read back is longer unless every name survived. */
  lemma {:induction false} JoinLength(names: seq<string>)
    ensures |Join(CoerceAll(names), ",")| >= |Join(names, ",")|
    ensures |Join(CoerceAll(names), ",")| == |Join(names, ",")| ==> AllValid(names)
  {
    if names != [] {
      var init, last := names[..|names| - 1], names[|names| - 1];
      CoerceLength(last);
      JoinLength(init);
      assert CoerceAll(names)[..|names| - 1] == CoerceAll(init);
    }
  }

  lemma JoinSurvives(names: seq<string>)
    ensures Join(CoerceAll(names), ",") == Join(names, ",") <==> AllValid(names)
  {
    JoinLength(names);
    if AllValid(names) {
      forall i | 0 <= i < |names| ensures CoerceAll(names)[i] == names[i] {
        SurvivesExactly(names[i]);
      }
      assert CoerceAll(names) == names;
    }
  }

  lemma IndexLineSurvives(names: seq<string>)
    ensures Coerce(IndexLine(CoerceAll(names))) == IndexLine(names) <==> AllValid(names)
  {
    var count, coded := Itoa(|names|), CoerceAll(names);
    forall i | 0 <= i < |coded| ensures Valid(coded[i]) {
      CoerceValid(names[i]);
    }
    JoinValid(coded);
    ItoaValid(|names|);
    AsciiValid(" ");
    ValidConcat(count, " ");
    ValidConcat(count + " ", Join(coded, ","));
    SurvivesExactly(IndexLine(coded));
    JoinSurvives(names);
    assert IndexLine(coded)[|count + " "|..] == Join(coded, ",") && IndexLine(names)[|count + " "|..] == Join(names, ",");
  }

  /** The name of every document that contains a word is valid UTF-8. */
  ghost predicate NamesValid(docs: seq<Doc>) {
    forall m: nat, w :: m < |docs| && Occurrences(docs[m].text, w) > 0 ==> Valid(docs[m].name)
  }

  lemma AllValidSnoc(names: seq<string>, x: string)
    ensures AllValid(names + [x]) <==> AllValid(names) && Valid(x)
  {
    if AllValid(names + [x]) {
      forall i | 0 <= i < |names| ensures Valid(names[i]) {
        assert (names + [x])[i] == names[i];
      }
      assert (names + [x])[|names|] == x;
    }
  }

  /** The names of the first `n` documents that contain `w` are valid. */
  ghost predicate NamesValidFor(docs: seq<Doc>, n: nat, w: string)
    requires n <= |docs|
  {
    forall m: nat :: m < n && Occurrences(docs[m].text, w) > 0 ==> Valid(docs[m].name)
  }

  lemma {:induction false} DocsWithValid(docs: seq<Doc>, n: nat, w: string)
    requires n <= |docs|
    ensures AllValid(DocsWith(docs, n, w)) <==> NamesValidFor(docs, n, w)
  {
    if n > 0 {
      DocsWithValid(docs, n - 1, w);
      var init := DocsWith(docs, n - 1, w);
      AllValidSnoc(init, docs[n - 1].name);
      assert init + [] == init;
      assert NamesValidFor(docs, n, w) <==>
        NamesValidFor(docs, n - 1, w) && (Occurrences(docs[n - 1].text, w) > 0 ==> Valid(docs[n - 1].name));
    }
  }

  lemma {:induction false} DocsWithTotal(docs: seq<Doc>, n: nat, w: string)
    requires n <= |docs|
    ensures DocsWith(docs, n, w) != [] <==> TotalOccurrences(docs, n, w) > 0
    ensures TotalOccurrences(docs, n, w) == 0 ==> forall m: nat :: m < n ==> Occurrences(docs[m].text, w) == 0
  {
    if n > 0 {
      DocsWithTotal(docs, n - 1, w);
    }
  }

  lemma IiKeys(job: Job, w: string)
    requires EmitsNames(job, w)
    ensures w in KeySet(Everything(job)) <==> TotalOccurrences(job.docs, |job.docs|, w) > 0
  {
    IiValues(job, |job.docs|, w);
    KeyHasValue(Everything(job), w);
    DocsWithTotal(job.docs, |job.docs|, w);
  }

  lemma IiValueKept(job: Job, k: string)
    requires EmitsNames(job, k) && KeysKept(job)
    requires (forall s :: job.enc(s) == Coerce(s)) && forall vs :: job.reduceF(k, vs) == IndexLine(vs)
    ensures ValueKept(job, k) <==> AllValid(DocsWith(job.docs, |job.docs|, k))
  {
    IiValues(job, |job.docs|, k);
    CodedValues(Everything(job), job.enc, k);
    IndexLineSurvives(DocsWith(job.docs, |job.docs|, k));
  }

  lemma IiValuesKept(job: Job)
    requires (forall w :: EmitsNames(job, w)) && KeysKept(job)
    requires (forall s :: job.enc(s) == Coerce(s)) && forall k, vs :: job.reduceF(k, vs) == IndexLine(vs)
    ensures ValuesKept(job) <==> NamesValid(job.docs)
  {
    forall k ensures k in KeySet(Everything(job)) <==> TotalOccurrences(job.docs, |job.docs|, k) > 0 {
      IiKeys(job, k);
    }
    forall k ensures ValueKept(job, k) <==> NamesValidFor(job.docs, |job.docs|, k) {
      IiValueKept(job, k);
      DocsWithValid(job.docs, |job.docs|, k);
    }
    if ValuesKept(job) {
      forall m: nat, w | m < |job.docs| && Occurrences(job.docs[m].text, w) > 0 ensures Valid(job.docs[m].name) {
        DocsWithTotal(job.docs, |job.docs|, w);
        assert ValueKept(job, w);
      }
    }
  }

  /** ii.go builds the right index exactly when every word that occurs, and the name of
      every document with a word, is valid UTF-8. */
  lemma InvertedIndexExactly(docs: seq<Doc>, n: nat, h: string -> nat)
    requires n > 0
    ensures ActualOutput(IiJob(docs, n, h)) == JobOutput(IiJob(docs, n, h)) <==> WordsValid(docs) && NamesValid(docs)
  {
    var job := IiJob(docs, n, h);
    CoerceIdempotent(job.enc);
    OutputExactly(job);
    forall w ensures EmitsNames(job, w) {
      forall m: nat | m < |docs| ensures EmitsNameAt(job, m, w) {
        IiDocument(docs[m].name, docs[m].text, w);
      }
    }
    forall w ensures w in KeySet(Everything(job)) <==> TotalOccurrences(docs, |docs|, w) > 0 {
      IiKeys(job, w);
    }
    WordsKept(job);
    if KeysKept(job) {
      IiValuesKept(job);
    }
  }

  lemma InvertedIndexLines(docs: seq<Doc>, n: nat, h: string -> nat, kv: KeyValue)
    requires n > 0 && WordsValid(docs) && NamesValid(docs)
    ensures var names := DocsWith(docs, |docs|, kv.key);
      kv in ActualOutput(IiJob(docs, n, h)) <==> names != [] && kv.value == IndexLine(names)
  {
    InvertedIndexExactly(docs, n, h);
    InvertedIndexOutput(docs, n, h, kv);
  }

  // ---------- a count that is lost ----------

  /** The two words of the text that is counted below. */
  const ONE: string := ['\U{C3}']
  const TWO: string := ['\U{C4}']

  /** One byte that is not UTF-8 by itself. */
  lemma LoneByte(c: char)
    requires 0x80 <= c as int <= 0xFF
    ensures Coerce([c]) == REPLACEMENT
  {
    assert RuneLen([c]) == 0 && [c][1..] == [];
    assert REPLACEMENT + [] == REPLACEMENT;
  }

  lemma TwoWords()
    ensures Words(ONE + " " + TWO) == [ONE, TWO]
  {
    var text := ONE + " " + TWO;
    assert text[0] == '\U{C3}' && text[1] == ' ' && text[2] == '\U{C4}' && |text| == 3;
    RunEndIs(text, 1, 1);
    RunEndIs(text, 3, 3);
    assert text[0..1] == ONE && text[2..3] == TWO;
    assert WordsFrom(text, 3) == [];
    assert WordsFrom(text, 2) == [TWO];
    assert WordsFrom(text, 1) == [TWO];
  }

  /** One pair read back and reduced. */
  lemma OneReduced(job: Job)
    requires (forall s :: job.enc(s) == Coerce(s)) && forall k, vs :: job.reduceF(k, vs) == Printed(SumValues(vs))
    ensures var x := [KeyValue(REPLACEMENT, "1")];
      Coded(Reduced(x, job.reduceF), job.enc) == x && Coded(Reduced([], job.reduceF), job.enc) == []
  {
    var x := [KeyValue(REPLACEMENT, "1")];
    SortedKeys.ListingIs([REPLACEMENT], KeySet(x));
    SortedKeys.ListingIs([], KeySet([]));
    ValuesSnoc([], x[0], REPLACEMENT);
    assert [] + x == x;
    assert Values(x, REPLACEMENT) == ["1"];
    SumOfOnes(["1"]);
    assert Itoa(1) == "1";
    AsciiValid("1");
    SurvivesExactly("1");
    LoneByte('\U{C3}');
    CoerceTwice(ONE);
  }

  lemma TwoResults(f: Files, x: seq<KeyValue>)
    requires |x| == 1 && HasRes(f, 3) && f[Res(0)] == x && f[Res(1)] == [] && f[Res(2)] == x
    ensures MergeOf(f, 3) == x
  {
    assert Results(f, 0) == [] && Results(f, 1) == x && Results(f, 2) == x && Results(f, 3) == x + x;
    OverwriteSnoc([], x[0]);
    OverwriteSnoc(x, x[0]);
    assert [] + [x[0]] == x && x + [x[0]] == x + x;
    assert Overwrite(x + x) == map[x[0].key := x[0].value];
    assert Overwrite(x + x).Keys == {x[0].key};
    SortedKeys.ListingIs([x[0].key], {x[0].key});
    assert x == [KeyValue(x[0].key, x[0].value)];
  }

  /** What the three reduce tasks read of two pairs in the first and the last slot. */
  lemma TwoReads(kvs: seq<KeyValue>, slot: string -> nat, enc: string -> string, r: nat)
    requires kvs == [KeyValue(ONE, "1"), KeyValue(TWO, "1")] && slot(ONE) == 0 && slot(TWO) == 2
    requires forall s :: enc(s) == Coerce(s)
    ensures Coded(Part(kvs, slot, r), enc) == if r == 0 || r == 2 then [KeyValue(REPLACEMENT, "1")] else []
  {
    LoneByte('\U{C3}');
    LoneByte('\U{C4}');
    AsciiValid("1");
    SurvivesExactly("1");
    assert kvs[..1] == [kvs[0]] && kvs[..1][..0] == [];
    assert Part(kvs[..1], slot, r) == if r == 0 then [kvs[0]] else [];
  }

  lemma TwoPairs(job: Job)
    requires EmitsOnes(job) && |job.docs| == 1 && job.docs[0].text == ONE + " " + TWO
    ensures Everything(job) == [KeyValue(ONE, "1"), KeyValue(TWO, "1")]
  {
    TwoWords();
    assert AllPairs(job, 0) == [];
    assert Everything(job) == [] + Emitted(job, 0);
  }

  /** Two words that are not UTF-8, in different slots of three by the hash in use: both
      become U+FFFD, merging overwrites one of the two lines, and the only line of the
      output has a word that does not occur and the count 1. */
  lemma CountLost(name: string)
    ensures var docs := [Doc(name, ONE + " " + TWO)];
      && ActualOutput(WcJob(docs, 3, Ihash)) == [KeyValue(REPLACEMENT, "1")]
      && TotalOccurrences(docs, 1, ONE) > 0 && TotalOccurrences(docs, 1, TWO) > 0
      && Overwrites(WcJob(docs, 3, Ihash))
  {
    var docs := [Doc(name, ONE + " " + TWO)];
    var job := WcJob(docs, 3, Ihash);
    TwoSlots();
    TwoPairs(job);
    WcKeys(job, ONE);
    WcKeys(job, TWO);
    assert Everything(job)[0].key == ONE && Everything(job)[1].key == TWO;
    OneReduced(job);
    LostOutput(job);
    CoerceIdempotent(job.enc);
    LoneByte('\U{C3}');
    LoneByte('\U{C4}');
    assert Colliding(job, ONE, TWO);
    MergeOverwritesExactly(job);
  }

  lemma LostOutput(job: Job)
    requires job.nReduce == 3 && (forall s :: job.enc(s) == Coerce(s))
    requires Everything(job) == [KeyValue(ONE, "1"), KeyValue(TWO, "1")] && Slot(job)(ONE) == 0 && Slot(job)(TWO) == 2
    requires var x := [KeyValue(REPLACEMENT, "1")];
      Coded(Reduced(x, job.reduceF), job.enc) == x && Coded(Reduced([], job.reduceF), job.enc) == []
    ensures ActualOutput(job) == [KeyValue(REPLACEMENT, "1")]
  {
    var f := ResFiles(job, 3);
    ResFilesHave(job, 3);
    TwoReads(Everything(job), Slot(job), job.enc, 0);
    TwoReads(Everything(job), Slot(job), job.enc, 1);
    TwoReads(Everything(job), Slot(job), job.enc, 2);
    assert f[Res(0)] == ResFile(job, 0) && f[Res(1)] == ResFile(job, 1) && f[Res(2)] == ResFile(job, 2);
    TwoResults(f, [KeyValue(REPLACEMENT, "1")]);
  }
}
