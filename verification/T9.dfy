/** The T9 program (uw_cse374/hw4/t9.c): reading a dictionary and answering keys. */
module T9 {
  import opened Trie

  // ---------- keys ----------

  /** convert, as the distance from '2'. */
  function Convert(c: char): (d: int)
    ensures 0 <= d < 8
  {
    var dist := c as int - 'a' as int;
    if dist <= 2 then 0
    else if dist <= 5 then 1
    else if dist <= 8 then 2
    else if dist <= 11 then 3
    else if dist <= 14 then 4
    else if dist <= 18 then 5
    else if dist <= 21 then 6
    else 7
  }

  /** The letters on the keys 2 to 9 of a telephone. */
  const KEYPAD: seq<string> := ["abc", "def", "ghi", "jkl", "mno", "pqrs", "tuv", "wxyz"]

  ghost predicate OnKey(c: char, d: int) { 0 <= d < 8 && c in KEYPAD[d] }

  /** convert presses the key the letter is printed on, and no other key has it. */
  lemma ConvertIsKeypad(c: char, d: int)
    requires 'a' <= c <= 'z'
    ensures Convert(c) == d <==> OnKey(c, d)
  {
    var k := Convert(c);
    assert KEYPAD[k][c as int - KEYPAD[k][0] as int] == c;
    if 0 <= d < 8 && d != k {
      assert forall x :: x in KEYPAD[d] ==> Convert(x) == d;
    }
  }

  function CodeOf(word: string): (code: seq<int>)
    ensures AllDigits(code)
  {
    seq(|word|, i requires 0 <= i < |word| => Convert(word[i]))
  }

  /** The code of a word presses the keys its letters are printed on, one after the other. */
  lemma CodeIsKeypad(word: string, code: seq<int>)
    requires forall i :: 0 <= i < |word| ==> 'a' <= word[i] <= 'z'
    ensures CodeOf(word) == code <==> |code| == |word| && forall i :: 0 <= i < |word| ==> OnKey(word[i], code[i])
  {
    forall i | 0 <= i < |word| && i < |code| ensures CodeOf(word)[i] == code[i] <==> OnKey(word[i], code[i]) {
      ConvertIsKeypad(word[i], code[i]);
    }
  }

  /** The entries that a list of lines adds. */
  ghost function Entries(lines: seq<string>): (es: seq<Entry>) {
    seq(|lines|, i requires 0 <= i < |lines| => Entry(CodeOf(lines[i]), lines[i]))
  }

  /** read_data over the lines of the file, newlines removed. */
  method ReadData(trie: Trie, lines: seq<string>)
    requires trie.Valid()
    modifies trie, trie.nodes.Values
    ensures trie.Valid() && fresh(trie.nodes.Values - old(trie.nodes.Values))
    ensures trie.dict == old(trie.dict) + Entries(lines)
  {
    for n := 0 to |lines|
      invariant trie.Valid() && fresh(trie.nodes.Values - old(trie.nodes.Values))
      invariant trie.dict == old(trie.dict) + Entries(lines[..n])
    {
      var buffer := lines[n];
      var numbuf := Translate(buffer);
      var ok := trie.InsertWord(numbuf, buffer);
      assert Entries(lines[..n + 1]) == Entries(lines[..n]) + [Entry(numbuf, buffer)];
    }
    assert lines[..|lines|] == lines;
  }

  method Translate(buffer: string) returns (numbuf: seq<int>)
    ensures numbuf == CodeOf(buffer)
  {
    numbuf := [];
    for i := 0 to |buffer|
      invariant numbuf == CodeOf(buffer[..i])
    {
      numbuf := numbuf + [Convert(buffer[i])];
    }
    assert buffer[..|buffer|] == buffer;
  }

  // ---------- answers ----------

  datatype Answer = NoMore | Word(word: string)

  /** The part of a key string before its final '#' signs. */
  ghost function CodeLen(p: seq<int>): (n: nat)
    ensures n <= |p|
  {
    if p == [] || p[|p| - 1] != 8 then |p| else CodeLen(Up(p))
  }

  /** What a linear scan of the dictionary answers: for a code and k signs '#',
      the word of the k-th entry with that code, counting from 0. */
  ghost function Lookup(dict: seq<Entry>, p: seq<int>): Answer {
    var n := CodeLen(p);
    var words := Matches(dict, p[..n]);
    if AllDigits(p[..n]) && |p| - n < |words| then Word(words[|p| - n]) else NoMore
  }

  lemma {:induction false} CodeLenPath(code: seq<int>, k: nat)
    requires AllDigits(code)
    ensures CodeLen(code + Hashes(k)) == |code|
  {
    if k > 0 {
      CodeLenPath(code, k - 1);
      assert Up(code + Hashes(k)) == code + Hashes(k - 1);
    } else {
      assert code + Hashes(0) == code;
    }
  }

  lemma {:induction false} CodeLenHashes(p: seq<int>)
    ensures p == p[..CodeLen(p)] + Hashes(|p| - CodeLen(p))
  {
    if p != [] && p[|p| - 1] == 8 {
      CodeLenHashes(Up(p));
      assert p == Up(p) + [8];
    }
  }

  lemma PathCode(p: seq<int>, code: seq<int>, k: nat)
    requires IsPath(p, code, k)
    ensures p[..CodeLen(p)] == code
  {
    CodeLenPath(code, k);
  }

  /** Where the entries with a code are. */
  ghost function Places(dict: seq<Entry>, code: seq<int>): set<nat> {
    set n: nat | n < |dict| && dict[n].code == code
  }

  lemma {:induction false} MatchesCount(dict: seq<Entry>, code: seq<int>)
    ensures |Matches(dict, code)| == |Places(dict, code)|
  {
    if dict == [] {
      assert Places(dict, code) == {};
    } else {
      var l := |dict| - 1;
      MatchesCount(dict[..l], code);
      assert l !in Places(dict[..l], code);
      assert Places(dict, code) == Places(dict[..l], code) + if dict[l].code == code then {l} else {};
    }
  }

  /** The n-th entry has the code, and k entries before it have it, too. */
  ghost predicate KthPlace(dict: seq<Entry>, code: seq<int>, k: nat, n: nat) {
    n in Places(dict, code) && |Places(dict[..n], code)| == k
  }

  /** The matches are the words of the entries with the code, in order. */
  lemma {:induction false} MatchesInOrder(dict: seq<Entry>, code: seq<int>, k: nat)
    requires k < |Matches(dict, code)|
    ensures exists n: nat :: KthPlace(dict, code, k, n) && dict[n].word == Matches(dict, code)[k]
  {
    var l := |dict| - 1;
    var was := dict[..l];
    MatchesCount(was, code);
    if k < |Matches(was, code)| {
      MatchesInOrder(was, code, k);
      var n: nat :| KthPlace(was, code, k, n) && was[n].word == Matches(was, code)[k];
      assert was[..n] == dict[..n];
      assert KthPlace(dict, code, k, n);
    } else {
      assert KthPlace(dict, code, k, l);
    }
  }

  /** The k-th word, in the terms of the program's users. */
  lemma LookupIsScan(dict: seq<Entry>, code: seq<int>, k: nat)
    requires AllDigits(code)
    ensures Lookup(dict, code + Hashes(k)) ==
            if k < |Matches(dict, code)| then Word(Matches(dict, code)[k]) else NoMore
  {
    CodeLenPath(code, k);
    PathCode(code + Hashes(k), code, k);
  }

  /** Only a code followed by '#' signs finds a word. */
  lemma LookupOther(dict: seq<Entry>, p: seq<int>)
    requires Lookup(dict, p) != NoMore
    ensures exists code, k: nat :: AllDigits(code) && p == code + Hashes(k)
  {
    CodeLenHashes(p);
  }

  ghost function Shows(v: View, p: seq<int>): Answer {
    if p in v && v[p].Ends? then Word(v[p].word) else NoMore
  }

  /** The trie answers as the scan does, and below '#' a node is there only with a word. */
  lemma IndexAnswers(v: View, dict: seq<Entry>, p: seq<int>)
    requires Indexes(v, dict)
    ensures Shows(v, p) == Lookup(dict, p)
    ensures p in v && p != [] && p[|p| - 1] == 8 ==> v[p].Ends?
  {
    var n := CodeLen(p);
    CodeLenHashes(p);
    if AllDigits(p[..n]) {
      assert IsPath(p, p[..n], |p| - n);
    } else if p in v {
      var c, k: nat :| IsPath(p, c, k);
      PathCode(p, c, k);
    }
  }

  // ---------- the session ----------

  /** One line of input: exit, or keys (indices 0..7, and 8 for '#'). */
  datatype Input = Exit | Keys(nums: seq<int>)

  ghost predicate Proper(x: Input) {
    x.Keys? ==> x.nums != [] && forall i :: 0 <= i < |x.nums| ==> 0 <= x.nums[i] <= 8
  }

  /** Where a line moves: a line that starts with '#' means one more '#' after
      what was typed before; anything else starts again. */
  datatype Position = Nowhere | Typed(keys: seq<int>)

  ghost function Moves(pos: Position, nums: seq<int>): Position {
    if nums != [] && nums[0] == 8 then
      if pos.Nowhere? then Nowhere else Typed(pos.keys + [8])
    else Typed(nums)
  }

  ghost function Answers(dict: seq<Entry>, pos: Position): Answer {
    if pos.Nowhere? then NoMore else Lookup(dict, pos.keys)
  }

  ghost predicate Continues(x: Input) { x.Keys? && x.nums != [] && x.nums[0] == 8 }

  /** Line m is the last one at or before n that does not start with '#'; m is -1 if there is none. */
  ghost predicate LastTyped(inputs: seq<Input>, m: int, n: int) {
    && -1 <= m <= n < |inputs|
    && (0 <= m ==> inputs[m].Keys? && !Continues(inputs[m]))
    && forall i :: m < i <= n ==> Continues(inputs[i])
  }

  /** What is asked for at line n: what was typed on line m and a '#' for each line since. */
  ghost function AskedAt(inputs: seq<Input>, m: int, n: int): Position
    requires LastTyped(inputs, m, n)
  {
    if m == -1 then Nowhere else Typed(inputs[m].nums + Hashes(n - m))
  }

  lemma AskedNext(inputs: seq<Input>, m: int, n: int)
    requires LastTyped(inputs, m, n) && n + 1 < |inputs| && inputs[n + 1].Keys?
    ensures var m2 := if Continues(inputs[n + 1]) then m else n + 1;
      LastTyped(inputs, m2, n + 1) && AskedAt(inputs, m2, n + 1) == Moves(AskedAt(inputs, m, n), inputs[n + 1].nums)
  {
    if Continues(inputs[n + 1]) && m != -1 {
      assert Hashes(n + 1 - m) == Hashes(n - m) + [8];
      assert inputs[m].nums + Hashes(n + 1 - m) == inputs[m].nums + Hashes(n - m) + [8];
    } else {
      assert Hashes(0) == [];
    }
  }

  ghost predicate Stands(trie: Trie, cur: Node?, pos: Position)
    reads trie
  {
    cur == (if pos.Nowhere? then null else At(trie.nodes, pos.keys))
  }

  /** The loop of main: it keeps the current node only, steps from it for '#' and
      searches from the root otherwise.  It answers every line before the first exit with what
      a scan of the dictionary finds for the keys typed last and one '#' for each line since. */
  method Session(trie: Trie, inputs: seq<Input>) returns (shown: seq<Answer>)
    requires trie.Valid() && forall i :: 0 <= i < |inputs| ==> Proper(inputs[i])
    ensures |shown| <= |inputs| && forall i :: 0 <= i < |shown| ==> inputs[i] != Exit
    ensures |shown| < |inputs| ==> inputs[|shown|] == Exit
    ensures forall m, n :: LastTyped(inputs, m, n) && 0 <= n < |shown| ==>
      shown[n] == if m == -1 then NoMore else Lookup(trie.dict, inputs[m].nums + Hashes(n - m))
  {
    var cur: Node? := null;
    ghost var last := -1;
    shown := [];
    var n := 0;
    while n < |inputs| && inputs[n] != Exit
      invariant 0 <= n == |shown| <= |inputs| && forall i :: 0 <= i < n ==> inputs[i] != Exit
      invariant LastTyped(inputs, last, n - 1) && Stands(trie, cur, AskedAt(inputs, last, n - 1))
      invariant forall m, k :: LastTyped(inputs, m, k) && 0 <= k < n ==> shown[k] == Answers(trie.dict, AskedAt(inputs, m, k))
    {
      var buf := inputs[n].nums;
      assert Proper(inputs[n]);
      AskedNext(inputs, last, n - 1);
      var answer;
      cur, answer := Step(trie, cur, AskedAt(inputs, last, n - 1), buf);
      last := if Continues(inputs[n]) then last else n;
      LastUnique(inputs, last, n);
      shown := shown + [answer];
      n := n + 1;
    }
  }

  lemma LastUnique(inputs: seq<Input>, m: int, n: int)
    requires LastTyped(inputs, m, n)
    ensures forall m2 :: LastTyped(inputs, m2, n) ==> m2 == m
  {
  }

  method Step(trie: Trie, was: Node?, ghost pos: Position, buf: seq<int>) returns (cur: Node?, answer: Answer)
    requires trie.Valid() && Stands(trie, was, pos) && Proper(Keys(buf))
    ensures Stands(trie, cur, Moves(pos, buf)) && answer == Answers(trie.dict, Moves(pos, buf))
  {
    ghost var next := Moves(pos, buf);
    if next.Typed? {
      IndexAnswers(trie.Marks(), trie.dict, next.keys);
    }
    cur := was;
    if buf[0] == 8 {
      if cur == null {
        if pos.Typed? { trie.Beyond(pos.keys, [8]); }
        answer := NoMore;
      } else {
        cur := trie.Search(cur, pos.keys, [8]);
        if cur == null {
          answer := NoMore;
        } else {
          answer := Word(cur.word);
        }
      }
    } else {
      assert [] + buf == buf;
      cur := trie.Search(trie.root, [], buf);
      if cur != null && cur.isEnd {
        answer := Word(cur.word);
      } else {
        answer := NoMore;
      }
    }
  }
}
