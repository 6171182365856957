/** The T9 trie (uw_cse374/hw4/trie.c) and its use (uw_cse374/hw4/t9.c).
    Digits '2'..'9' select children 0..7 and '#' selects child 8. */
module Trie {

  /** A dictionary entry: the digits of a word and the word. */
  datatype Entry = Entry(code: seq<int>, word: string)

  /** What a linear scan of the dictionary finds for a code, in order. */
  ghost function Matches(dict: seq<Entry>, code: seq<int>): seq<string> {
    if dict == [] then [] else
      var last := dict[|dict| - 1];
      Matches(dict[..|dict| - 1], code) + (if last.code == code then [last.word] else [])
  }

  lemma MatchesSnoc(dict: seq<Entry>, e: Entry, code: seq<int>)
    ensures Matches(dict + [e], code) == Matches(dict, code) + (if e.code == code then [e.word] else [])
  {
    assert (dict + [e])[..|dict|] == dict;
  }

  // ---------- paths ----------

  ghost predicate AllDigits(p: seq<int>) { forall i :: 0 <= i < |p| ==> 0 <= p[i] < 8 }

  /** `k` signs '#'. */
  ghost function Hashes(k: nat): (h: seq<int>)
    ensures |h| == k && forall i :: 0 <= i < k ==> h[i] == 8
  {
    seq(k, _ => 8)
  }

  /** A path is a code followed by hashes. */
  ghost predicate IsPath(p: seq<int>, code: seq<int>, k: nat) { AllDigits(code) && p == code + Hashes(k) }

  lemma PathAt(p: seq<int>, c: seq<int>, k: nat, i: nat)
    requires IsPath(p, c, k) && i < |p|
    ensures p[i] == 8 <==> |c| <= i
  {
  }

  lemma PathUnique(p: seq<int>, c1: seq<int>, k1: nat, c2: seq<int>, k2: nat)
    requires IsPath(p, c1, k1) && IsPath(p, c2, k2)
    ensures c1 == c2 && k1 == k2
  {
    var i := if |c1| < |c2| then |c1| else |c2|;
    if i < |p| {
      PathAt(p, c1, k1, i);
      PathAt(p, c2, k2, i);
    }
    assert p[..|c1|] == c1 && p[..|c2|] == c2;
  }

  lemma PathHash(p: seq<int>, code: seq<int>, k: nat)
    requires IsPath(p, code, k)
    ensures IsPath(p + [8], code, k + 1)
  {
    assert Hashes(k + 1) == Hashes(k) + [8];
  }

  /** A struct trie_node; child is its inline array of nine pointers. */
  class Node {
    var isEnd: bool
    var word: string
    var child: seq<Node?>
    ghost const path: seq<int>   // from the root of its trie

    /** create_trie_node. */
    constructor (end: bool, w: string, ghost p: seq<int>)
      ensures isEnd == end && (end ==> word == w) && child == seq(9, _ => null) && path == p
    {
      path := p;
      isEnd := end;
      word := if end then w else "";
      child := seq(9, _ => null);
    }
  }

  type Nodes = map<seq<int>, Node>

  /** One step down, and back up. */
  function Down(p: seq<int>, i: int): seq<int> { p + [i] }

  function Up(p: seq<int>): seq<int>
    requires p != []
  {
    p[..|p| - 1]
  }

  function At(nodes: Nodes, p: seq<int>): Node? {
    if p in nodes then nodes[p] else null
  }

  // ---------- contents ----------

  /** What a node says: its word, if it ends one. */
  datatype Mark = Inner | Ends(word: string)
  type View = map<seq<int>, Mark>

  /** The node at path p, which is code c and k hashes, has the right mark. */
  ghost predicate Right(v: View, dict: seq<Entry>, p: seq<int>, c: seq<int>, k: nat) {
    && (p in v ==> v[p] == (if k < |Matches(dict, c)| then Ends(Matches(dict, c)[k]) else Inner))
    && (p in v && k > 0 ==> k < |Matches(dict, c)|)
    && (k < |Matches(dict, c)| ==> p in v)
  }

  /** The trie and a linear scan of the dictionary agree. */
  ghost predicate Indexes(v: View, dict: seq<Entry>) {
    && (forall p :: p in v ==> exists c, k: nat :: IsPath(p, c, k))
    && (forall p, c, k: nat {:trigger IsPath(p, c, k)} :: IsPath(p, c, k) ==> Right(v, dict, p, c, k))
  }

  lemma EmptyIndexes()
    ensures Indexes(map[[] := Inner], [])
  {
    assert IsPath([], [], 0);
    forall p, c, k: nat | IsPath(p, c, k) ensures Right(map[[] := Inner], [], p, c, k) {
      if p == [] {
        PathUnique([], c, k, [], 0);
      }
    }
  }

  /** A node without a word may be added for any code that is missing. */
  lemma GrowIndexes(v: View, dict: seq<Entry>, q: seq<int>)
    requires Indexes(v, dict) && AllDigits(q) && q !in v
    ensures Indexes(v[q := Inner], dict)
  {
    assert q + Hashes(0) == q;
    assert IsPath(q, q, 0);
    forall p, c, k: nat | IsPath(p, c, k) ensures Right(v[q := Inner], dict, p, c, k) {
      assert Right(v, dict, p, c, k);
      if p == q {
        PathUnique(q, c, k, q, 0);
      }
    }
  }

  /** Inserting a word for a code: the next free place of its chain gets it. */
  lemma AppendIndexes(v: View, dict: seq<Entry>, code: seq<int>, word: string, q: seq<int>, n: nat)
    requires Indexes(v, dict) && IsPath(q, code, n) && n == |Matches(dict, code)|
    ensures Indexes(v[q := Ends(word)], dict + [Entry(code, word)])
  {
    var e := Entry(code, word);
    forall p, c, k: nat | IsPath(p, c, k) ensures Right(v[q := Ends(word)], dict + [e], p, c, k) {
      assert Right(v, dict, p, c, k);
      MatchesSnoc(dict, e, c);
      if p == q {
        PathUnique(q, c, k, code, n);
      } else if c == code {
        assert k != n;
      }
    }
  }

  class Trie {
    const root: Node
    ghost var nodes: Nodes       // every node, by its path from the root
    ghost var dict: seq<Entry>   // everything inserted so far, in order

    /** The child pointers of the node at `p` lead one step further, where there is a step. */
    ghost predicate LinkedAt(p: seq<int>)
      requires p in nodes
      reads `nodes, nodes[p]
    {
      && nodes[p].path == p && |nodes[p].child| == 9
      && forall i :: 0 <= i < 9 ==> nodes[p].child[i] == At(nodes, Down(p, i))
    }

    /** Every node but the root hangs below another one. */
    ghost predicate Linked()
      reads `nodes, nodes.Values
    {
      && [] in nodes && nodes[[]] == root
      && (forall p {:trigger Up(p)} :: p in nodes && p != [] ==> Up(p) in nodes)
      && (forall p {:trigger LinkedAt(p)} :: p in nodes ==> LinkedAt(p))
    }

    ghost function Marks(): View
      reads `nodes, nodes.Values
    {
      map p | p in nodes :: if nodes[p].isEnd then Ends(nodes[p].word) else Inner
    }

    ghost predicate Valid()
      reads this, nodes.Values
    {
      Linked() && Indexes(Marks(), dict)
    }

    /** create_empty_trie. */
    constructor ()
      ensures Valid() && dict == [] && fresh(nodes.Values)
    {
      root := new Node(false, "", []);
      new;
      nodes := map[[] := root];
      dict := [];
      EmptyIndexes();
      assert Marks() == map[[] := Inner];
    }

    /** search_trie from the node at path `p`; digits 0..7 and 8 for '#'. */
    method Search(start: Node?, ghost p: seq<int>, nums: seq<int>) returns (cur: Node?)
      requires Valid() && start == At(nodes, p) && forall i :: 0 <= i < |nums| ==> 0 <= nums[i] <= 8
      ensures cur == At(nodes, p + nums)
    {
      cur := start;
      var i := 0;
      assert p + nums[..0] == p;
      while cur != null && i < |nums|
        invariant 0 <= i <= |nums| && cur == At(nodes, p + nums[..i])
      {
        assert Down(p + nums[..i], nums[i]) == p + nums[..i + 1];
        assert LinkedAt(p + nums[..i]);
        cur := cur.child[nums[i]];
        i := i + 1;
      }
      if cur == null {
        Beyond(p + nums[..i], nums[i..]);
        assert p + nums[..i] + nums[i..] == p + nums;
      } else {
        assert nums[..i] == nums;
      }
    }

    /** Nothing hangs below a missing node. */
    lemma {:induction false} Beyond(p: seq<int>, q: seq<int>)
      requires Linked() && p !in nodes
      ensures p + q !in nodes
    {
      if q == [] {
        assert p + q == p;
      } else {
        Beyond(p, q[..|q| - 1]);
        assert Up(p + q) == p + q[..|q| - 1];
      }
    }

    /** Hang a new node under the node at path `p`. */
    method NewChild(parent: Node, ghost p: seq<int>, i: int, end: bool, w: string) returns (n: Node)
      requires Linked() && p in nodes && nodes[p] == parent && 0 <= i < 9 && Down(p, i) !in nodes
      modifies `nodes, parent`child
      ensures Linked() && fresh(n) && nodes == old(nodes)[Down(p, i) := n]
      ensures Marks() == old(Marks())[Down(p, i) := if end then Ends(w) else Inner]
    {
      ghost var q := Down(p, i);
      assert LinkedAt(p);
      DownUp(p, i);
      n := new Node(end, w, q);
      ghost var before := nodes;
      parent.child := parent.child[i := n];
      nodes := nodes[q := n];
      forall r | r in nodes ensures LinkedAt(r) {
        assert r in before ==> old(LinkedAt(r));
        forall j | 0 <= j < 9 ensures nodes[r].child[j] == At(nodes, Down(r, j)) {
          DownUp(r, j);
          assert Down(r, j) in before ==> Up(Down(r, j)) in before;
        }
      }
    }

    /** The step of the first loop of insert_word. */
    method EnsureChild(cur: Node, ghost p: seq<int>, num: int) returns (next: Node)
      requires Valid() && p in nodes && nodes[p] == cur && AllDigits(p) && 0 <= num < 8
      modifies this, nodes.Values
      ensures Valid() && dict == old(dict) && fresh(nodes.Values - old(nodes.Values))
      ensures Down(p, num) in nodes && nodes[Down(p, num)] == next
    {
      assert LinkedAt(p);
      if cur.child[num] == null {
        GrowIndexes(Marks(), dict, Down(p, num));
        next := NewChild(cur, p, num, false, "");
      } else {
        next := cur.child[num];
      }
    }

    /** Give a node without a word its word. */
    method SetWord(cur: Node, ghost p: seq<int>, w: string)
      requires Linked() && p in nodes && nodes[p] == cur
      modifies cur`isEnd, cur`word
      ensures Linked() && Marks() == old(Marks())[p := Ends(w)]
    {
      cur.isEnd := true;
      cur.word := w;
      forall q | q in nodes ensures LinkedAt(q) && (nodes[q] == cur ==> q == p) {
        assert old(LinkedAt(q)) && old(LinkedAt(p));
      }
    }

    /** The last node of the chain of '#' below a code that has a word. */
    method LastOfChain(code: Node, ghost nums: seq<int>) returns (cur: Node, ghost k: nat)
      requires Valid() && nums in nodes && nodes[nums] == code && AllDigits(nums) && code.isEnd
      ensures |Matches(dict, nums)| == k + 1 && IsPath(nums + Hashes(k), nums, k)
      ensures nums + Hashes(k) in nodes && nodes[nums + Hashes(k)] == cur && Down(nums + Hashes(k), 8) !in nodes
    {
      cur, k := code, 0;
      assert nums + Hashes(0) == nums;
      assert IsPath(nums, nums, 0);
      assert LinkedAt(nums);
      while cur.child[8] != null
        invariant nums + Hashes(k) in nodes && nodes[nums + Hashes(k)] == cur
        invariant LinkedAt(nums + Hashes(k)) && IsPath(nums + Hashes(k), nums, k)
        invariant k < |Matches(dict, nums)|
        decreases |Matches(dict, nums)| - k
      {
        PathHash(nums + Hashes(k), nums, k);
        assert Down(nums + Hashes(k), 8) == nums + Hashes(k + 1);
        cur, k := cur.child[8], k + 1;
        assert LinkedAt(nums + Hashes(k));
      }
      PathHash(nums + Hashes(k), nums, k);
      assert Down(nums + Hashes(k), 8) == nums + Hashes(k + 1);
    }

    /** insert_word; nums[i] is the character's distance from '2'.  A code that is not
        made of digits is refused, though the nodes of its digits may have been made. */
    method InsertWord(nums: seq<int>, word: string) returns (ok: bool)
      requires Valid()
      modifies this, nodes.Values
      ensures Valid() && fresh(nodes.Values - old(nodes.Values))
      ensures ok <==> AllDigits(nums)
      ensures dict == old(dict) + (if ok then [Entry(nums, word)] else [])
    {
      var cur := root;
      var i := 0;
      while i < |nums|
        invariant 0 <= i <= |nums| && AllDigits(nums[..i])
        invariant Valid() && dict == old(dict) && fresh(nodes.Values - old(nodes.Values))
        invariant nums[..i] in nodes && nodes[nums[..i]] == cur
      {
        var num := nums[i];
        if num < 0 || num > 7 {
          return false;
        }
        assert Down(nums[..i], num) == nums[..i + 1];
        cur := EnsureChild(cur, nums[..i], num);
        i := i + 1;
      }
      assert nums[..i] == nums;
      AddHere(cur, nums, word);
      return true;
    }

    /** The rest of insert_word, at the node of the whole code. */
    method AddHere(node: Node, nums: seq<int>, word: string)
      requires Valid() && AllDigits(nums) && nums in nodes && nodes[nums] == node
      modifies this, nodes.Values
      ensures Valid() && fresh(nodes.Values - old(nodes.Values))
      ensures dict == old(dict) + [Entry(nums, word)]
    {
      assert nums + Hashes(0) == nums;
      assert IsPath(nums, nums, 0);
      if !node.isEnd {
        AddFirst(node, nums, word);
      } else {
        var cur, k := LastOfChain(node, nums);
        NextIndexes(Marks(), dict, nums, word, nums + Hashes(k), k);
        AddNext(cur, nums + Hashes(k), word, dict + [Entry(nums, word)]);
      }
    }

    /** The first word of a code is kept in the code's own node. */
    method AddFirst(node: Node, nums: seq<int>, word: string)
      requires Valid() && IsPath(nums, nums, 0) && nums in nodes && nodes[nums] == node && !node.isEnd
      modifies this, nodes.Values
      ensures Valid() && nodes == old(nodes) && dict == old(dict) + [Entry(nums, word)]
    {
      ghost var next, all := Marks()[nums := Ends(word)], dict + [Entry(nums, word)];
      AppendIndexes(Marks(), dict, nums, word, nums, 0);
      assert Indexes(next, all);
      SetWord(node, nums, word);
      dict := all;
      assert Marks() == next;
    }

    /** A later one in a new node at the end of the chain. */
    method AddNext(cur: Node, ghost q: seq<int>, word: string, ghost all: seq<Entry>)
      requires Linked() && q in nodes && nodes[q] == cur && Down(q, 8) !in nodes
      requires Indexes(Marks()[Down(q, 8) := Ends(word)], all)
      modifies this, nodes.Values
      ensures Valid() && fresh(nodes.Values - old(nodes.Values)) && dict == all
    {
      ghost var next := Marks()[Down(q, 8) := Ends(word)];
      var last := NewChild(cur, q, 8, true, word);
      dict := all;
      assert Marks() == next;
    }
  }

  lemma NextIndexes(v: View, dict: seq<Entry>, code: seq<int>, word: string, q: seq<int>, k: nat)
    requires Indexes(v, dict) && IsPath(q, code, k) && |Matches(dict, code)| == k + 1
    ensures Indexes(v[Down(q, 8) := Ends(word)], dict + [Entry(code, word)])
  {
    PathHash(q, code, k);
    AppendIndexes(v, dict, code, word, Down(q, 8), k + 1);
  }

  lemma DownUp(p: seq<int>, i: int)
    ensures Down(p, i) != [] && Up(Down(p, i)) == p && Down(p, i)[|Down(p, i)| - 1] == i
  {
  }
}
