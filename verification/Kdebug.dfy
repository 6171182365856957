/** stab_binsearch (mit6.828/lab/kern/kdebug.c): binary search for an address among the
    records of one type, with records of other types in between. */
module Kdebug {

  /** Addresses are 32-bit. */
  const SPACE: int := 0x1_0000_0000
  type Addr = a: int | 0 <= a < 0x1_0000_0000

  datatype Stab = Stab(typ: int, value: Addr)

  /** What the two region pointers hold. */
  datatype Region = Region(left: int, right: int)

  ghost predicate Window(stabs: seq<Stab>, l: int, r: int) { 0 <= l && r < |stabs| }

  /** Record i has the type searched. */
  ghost predicate Is(stabs: seq<Stab>, typ: int, i: int) {
    0 <= i < |stabs| && stabs[i].typ == typ
  }

  ghost predicate Hit(stabs: seq<Stab>, typ: int, l: int, r: int, i: int) { l <= i <= r && Is(stabs, typ, i) }

  ghost predicate None(stabs: seq<Stab>, typ: int, l: int, r: int) {
    forall i :: l <= i <= r ==> !Is(stabs, typ, i)
  }

  /** The records searched are ordered by address. */
  ghost predicate Ordered(stabs: seq<Stab>, typ: int, l: int, r: int) {
    forall i, j :: l <= i <= j <= r && Is(stabs, typ, i) && Is(stabs, typ, j) ==>
      stabs[i].value <= stabs[j].value
  }

  ghost predicate Occurs(stabs: seq<Stab>, typ: int, l: int, r: int, value: int) {
    exists i :: l <= i <= r && Is(stabs, typ, i) && stabs[i].value == value
  }

  /** Some record starts at or before the address. */
  ghost predicate Contained(stabs: seq<Stab>, typ: int, l: int, r: int, addr: Addr) {
    exists i :: l <= i <= r && Is(stabs, typ, i) && stabs[i].value <= addr
  }

  // ---------- what the search is for ----------

  /** left is the last record at or before addr, right just before the next record. */
  ghost predicate Brackets(stabs: seq<Stab>, typ: int, l: int, r: int, addr: Addr, z: Region) {
    && Hit(stabs, typ, l, r, z.left) && stabs[z.left].value <= addr
    && z.left <= z.right <= r
    && (None(stabs, typ, z.left + 1, z.right))
    && (z.right < r ==> Hit(stabs, typ, l, r, z.right + 1) && stabs[z.right + 1].value > addr)
  }

  /** All records start after addr: right is just before the first of them, and left
      is where the scan from there stops. */
  ghost predicate AllAfter(stabs: seq<Stab>, typ: int, l: int, r: int, z: Region) {
    && l - 1 <= z.right < r && Hit(stabs, typ, l, r, z.right + 1)
    && (None(stabs, typ, l, z.right))
    && z.left == (if z.right < l then z.right else l)
  }

  ghost predicate Right(stabs: seq<Stab>, typ: int, l: int, r: int, addr: Addr, z: Region) {
    if None(stabs, typ, l, r) then z == Region(l, l - 1)
    else if Contained(stabs, typ, l, r, addr) then Brackets(stabs, typ, l, r, addr, z)
    else AllAfter(stabs, typ, l, r, z)
  }

  // ---------- the search as a function ----------

  /** The last record of the type in [l, m], or l - 1. */
  ghost function Back(stabs: seq<Stab>, typ: int, l: int, m: int): (b: int)
    requires Window(stabs, l, m) && l <= m + 1
    ensures l - 1 <= b <= m && (b < l || Hit(stabs, typ, l, m, b))
    ensures None(stabs, typ, b + 1, m)
    decreases m - l + 1
  {
    if m >= l && stabs[m].typ != typ then Back(stabs, typ, l, m - 1) else m
  }

  /** The variables of the main loop; r always equals *region_right. */
  datatype Loop = Loop(l: int, right: int, left: int, any: bool, addr: Addr)

  ghost predicate InWindow(stabs: seq<Stab>, s: Loop) { 0 <= s.l && s.right < |stabs| && 0 <= s.left }

  ghost function Middle(stabs: seq<Stab>, typ: int, s: Loop): (m: int)
    requires InWindow(stabs, s) && s.l <= s.right
    ensures s.l - 1 <= m <= (s.l + s.right) / 2 < |stabs|
  {
    Back(stabs, typ, s.l, (s.l + s.right) / 2)
  }

  /** One round of the main loop. */
  ghost function Round(stabs: seq<Stab>, typ: int, s: Loop): (t: Loop)
    requires InWindow(stabs, s) && s.l <= s.right
    ensures InWindow(stabs, t)
  {
    var trueM := (s.l + s.right) / 2;
    var m := Middle(stabs, typ, s);
    if m < s.l then s.(l := trueM + 1)
    else if stabs[m].value < s.addr then s.(any := true, left := m, l := trueM + 1)
    else if stabs[m].value > s.addr then s.(any := true, right := m - 1)
    else s.(any := true, left := m, l := m, addr := (s.addr + 1) % SPACE)
  }

  /** Does the next round meet the address exactly?  Such a round may leave the range
      as it is, but the round after it does not. */
  ghost function Exact(stabs: seq<Stab>, typ: int, s: Loop): nat
    requires InWindow(stabs, s)
  {
    if s.l <= s.right && Middle(stabs, typ, s) >= s.l && stabs[Middle(stabs, typ, s)].value == s.addr then 1 else 0
  }

  lemma RoundDecreases(stabs: seq<Stab>, typ: int, s: Loop)
    requires InWindow(stabs, s) && s.l <= s.right
    ensures var t := Round(stabs, typ, s);
            t.right - t.l < s.right - s.l ||
            (t.right - t.l == s.right - s.l && Exact(stabs, typ, t) < Exact(stabs, typ, s))
  {
  }

  ghost function Rounds(stabs: seq<Stab>, typ: int, s: Loop): (t: Loop)
    requires InWindow(stabs, s)
    ensures InWindow(stabs, t) && t.l > t.right
    decreases s.right - s.l + 1, Exact(stabs, typ, s)
  {
    if s.l <= s.right then Rounds(stabs, typ, Round(stabs, typ, s)) else s
  }

  /** After the loop. */
  ghost function Finish(stabs: seq<Stab>, typ: int, s: Loop): Region
    requires InWindow(stabs, s)
  {
    if !s.any then Region(s.left, s.left - 1)
    else if s.right > s.left then Region(Back(stabs, typ, s.left + 1, s.right), s.right)
    else Region(s.right, s.right)
  }

  ghost function Search(stabs: seq<Stab>, typ: int, l: int, r: int, addr: Addr): Region
    requires Window(stabs, l, r)
  {
    Finish(stabs, typ, Rounds(stabs, typ, Loop(l, r, l, false, addr)))
  }

  /** Both inner loops: step back from m while the type is another one. */
  method StepBack(stabs: seq<Stab>, typ: int, l: int, m: int) returns (b: int)
    requires Window(stabs, l, m) && l <= m + 1
    ensures b == Back(stabs, typ, l, m)
  {
    b := m;
    while b >= l && stabs[b].typ != typ
      invariant l - 1 <= b <= m && Back(stabs, typ, l, b) == Back(stabs, typ, l, m)
    {
      b := b - 1;
    }
  }

  /** The body of the main loop. */
  method Narrow(stabs: seq<Stab>, typ: int, l: int, r: int, left: int, any: bool, addr: Addr)
    returns (l': int, r': int, left': int, any': bool, addr': Addr)
    requires InWindow(stabs, Loop(l, r, left, any, addr)) && l <= r
    ensures Loop(l', r', left', any', addr') == Round(stabs, typ, Loop(l, r, left, any, addr))
  {
    l', r', left', any', addr' := l, r, left, any, addr;
    var trueM := (l + r) / 2;
    var m := StepBack(stabs, typ, l, trueM);
    if m < l {
      l' := trueM + 1;
      return;
    }
    any' := true;
    if stabs[m].value < addr {
      left' := m;
      l' := trueM + 1;
    } else if stabs[m].value > addr {
      r' := m - 1;
    } else {
      left' := m;
      l' := m;
      addr' := (addr + 1) % SPACE;
    }
  }

  /** stab_binsearch. */
  method StabBinsearch(stabs: seq<Stab>, regionLeft: int, regionRight: int, typ: int, address: Addr)
    returns (left: int, right: int)
    requires Window(stabs, regionLeft, regionRight)
    ensures Region(left, right) == Search(stabs, typ, regionLeft, regionRight, address)
    ensures Ordered(stabs, typ, regionLeft, regionRight) && Safe(stabs, typ, regionLeft, regionRight, address) ==>
              Right(stabs, typ, regionLeft, regionRight, address, Region(left, right))
  {
    left, right := regionLeft, regionRight;
    var l, anyMatches := left, false;
    var addr: Addr := address;
    ghost var s := Loop(l, right, left, false, addr);
    while l <= right
      invariant s == Loop(l, right, left, anyMatches, addr) && InWindow(stabs, s)
      invariant Rounds(stabs, typ, s) == Rounds(stabs, typ, Loop(regionLeft, regionRight, regionLeft, false, address))
      decreases s.right - s.l + 1, Exact(stabs, typ, s)
    {
      RoundDecreases(stabs, typ, s);
      l, right, left, anyMatches, addr := Narrow(stabs, typ, l, right, left, anyMatches, addr);
      s := Round(stabs, typ, s);
    }
    if !anyMatches {
      right := left - 1;
    } else if right > left {
      left := StepBack(stabs, typ, left + 1, right);
    } else {
      left := right;
    }
    RightWhenSafe(stabs, typ, regionLeft, regionRight, address);
  }

  // ---------- when it is right ----------

  /** The address is not met, or its successor exists and is not met. */
  ghost predicate Safe(stabs: seq<Stab>, typ: int, l: int, r: int, addr: Addr) {
    Occurs(stabs, typ, l, r, addr) ==> addr + 1 < SPACE && !Occurs(stabs, typ, l, r, addr + 1)
  }

  /** What every round keeps: the address is not passed by a record, ... */
  ghost predicate Near(stabs: seq<Stab>, typ: int, l: int, r: int, addr: Addr, s: Loop) {
    s.addr == addr || (s.addr == addr + 1 && Occurs(stabs, typ, l, r, addr))
  }

  /** ... everything left of l is at or before it, and everything right of right after it, ... */
  ghost predicate Parted(stabs: seq<Stab>, typ: int, l: int, r: int, addr: Addr, s: Loop) {
    && (forall i :: l <= i < s.l && Is(stabs, typ, i) ==> stabs[i].value <= addr)
    && (forall i :: s.right < i <= r && Is(stabs, typ, i) ==> stabs[i].value > addr)
  }

  /** ... and the two region pointers stand at records once a record was seen. */
  ghost predicate Placed(stabs: seq<Stab>, typ: int, l: int, r: int, addr: Addr, s: Loop) {
    && l <= s.l <= s.right + 1 <= r + 1 && l <= s.left
    && (s.left == l || (Hit(stabs, typ, l, s.right, s.left) && stabs[s.left].value <= addr))
    && (s.right == r || Hit(stabs, typ, l, r, s.right + 1))
    && (s.any ==> !None(stabs, typ, l, r))
    && (!s.any ==> s.left == l && s.right == r && None(stabs, typ, l, s.l - 1))
  }

  ghost predicate Keeps(stabs: seq<Stab>, typ: int, l: int, r: int, addr: Addr, s: Loop) {
    && Near(stabs, typ, l, r, addr, s)
    && Parted(stabs, typ, l, r, addr, s)
    && Placed(stabs, typ, l, r, addr, s)
  }

  lemma RoundNear(stabs: seq<Stab>, typ: int, l: int, r: int, addr: Addr, s: Loop)
    requires Window(stabs, l, r) && Safe(stabs, typ, l, r, addr) && InWindow(stabs, s)
    requires Near(stabs, typ, l, r, addr, s) && l <= s.l <= s.right <= r
    ensures Near(stabs, typ, l, r, addr, Round(stabs, typ, s))
    ensures Exact(stabs, typ, s) == 1 ==> s.addr == addr
  {
    var m := Middle(stabs, typ, s);
    assert m >= s.l ==> Is(stabs, typ, m);
    assert m >= s.l && stabs[m].value == s.addr ==> Occurs(stabs, typ, l, r, s.addr);
  }

  lemma RoundParted(stabs: seq<Stab>, typ: int, l: int, r: int, addr: Addr, s: Loop)
    requires Window(stabs, l, r) && Ordered(stabs, typ, l, r) && InWindow(stabs, s)
    requires addr <= s.addr <= addr + 1 && l <= s.l <= s.right <= r
    requires Exact(stabs, typ, s) == 1 ==> s.addr == addr
    requires Parted(stabs, typ, l, r, addr, s)
    ensures Parted(stabs, typ, l, r, addr, Round(stabs, typ, s))
  {
    var m := Middle(stabs, typ, s);
    assert m >= s.l ==> Is(stabs, typ, m);
  }

  lemma RoundPlaced(stabs: seq<Stab>, typ: int, l: int, r: int, addr: Addr, s: Loop)
    requires Window(stabs, l, r) && Ordered(stabs, typ, l, r) && InWindow(stabs, s)
    requires addr <= s.addr <= addr + 1 && s.l <= s.right
    requires Exact(stabs, typ, s) == 1 ==> s.addr == addr
    requires Placed(stabs, typ, l, r, addr, s)
    ensures Placed(stabs, typ, l, r, addr, Round(stabs, typ, s))
  {
    var m := Middle(stabs, typ, s);
    assert m >= s.l ==> Is(stabs, typ, m);
  }

  lemma RoundKeeps(stabs: seq<Stab>, typ: int, l: int, r: int, addr: Addr, s: Loop)
    requires Window(stabs, l, r) && Ordered(stabs, typ, l, r) && Safe(stabs, typ, l, r, addr)
    requires InWindow(stabs, s) && Keeps(stabs, typ, l, r, addr, s) && s.l <= s.right
    ensures Keeps(stabs, typ, l, r, addr, Round(stabs, typ, s))
  {
    RoundNear(stabs, typ, l, r, addr, s);
    RoundParted(stabs, typ, l, r, addr, s);
    RoundPlaced(stabs, typ, l, r, addr, s);
  }

  lemma {:induction false} RoundsKeep(stabs: seq<Stab>, typ: int, l: int, r: int, addr: Addr, s: Loop)
    requires Window(stabs, l, r) && Ordered(stabs, typ, l, r) && Safe(stabs, typ, l, r, addr)
    requires InWindow(stabs, s) && Keeps(stabs, typ, l, r, addr, s)
    ensures Keeps(stabs, typ, l, r, addr, Rounds(stabs, typ, s))
    decreases s.right - s.l + 1, Exact(stabs, typ, s)
  {
    if s.l <= s.right {
      RoundKeeps(stabs, typ, l, r, addr, s);
      RoundDecreases(stabs, typ, s);
      RoundsKeep(stabs, typ, l, r, addr, Round(stabs, typ, s));
    }
  }

  lemma FinishRight(stabs: seq<Stab>, typ: int, l: int, r: int, addr: Addr, s: Loop)
    requires Window(stabs, l, r) && InWindow(stabs, s) && Keeps(stabs, typ, l, r, addr, s) && s.l > s.right
    ensures Right(stabs, typ, l, r, addr, Finish(stabs, typ, s))
  {
    assert s.left != l ==> Contained(stabs, typ, l, r, addr);
  }

  /** On ordered records the search is right whenever it is safe. */
  lemma RightWhenSafe(stabs: seq<Stab>, typ: int, l: int, r: int, addr: Addr)
    requires Window(stabs, l, r)
    ensures Ordered(stabs, typ, l, r) && Safe(stabs, typ, l, r, addr) ==>
              Right(stabs, typ, l, r, addr, Search(stabs, typ, l, r, addr))
  {
    var s := Loop(l, r, l, false, addr);
    if l <= r && Ordered(stabs, typ, l, r) && Safe(stabs, typ, l, r, addr) {
      RoundsKeep(stabs, typ, l, r, addr, s);
      FinishRight(stabs, typ, l, r, addr, Rounds(stabs, typ, s));
    }
  }

  // ---------- and only then ----------

  lemma RoundsStep(stabs: seq<Stab>, typ: int, s: Loop, t: Loop)
    requires InWindow(stabs, s) && s.l <= s.right && t == Round(stabs, typ, s)
    ensures Rounds(stabs, typ, s) == Rounds(stabs, typ, t)
  {
  }

  /** With one record in the rest of the window and the raised address at it, the search ends
      there; or just before it, if raising the address once more wraps around. */
  lemma {:induction false} Overshoots(stabs: seq<Stab>, typ: int, s: Loop, j: int)
    requires InWindow(stabs, s) && s.l <= j == s.right && s.any && s.left < j
    requires None(stabs, typ, s.l, j - 1) && Is(stabs, typ, j) && stabs[j].value == s.addr
    ensures var z := Finish(stabs, typ, Rounds(stabs, typ, s));
      if s.addr + 1 < SPACE then z.left == j else z == Region(j - 1, j - 1)
    decreases j - s.l
  {
    var t := Round(stabs, typ, s);
    RoundsStep(stabs, typ, s, t);
    if s.l < j {
      assert Middle(stabs, typ, s) < s.l;
      Overshoots(stabs, typ, t, j);
    } else {
      assert t == Loop(j, j, j, true, (s.addr + 1) % SPACE);
      var u := if s.addr + 1 < SPACE then Loop(j + 1, j, j, true, s.addr + 1) else Loop(j, j - 1, j, true, 0);
      RoundsStep(stabs, typ, t, u);
      assert Rounds(stabs, typ, u) == u;
    }
  }

  /** A record at the address and the next one at its successor. */
  ghost predicate Pair(stabs: seq<Stab>, typ: int, i: int, j: int, addr: Addr) {
    && 0 <= i < j < |stabs| && Is(stabs, typ, i) && Is(stabs, typ, j) && None(stabs, typ, i + 1, j - 1)
    && stabs[i].value == addr && stabs[j].value == addr + 1
  }

  lemma PairRaises(stabs: seq<Stab>, typ: int, i: int, j: int, addr: Addr)
    requires Pair(stabs, typ, i, j, addr)
    ensures Round(stabs, typ, Loop(i, j, i, false, addr)) == Loop(i, j, i, true, addr + 1)
    ensures Round(stabs, typ, Loop(i, j, i, true, addr + 1)) == Loop((i + j) / 2 + 1, j, i, true, addr + 1)
  {
    assert Middle(stabs, typ, Loop(i, j, i, false, addr)) == i;
    assert Middle(stabs, typ, Loop(i, j, i, true, addr + 1)) == i;
  }

  lemma WrongPair(stabs: seq<Stab>, typ: int, i: int, j: int, addr: Addr)
    requires Pair(stabs, typ, i, j, addr)
    ensures var z := Search(stabs, typ, i, j, addr);
      if addr + 2 < SPACE then z.left == j else z == Region(j - 1, j - 1)
  {
    var s, t := Loop(i, j, i, false, addr), Loop(i, j, i, true, addr + 1);
    var u := Loop((i + j) / 2 + 1, j, i, true, addr + 1);
    PairRaises(stabs, typ, i, j, addr);
    RoundsStep(stabs, typ, s, t);
    RoundsStep(stabs, typ, t, u);
    Overshoots(stabs, typ, u, j);
  }

  /** At the last address the raised address wraps around to 0. */
  lemma WrongTop(stabs: seq<Stab>, typ: int, i: int)
    requires Is(stabs, typ, i) && stabs[i].value == SPACE - 1
    ensures Search(stabs, typ, i, i, SPACE - 1) == Region(i - 1, i - 1)
  {
    var s, t, u := Loop(i, i, i, false, SPACE - 1), Loop(i, i, i, true, 0), Loop(i, i - 1, i, true, 0);
    assert Middle(stabs, typ, s) == i && Middle(stabs, typ, t) == i;
    RoundsStep(stabs, typ, s, t);
    RoundsStep(stabs, typ, t, u);
    assert Rounds(stabs, typ, u) == u;
  }

  /** The last record of value v in front of one that is greater: the next record. */
  lemma {:induction false} Neighbours(stabs: seq<Stab>, typ: int, i: int, j: int, v: int) returns (x: int, y: int)
    requires 0 <= i < j < |stabs| && Ordered(stabs, typ, i, j) && Is(stabs, typ, i) && Is(stabs, typ, j)
    requires stabs[i].value == v && stabs[j].value == v + 1
    ensures i <= x < y <= j && Is(stabs, typ, x) && Is(stabs, typ, y) && None(stabs, typ, x + 1, y - 1)
    ensures stabs[x].value == v && stabs[y].value == v + 1
    decreases j - i
  {
    var b := Back(stabs, typ, i, j - 1);
    assert Is(stabs, typ, b);
    if stabs[b].value == v {
      x, y := b, j;
    } else {
      x, y := Neighbours(stabs, typ, i, b, v);
    }
  }

  ghost predicate RightEverywhere(stabs: seq<Stab>, typ: int, l: int, r: int, addr: Addr)
    requires Window(stabs, l, r)
  {
    forall x, y {:trigger Search(stabs, typ, x, y, addr)} :: l <= x && y <= r ==>
      Right(stabs, typ, x, y, addr, Search(stabs, typ, x, y, addr))
  }

  lemma SafeMeansRight(stabs: seq<Stab>, typ: int, l: int, r: int, addr: Addr)
    requires Window(stabs, l, r) && Ordered(stabs, typ, l, r) && Safe(stabs, typ, l, r, addr)
    ensures RightEverywhere(stabs, typ, l, r, addr)
  {
    forall x, y | l <= x && y <= r ensures Right(stabs, typ, x, y, addr, Search(stabs, typ, x, y, addr)) {
      RightWhenSafe(stabs, typ, x, y, addr);
    }
  }

  /** The address and its successor at two records without any other record between them. */
  ghost predicate Touching(stabs: seq<Stab>, typ: int, l: int, r: int, addr: Addr) {
    exists i :: l <= i < r && Touch(stabs, typ, i, addr)
  }

  ghost predicate Touch(stabs: seq<Stab>, typ: int, i: int, addr: Addr) { Pair(stabs, typ, i, i + 1, addr) }

  /** The one case in which the wrap-around of the raised address may make up for the error. */
  ghost predicate Lucky(stabs: seq<Stab>, typ: int, l: int, r: int, addr: Addr) {
    addr + 2 == SPACE && Touching(stabs, typ, l, r, addr)
  }

  lemma UnsafeMeansWrong(stabs: seq<Stab>, typ: int, l: int, r: int, addr: Addr)
    requires Window(stabs, l, r) && Ordered(stabs, typ, l, r) && !Safe(stabs, typ, l, r, addr) && !Lucky(stabs, typ, l, r, addr)
    ensures !RightEverywhere(stabs, typ, l, r, addr)
  {
    var i :| l <= i <= r && Is(stabs, typ, i) && stabs[i].value == addr;
    if addr + 1 == SPACE {
      WrongTop(stabs, typ, i);
      assert Contained(stabs, typ, i, i, addr);
    } else {
      var j :| l <= j <= r && Is(stabs, typ, j) && stabs[j].value == addr + 1;
      var x, y := Neighbours(stabs, typ, i, j, addr);
      assert Pair(stabs, typ, x, y, addr);
      WrongPair(stabs, typ, x, y, addr);
      assert Contained(stabs, typ, x, y, addr);
      assert y == x + 1 ==> Touch(stabs, typ, x, addr);
      assert y != x + 1 ==> !Is(stabs, typ, y - 1);
    }
  }

  /** For an ordered table, the search is right on every window of it exactly when the
      address and its successor do not both occur. */
  lemma RightExactly(stabs: seq<Stab>, typ: int, l: int, r: int, addr: Addr)
    requires Window(stabs, l, r) && Ordered(stabs, typ, l, r)
    ensures Safe(stabs, typ, l, r, addr) ==> RightEverywhere(stabs, typ, l, r, addr)
    ensures RightEverywhere(stabs, typ, l, r, addr) ==> Safe(stabs, typ, l, r, addr) || Lucky(stabs, typ, l, r, addr)
  {
    if Safe(stabs, typ, l, r, addr) {
      SafeMeansRight(stabs, typ, l, r, addr);
    } else if !Lucky(stabs, typ, l, r, addr) {
      UnsafeMeansWrong(stabs, typ, l, r, addr);
    }
  }

  /** The lucky case exists: a table on which the search is right although it is not safe. */
  lemma LuckyExample()
    ensures var stabs := [Stab(0, 0xFFFF_FFFE), Stab(0, 0xFFFF_FFFF)];
      RightEverywhere(stabs, 0, 0, 1, 0xFFFF_FFFE) && !Safe(stabs, 0, 0, 1, 0xFFFF_FFFE)
  {
    var stabs := [Stab(0, 0xFFFF_FFFE), Stab(0, 0xFFFF_FFFF)];
    var addr: Addr := 0xFFFF_FFFE;
    assert Is(stabs, 0, 0) && Is(stabs, 0, 1);
    assert Occurs(stabs, 0, 0, 1, addr) && Occurs(stabs, 0, 0, 1, addr + 1);
    forall x, y | 0 <= x && y <= 1 ensures Right(stabs, 0, x, y, addr, Search(stabs, 0, x, y, addr)) {
      if x == 0 && y == 1 {
        assert Pair(stabs, 0, 0, 1, addr);
        WrongPair(stabs, 0, 0, 1, addr);
      } else {
        RightWhenSafe(stabs, 0, x, y, addr);
      }
    }
  }

  /** The documentation's test for "not contained", left > right, sees only that there is no
      record at all; whether the address is contained shows in the type of the record at left. */
  lemma ContainedExactly(stabs: seq<Stab>, typ: int, l: int, r: int, addr: Addr)
    requires Window(stabs, l, r) && Ordered(stabs, typ, l, r) && Safe(stabs, typ, l, r, addr)
    ensures var z := Search(stabs, typ, l, r, addr);
            && (z.left > z.right <==> None(stabs, typ, l, r))
            && (Contained(stabs, typ, l, r, addr) <==> Hit(stabs, typ, l, z.right, z.left))
  {
    RightWhenSafe(stabs, typ, l, r, addr);
  }

  /** A record that starts after the address: the region found is not empty. */
  lemma NotContainedYetBracketed()
    ensures var stabs := [Stab(1, 0), Stab(0, 8)];
            !Contained(stabs, 0, 0, 1, 4) && Search(stabs, 0, 0, 1, 4) == Region(0, 0)
  {
    var stabs := [Stab(1, 0), Stab(0, 8)];
    assert Is(stabs, 0, 1) && !Is(stabs, 0, 0);
    RightWhenSafe(stabs, 0, 0, 1, 4);
  }
}
