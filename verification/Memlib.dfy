/** The simulated memory of uw_cse351/lab5/memlib.c: a fixed storage and a break
    that only grows.  Storage is addressed in words of 8 bytes. */
module Memlib {

  /** A marker that lets quantifiers over memory cells be instantiated only
      where a cell is really accessed. */
  predicate Cell(a: int) { true }

  class Memory {
    const words: array<int>   // MAX_HEAP bytes from mem_start_brk on
    const page: int           // mem_pagesize() in words
    var brk: int              // mem_brk - mem_start_brk, in words
    ghost var m: seq<int>     // the contents of the storage

    ghost predicate Valid()
      reads this, words
    {
      && 0 < page && 0 <= brk <= |m| == words.Length
      && forall a {:trigger Cell(a)} :: Cell(a) && 0 <= a < |m| ==> words[a] == m[a]
    }

    /** mem_init: the heap is empty initially. */
    constructor (max: nat, pageWords: int)
      requires 0 < pageWords
      ensures Valid() && brk == 0 && |m| == max && page == pageWords && fresh(words)
    {
      words := new int[max];
      page, brk := pageWords, 0;
      new;
      m := words[..];
    }

    /** mem_reset_brk: make an empty heap. */
    method ResetBrk()
      requires Valid()
      modifies this`brk
      ensures Valid() && brk == 0
    {
      brk := 0;
    }

    /** mem_sbrk: extend the heap by `incr` words, or fail and leave it alone. */
    method Sbrk(incr: int) returns (oldBrk: int, ok: bool)
      requires Valid() && 0 <= incr
      modifies this`brk
      ensures Valid() && oldBrk == old(brk)
      ensures ok <==> old(brk) + incr <= |m|
      ensures brk == if ok then old(brk) + incr else old(brk)
    {
      oldBrk := brk;
      ok := !(brk + incr > words.Length);
      if ok {
        brk := brk + incr;
      }
    }

    method Load(a: int) returns (v: int)
      requires Valid() && 0 <= a < |m|
      ensures v == m[a]
    {
      assert Cell(a);
      v := words[a];
    }

    method Store(a: int, v: int)
      requires Valid() && 0 <= a < |m|
      modifies words, this`m
      ensures Valid() && m == old(m)[a := v]
    {
      words[a] := v;
      m := m[a := v];
    }
  }
}
