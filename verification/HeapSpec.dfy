/**
 The coalescing allocator of heap_4.c as values: an address-ordered free list and the
 live allocations.  The theorems are about every sequence of allocations and frees:
 the two always tile the heap, and the free list is a function of what is live.
 Module Heaps proves that the linked list in memory does what is defined here.
 */
module HeapSpec {
  /** size_t is 32 bits wide, and its top bit marks an allocated block. */
  const WORD: int := 0x1_0000_0000
  const TOP: int := 0x8000_0000

  type Word = x: int | 0 <= x < WORD witness 0

  const ALIGNMENT := 8       // portBYTE_ALIGNMENT
  const HEADER := 8          // xHeapStructSize
  const MINIMUM_BLOCK := 16  // heapMINIMUM_BLOCK_SIZE

  /** A block with its header, free or live. */
  datatype Block = Block(addr: nat, size: nat) {
    function End(): nat {
      addr + size
    }

    predicate Holds(x: int) {
      addr <= x < addr + size
    }
  }

  // ----- free lists -----

  /** In address order, with at least one byte between neighbours: nothing is left to merge. */
  ghost predicate Separated(s: seq<Block>) {
    s == [] || (s[0].size > 0 && (|s| > 1 ==> s[0].End() < s[1].addr) && Separated(s[1..]))
  }

  ghost predicate Covers(s: seq<Block>, x: int) {
    s != [] && (s[0].Holds(x) || Covers(s[1..], x))
  }

  function Sum(s: seq<Block>): nat {
    if s == [] then 0 else s[0].size + Sum(s[1..])
  }

  ghost predicate Aligned(s: seq<Block>) {
    s == [] || (s[0].addr % ALIGNMENT == 0 && s[0].size % ALIGNMENT == 0 && Aligned(s[1..]))
  }

  ghost predicate Within(s: seq<Block>, low: nat, high: nat) {
    s == [] || (low <= s[0].addr && s[0].End() <= high && Within(s[1..], low, high))
  }

  /** Nothing before its first block is covered. */
  lemma {:induction false} CoversFrom(s: seq<Block>, x: int)
    requires Separated(s) && Covers(s, x)
    ensures s[0].addr <= x
  {
    if !s[0].Holds(x) {
      CoversFrom(s[1..], x);
    }
  }

  lemma {:induction false} CoversWithin(s: seq<Block>, low: nat, high: nat, x: int)
    requires Within(s, low, high) && Covers(s, x)
    ensures low <= x < high
  {
    if !s[0].Holds(x) {
      CoversWithin(s[1..], low, high, x);
    }
  }

  /** The byte after a block of a separated list is not covered. */
  lemma GapAfterHead(s: seq<Block>)
    requires Separated(s) && s != []
    ensures Covers(s, s[0].addr) && !Covers(s, s[0].End()) && Covers(s, s[0].End() - 1)
    ensures forall x :: x < s[0].addr ==> !Covers(s, x)
  {
    forall x | x < s[0].addr ensures !Covers(s, x) {
      if Covers(s, x) {
        CoversFrom(s, x);
      }
    }
    if Covers(s[1..], s[0].End()) {
      CoversFrom(s[1..], s[0].End());
    }
  }

  ghost predicate SameCover(s: seq<Block>, t: seq<Block>) {
    forall x: int :: Covers(s, x) <==> Covers(t, x)
  }

  lemma SameHead(s: seq<Block>, t: seq<Block>)
    requires Separated(s) && Separated(t) && SameCover(s, t) && s != []
    ensures t != [] && s[0] == t[0]
  {
    GapAfterHead(s);
    assert Covers(t, s[0].addr);
    GapAfterHead(t);
    assert s[0].addr == t[0].addr;
    assert Covers(s, s[0].End()) <==> Covers(t, s[0].End());
    assert Covers(s, t[0].End()) <==> Covers(t, t[0].End());
  }

  lemma SameTail(s: seq<Block>, t: seq<Block>)
    requires Separated(s) && Separated(t) && SameCover(s, t) && s != [] && t != [] && s[0] == t[0]
    ensures SameCover(s[1..], t[1..])
  {
    forall x: int ensures Covers(s[1..], x) <==> Covers(t[1..], x) {
      assert Covers(s, x) <==> Covers(t, x);
      if Covers(s[1..], x) {
        CoversFrom(s[1..], x);
      }
      if Covers(t[1..], x) {
        CoversFrom(t[1..], x);
      }
    }
  }

  lemma EmptyCover(t: seq<Block>)
    requires Separated(t) && forall x: int :: !Covers(t, x)
    ensures t == []
  {
    if t != [] {
      GapAfterHead(t);
    }
  }

  /** The free list is canonical: separated lists that cover the same bytes are equal. */
  lemma {:induction false} Canonical(s: seq<Block>, t: seq<Block>)
    requires Separated(s) && Separated(t) && SameCover(s, t)
    ensures s == t
    decreases |s|
  {
    if s != [] {
      SameHead(s, t);
      SameTail(s, t);
      Canonical(s[1..], t[1..]);
      assert s == [s[0]] + s[1..] && t == [t[0]] + t[1..];
    } else {
      EmptyCover(t);
    }
  }

  // ----- inserting a block -----

  /** A block that overlaps nothing in the list. */
  ghost predicate Fits(s: seq<Block>, b: Block) {
    s == [] || ((s[0].End() <= b.addr || b.End() <= s[0].addr) && Fits(s[1..], b))
  }

  /** Put a block in front of a list, merging it with the first one if they touch. */
  function Absorb(b: Block, s: seq<Block>): seq<Block> {
    if s != [] && b.End() == s[0].addr then [Block(b.addr, b.size + s[0].size)] + s[1..] else [b] + s
  }

  /** prvInsertBlockIntoFreeList. */
  function Add(s: seq<Block>, b: Block): seq<Block> {
    if s == [] || b.addr < s[0].addr then Absorb(b, s)
    else if s[0].End() == b.addr then Absorb(Block(s[0].addr, s[0].size + b.size), s[1..])
    else [s[0]] + Add(s[1..], b)
  }

  lemma AbsorbOrdered(b: Block, s: seq<Block>, low: nat, high: nat)
    requires Separated(s) && b.size > 0 && (s != [] ==> b.End() <= s[0].addr)
    requires Within(s, low, high) && low <= b.addr && b.End() <= high
    ensures var r := Absorb(b, s);
      Separated(r) && Within(r, low, high) && Sum(r) == Sum(s) + b.size && r[0].addr == b.addr
  {
    var r := Absorb(b, s);
    if s != [] && b.End() == s[0].addr {
      assert r[1..] == s[1..];
    } else {
      assert r[1..] == s;
    }
  }

  lemma {:induction false} AddOrdered(s: seq<Block>, b: Block, low: nat, high: nat)
    requires Separated(s) && b.size > 0 && Fits(s, b)
    requires Within(s, low, high) && low <= b.addr && b.End() <= high
    ensures var r := Add(s, b);
      Separated(r) && Within(r, low, high) && Sum(r) == Sum(s) + b.size
      && r != [] && r[0].addr == if s == [] || b.addr < s[0].addr then b.addr else s[0].addr
  {
    if s == [] || b.addr < s[0].addr {
      AbsorbOrdered(b, s, low, high);
    } else if s[0].End() == b.addr {
      assert s[1..] != [] ==> b.End() <= s[1].addr;
      AbsorbOrdered(Block(s[0].addr, s[0].size + b.size), s[1..], low, high);
    } else {
      AddOrdered(s[1..], b, low, high);
      assert Add(s, b)[1..] == Add(s[1..], b);
    }
  }

  lemma AbsorbAligned(b: Block, s: seq<Block>)
    requires Aligned(s) && b.addr % ALIGNMENT == 0 && b.size % ALIGNMENT == 0
    ensures Aligned(Absorb(b, s))
  {
    var r := Absorb(b, s);
    if s != [] && b.End() == s[0].addr {
      assert r[1..] == s[1..];
    } else {
      assert r[1..] == s;
    }
  }

  lemma {:induction false} AddAligned(s: seq<Block>, b: Block)
    requires Aligned(s) && b.addr % ALIGNMENT == 0 && b.size % ALIGNMENT == 0
    ensures Aligned(Add(s, b))
  {
    if s == [] || b.addr < s[0].addr {
      AbsorbAligned(b, s);
    } else if s[0].End() == b.addr {
      AbsorbAligned(Block(s[0].addr, s[0].size + b.size), s[1..]);
    } else {
      AddAligned(s[1..], b);
      assert Add(s, b)[1..] == Add(s[1..], b);
    }
  }

  /** Inserting keeps the list separated, aligned and in range, and adds the block's size. */
  lemma AddKeeps(s: seq<Block>, b: Block, low: nat, high: nat)
    requires Separated(s) && b.size > 0 && Fits(s, b)
    requires Within(s, low, high) && low <= b.addr && b.End() <= high
    requires Aligned(s) && b.addr % ALIGNMENT == 0 && b.size % ALIGNMENT == 0
    ensures var r := Add(s, b);
      Separated(r) && Within(r, low, high) && Aligned(r) && Sum(r) == Sum(s) + b.size
      && r != [] && r[0].addr == if s == [] || b.addr < s[0].addr then b.addr else s[0].addr
  {
    AddOrdered(s, b, low, high);
    AddAligned(s, b);
  }

  lemma AbsorbCovers(b: Block, s: seq<Block>, x: int)
    ensures Covers(Absorb(b, s), x) <==> b.Holds(x) || Covers(s, x)
  {
    var r := Absorb(b, s);
    if s != [] && b.End() == s[0].addr {
      assert r[1..] == s[1..];
    } else {
      assert r[1..] == s;
    }
  }

  /** It covers exactly the old bytes and the block's. */
  lemma {:induction false} AddCovers(s: seq<Block>, b: Block, x: int)
    ensures Covers(Add(s, b), x) <==> b.Holds(x) || Covers(s, x)
  {
    if s == [] || b.addr < s[0].addr {
      AbsorbCovers(b, s, x);
    } else if s[0].End() == b.addr {
      AbsorbCovers(Block(s[0].addr, s[0].size + b.size), s[1..], x);
    } else {
      AddCovers(s[1..], b, x);
      assert Add(s, b)[1..] == Add(s[1..], b);
    }
  }

  // ----- taking a block -----

  /** Position of the first block of at least w bytes, or the length of the list. */
  function FirstFit(s: seq<Block>, w: nat): (i: nat)
    ensures i <= |s|
  {
    if s == [] || w <= s[0].size then 0 else 1 + FirstFit(s[1..], w)
  }

  lemma {:induction false} FirstFitIsFirst(s: seq<Block>, w: nat)
    ensures forall j :: 0 <= j < FirstFit(s, w) ==> s[j].size < w
    ensures FirstFit(s, w) < |s| ==> w <= s[FirstFit(s, w)].size
  {
    if s != [] && s[0].size < w {
      FirstFitIsFirst(s[1..], w);
    }
  }

  function Remove(s: seq<Block>, i: nat): seq<Block>
    requires i < |s|
  {
    s[..i] + s[i + 1..]
  }

  lemma {:induction false} RemoveKeeps(s: seq<Block>, i: nat, low: nat, high: nat)
    requires i < |s| && Separated(s) && Within(s, low, high) && Aligned(s)
    ensures var r := Remove(s, i);
      Separated(r) && Within(r, low, high) && Aligned(r) && Sum(r) == Sum(s) - s[i].size
      && (r != [] ==> s[0].addr <= r[0].addr && (i > 0 ==> r[0] == s[0]))
    ensures low <= s[i].addr && s[i].End() <= high && s[i].size > 0 && s[i].addr % ALIGNMENT == 0
      && s[i].size % ALIGNMENT == 0
    ensures forall x: int :: Covers(Remove(s, i), x) <==> Covers(s, x) && !s[i].Holds(x)
    ensures forall x: int :: s[i].Holds(x) ==> Covers(s, x)
  {
    if i == 0 {
      assert Remove(s, 0) == s[1..];
      forall x: int | Covers(s[1..], x) ensures !s[0].Holds(x) {
        CoversFrom(s[1..], x);
      }
    } else {
      RemoveKeeps(s[1..], i - 1, low, high);
      var r := Remove(s, i);
      assert r[0] == s[0] && r[1..] == Remove(s[1..], i - 1);
      assert s[i] == s[1..][i - 1];
      forall x: int | s[0].Holds(x) ensures !s[i].Holds(x) {
        if s[i].Holds(x) {
          assert Covers(s[1..], x);
          CoversFrom(s[1..], x);
        }
      }
    }
  }
}
