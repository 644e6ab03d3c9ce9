/**
 Allocation and release as operations on the whole heap, and what any sequence of them keeps.
 */
module HeapRuns {
  import opened HeapSpec

  /** `live` maps the address of each allocated block's header to the block's size. */
  datatype HeapState = HeapState(
    base: nat,               // the aligned start of ucHeap
    end: nat,                // pxEnd
    free: seq<Block>,
    live: map<nat, nat>,
    remaining: nat,          // xFreeBytesRemaining
    lowest: nat)             // xMinimumEverFreeBytesRemaining

  ghost predicate Owns(live: map<nat, nat>, a: nat, x: int) {
    a in live && a <= x < a + live[a]
  }

  ghost predicate Live(live: map<nat, nat>, x: int) {
    exists a :: Owns(live, a, x)
  }

  ghost predicate LiveOk(live: map<nat, nat>, base: nat, end: nat) {
    && (forall a :: a in live ==>
         base <= a && a + live[a] <= end && a % ALIGNMENT == 0 && live[a] % ALIGNMENT == 0 && MINIMUM_BLOCK <= live[a])
    && (forall a, b :: a in live && b in live && a < b ==> a + live[a] <= b)
  }

  /** Every byte of the heap is in exactly one free block or one live block. */
  ghost predicate Tiled(h: HeapState) {
    forall x: int :: h.base <= x < h.end ==> (Covers(h.free, x) <==> !Live(h.live, x))
  }

  ghost predicate Inv(h: HeapState) {
    && h.base % ALIGNMENT == 0 && h.end % ALIGNMENT == 0 && h.base <= h.end < h.base + TOP
    && Separated(h.free) && Within(h.free, h.base, h.end) && Aligned(h.free)
    && LiveOk(h.live, h.base, h.end)
    && Tiled(h)
    && h.remaining == Sum(h.free)
    && h.lowest <= h.remaining
  }

  // ----- sizes -----

  /** The request enlarged by a header and rounded up, in 32-bit arithmetic. */
  function Rounded(n: Word): Word {
    var wanted := (n + HEADER) % WORD;
    if wanted % ALIGNMENT != 0 then (wanted + (ALIGNMENT - wanted % ALIGNMENT)) % WORD else wanted
  }

  /** A request whose top bit is clear never wraps: it becomes the least multiple of 8 that
      holds it and a header. */
  lemma RoundingNeverWraps(n: Word)
    requires n < TOP
    ensures n + HEADER <= Rounded(n) < n + HEADER + ALIGNMENT && Rounded(n) % ALIGNMENT == 0
    ensures n > 0 ==> MINIMUM_BLOCK <= Rounded(n)
  {
  }

  // ----- the two operations -----

  function Min(a: nat, b: nat): nat {
    if a < b then a else b
  }

  /** The size of the block carved out of one of `available` bytes for a rounded request w:
      the whole block unless what is left over is worth keeping. */
  function Carved(available: nat, w: nat): nat
    requires w <= available
  {
    if available - w > MINIMUM_BLOCK then w else available
  }

  /** The free list once `size` bytes of its i-th block are taken. */
  function Taken(s: seq<Block>, i: nat, size: nat): seq<Block>
    requires i < |s| && size <= s[i].size
  {
    if size < s[i].size then Add(Remove(s, i), Block(s[i].addr + size, s[i].size - size)) else Remove(s, i)
  }

  /** A request is refused when its size has the top bit set or is zero, when the whole free
      store is too small, or when no single block is large enough. */
  predicate Refused(h: HeapState, n: Word) {
    n >= TOP || n == 0 || h.remaining < Rounded(n) || FirstFit(h.free, Rounded(n)) == |h.free|
  }

  lemma {:induction false} PartOfSum(s: seq<Block>, i: nat)
    requires i < |s|
    ensures s[i].size <= Sum(s)
  {
    if i > 0 {
      PartOfSum(s[1..], i - 1);
    }
  }

  /** The heap with the first bytes of the i-th free block allocated. */
  function Delivered(h: HeapState, i: nat, size: nat): HeapState
    requires i < |h.free| && size <= h.free[i].size && size <= h.remaining
  {
    h.(free := Taken(h.free, i, size),
       live := h.live[h.free[i].addr := size],
       remaining := h.remaining - size,
       lowest := Min(h.lowest, h.remaining - size))
  }

  /** pvPortMalloc: the new heap and the address handed out, 0 for NULL. */
  ghost function Malloc(h: HeapState, n: Word): (HeapState, nat)
    requires Inv(h)
  {
    if Refused(h, n) then (h, 0)
    else
      var i := FirstFit(h.free, Rounded(n));
      FirstFitIsFirst(h.free, Rounded(n));
      PartOfSum(h.free, i);
      var size := Carved(h.free[i].size, Rounded(n));
      (Delivered(h, i, size), h.free[i].addr + HEADER)
  }

  /** What the application may pass to vPortFree: NULL or something still allocated. */
  predicate Freeable(h: HeapState, p: nat) {
    p == 0 || (HEADER <= p && p - HEADER in h.live)
  }

  /** vPortFree. */
  function Free(h: HeapState, p: nat): HeapState
    requires Freeable(h, p)
  {
    if p == 0 then h
    else
      var a := p - HEADER;
      h.(free := Add(h.free, Block(a, h.live[a])), live := h.live - {a}, remaining := h.remaining + h.live[a])
  }

  // ----- each keeps the invariant -----

  /** A block none of whose bytes is covered overlaps nothing. */
  lemma {:induction false} UncoveredFits(s: seq<Block>, b: Block)
    requires Separated(s) && b.size > 0 && forall x: int :: b.Holds(x) ==> !Covers(s, x)
    ensures Fits(s, b)
  {
    if s != [] {
      assert !(s[0].Holds(b.addr)) by {
        if s[0].Holds(b.addr) { assert Covers(s, b.addr); assert b.Holds(b.addr); }
      }
      assert !(b.Holds(s[0].addr)) by {
        if b.Holds(s[0].addr) { assert Covers(s, s[0].addr); }
      }
      UncoveredFits(s[1..], b);
    }
  }

  lemma StaysAligned(addr: nat, available: nat, size: nat)
    requires size <= available && addr % ALIGNMENT == 0 && available % ALIGNMENT == 0 && size % ALIGNMENT == 0
    ensures (addr + size) % ALIGNMENT == 0 && (available - size) % ALIGNMENT == 0
  {
  }

  /** What is left of a block overlaps none of the others. */
  lemma RemainderFits(s: seq<Block>, i: nat, size: nat, low: nat, high: nat)
    requires i < |s| && Separated(s) && Within(s, low, high) && Aligned(s)
    requires 0 < size < s[i].size && size % ALIGNMENT == 0
    ensures var r := Block(s[i].addr + size, s[i].size - size);
      && Fits(Remove(s, i), r) && low <= r.addr && r.End() <= high && r.addr % ALIGNMENT == 0 && r.size % ALIGNMENT == 0
      && Covers(s, r.addr)
  {
    RemoveKeeps(s, i, low, high);
    var r := Block(s[i].addr + size, s[i].size - size);
    StaysAligned(s[i].addr, s[i].size, size);
    assert s[i].Holds(r.addr);
    assert forall x: int :: r.Holds(x) ==> s[i].Holds(x);
    UncoveredFits(Remove(s, i), r);
  }

  /** Taking bytes from the front of a free block leaves a good free list without them. */
  lemma TakenKeeps(s: seq<Block>, i: nat, size: nat, low: nat, high: nat)
    requires i < |s| && Separated(s) && Within(s, low, high) && Aligned(s)
    requires 0 < size <= s[i].size && size % ALIGNMENT == 0
    ensures var r := Taken(s, i, size);
      Separated(r) && Within(r, low, high) && Aligned(r) && Sum(r) == Sum(s) - size
    ensures low <= s[i].addr && s[i].addr + size <= high && s[i].addr % ALIGNMENT == 0
  {
    RemoveKeeps(s, i, low, high);
    if size < s[i].size {
      RemainderFits(s, i, size, low, high);
      AddKeeps(Remove(s, i), Block(s[i].addr + size, s[i].size - size), low, high);
    }
  }

  lemma TakenCovers(s: seq<Block>, i: nat, size: nat, low: nat, high: nat, x: int)
    requires i < |s| && Separated(s) && Within(s, low, high) && Aligned(s) && 0 < size <= s[i].size
    ensures Covers(Taken(s, i, size), x) <==> Covers(s, x) && !Block(s[i].addr, size).Holds(x)
    ensures Block(s[i].addr, size).Holds(x) ==> Covers(s, x)
  {
    RemoveKeeps(s, i, low, high);
    if size < s[i].size {
      AddCovers(Remove(s, i), Block(s[i].addr + size, s[i].size - size), x);
    }
  }

  /** Moving a covered range from free to live keeps the heap tiled. */
  lemma TiledAfterTaking(h: HeapState, h': HeapState, b: Block)
    requires Inv(h) && b.size > 0
    requires h'.base == h.base && h'.end == h.end && h'.live == h.live[b.addr := b.size]
    requires forall x: int :: b.Holds(x) ==> Covers(h.free, x)
    requires forall x: int :: Covers(h'.free, x) <==> Covers(h.free, x) && !b.Holds(x)
    ensures Tiled(h') && b.addr !in h.live
    ensures forall a :: a in h.live ==> a + h.live[a] <= b.addr || b.End() <= a
  {
    forall a | a in h.live ensures a != b.addr && (a + h.live[a] <= b.addr || b.End() <= a) {
      if a <= b.addr < a + h.live[a] {
        assert Owns(h.live, a, b.addr) && b.Holds(b.addr);
      } else if b.Holds(a) {
        assert Owns(h.live, a, a);
      }
    }
    forall x: int | h.base <= x < h.end ensures Covers(h'.free, x) <==> !Live(h'.live, x) {
      if Live(h.live, x) {
        var a :| Owns(h.live, a, x);
        assert Owns(h'.live, a, x);
      }
      if b.Holds(x) {
        assert Owns(h'.live, b.addr, x);
      }
      if Live(h'.live, x) {
        var a :| Owns(h'.live, a, x);
        assert a == b.addr || Owns(h.live, a, x);
      }
    }
  }

  lemma MallocKeepsInv(h: HeapState, n: Word)
    requires Inv(h)
    ensures Inv(Malloc(h, n).0)
  {
    if !Refused(h, n) {
      var h' := Malloc(h, n).0;
      var i := FirstFit(h.free, Rounded(n));
      RoundingNeverWraps(n);
      FirstFitIsFirst(h.free, Rounded(n));
      var b := Block(h.free[i].addr, Carved(h.free[i].size, Rounded(n)));
      AlignedAt(h.free, i);
      TakenKeeps(h.free, i, b.size, h.base, h.end);
      forall x: int
        ensures Covers(h'.free, x) <==> Covers(h.free, x) && !b.Holds(x)
        ensures b.Holds(x) ==> Covers(h.free, x)
      {
        TakenCovers(h.free, i, b.size, h.base, h.end, x);
      }
      TiledAfterTaking(h, h', b);
    }
  }

  lemma {:induction false} AlignedAt(s: seq<Block>, i: nat)
    requires i < |s| && Aligned(s)
    ensures s[i].addr % ALIGNMENT == 0 && s[i].size % ALIGNMENT == 0
  {
    if i > 0 {
      AlignedAt(s[1..], i - 1);
    }
  }

  /** A live block overlaps no free one. */
  lemma LiveFits(h: HeapState, a: nat)
    requires Inv(h) && a in h.live
    ensures Fits(h.free, Block(a, h.live[a])) && !Covers(h.free, a)
  {
    var b := Block(a, h.live[a]);
    forall x: int | b.Holds(x) ensures !Covers(h.free, x) {
      assert Owns(h.live, a, x);
    }
    assert b.Holds(a);
    UncoveredFits(h.free, b);
  }

  /** Releasing a live block is adding its bytes back to the free list. */
  lemma ReleasedFree(h: HeapState, a: nat)
    requires Inv(h) && a in h.live
    ensures var b := Block(a, h.live[a]); var free := Add(h.free, b);
      && Separated(free) && Within(free, h.base, h.end) && Aligned(free) && Sum(free) == h.remaining + b.size
      && (forall x: int :: Covers(free, x) <==> Covers(h.free, x) || b.Holds(x))
  {
    var b := Block(a, h.live[a]);
    LiveFits(h, a);
    AddKeeps(h.free, b, h.base, h.end);
    forall x: int ensures Covers(Add(h.free, b), x) <==> Covers(h.free, x) || b.Holds(x) {
      AddCovers(h.free, b, x);
    }
  }

  lemma FreeKeepsInv(h: HeapState, p: nat)
    requires Inv(h) && Freeable(h, p)
    ensures Inv(Free(h, p))
  {
    if p != 0 {
      var a := p - HEADER;
      var h' := Free(h, p);
      ReleasedFree(h, a);
      forall x: int | h.base <= x < h.end ensures Covers(h'.free, x) <==> !Live(h'.live, x) {
        if Live(h'.live, x) {
          var c :| Owns(h'.live, c, x);
          assert Owns(h.live, c, x);
        }
        if Live(h.live, x) {
          var c :| Owns(h.live, c, x);
          assert c == a || Owns(h'.live, c, x);
        }
      }
    }
  }

  // ----- what an allocation delivers -----

  /** First fit: NULL exactly when the request is empty, too large to represent, or no free
      block can hold it; the shortcut on the total refuses nothing that would fit. */
  lemma MallocRefusesExactly(h: HeapState, n: Word)
    requires Inv(h)
    ensures Malloc(h, n).1 == 0 <==>
      n == 0 || n >= TOP || forall i :: 0 <= i < |h.free| ==> h.free[i].size < Rounded(n)
    ensures Malloc(h, n).1 == 0 ==> Malloc(h, n).0 == h
  {
    FirstFitIsFirst(h.free, Rounded(n));
    if FirstFit(h.free, Rounded(n)) < |h.free| {
      PartOfSum(h.free, FirstFit(h.free, Rounded(n)));
    }
  }

  /** Otherwise it takes the lowest-addressed free block that is large enough ... */
  lemma MallocIsFirstFit(h: HeapState, n: Word)
    requires Inv(h) && Malloc(h, n).1 != 0
    ensures HEADER <= Malloc(h, n).1
    ensures exists i :: (
      && 0 <= i < |h.free| && h.free[i].addr == Malloc(h, n).1 - HEADER
      && Rounded(n) <= h.free[i].size && forall j :: 0 <= j < i ==> h.free[j].size < Rounded(n))
  {
    FirstFitIsFirst(h.free, Rounded(n));
  }

  /** ... which was free and is now the one new live block, aligned, large enough for the
      request and its header, with at most 16 bytes wasted on top of the rounding. */
  lemma MallocDelivers(h: HeapState, n: Word)
    requires Inv(h) && Malloc(h, n).1 != 0
    ensures var (h', p) := Malloc(h, n);
      && HEADER <= p && p % ALIGNMENT == 0
      && p - HEADER !in h.live && p - HEADER in h'.live && h'.live - {p - HEADER} == h.live
      && n + HEADER <= Rounded(n) <= h'.live[p - HEADER] <= Rounded(n) + MINIMUM_BLOCK
      && h'.remaining == h.remaining - h'.live[p - HEADER]
  {
    RoundingNeverWraps(n);
    FirstFitIsFirst(h.free, Rounded(n));
    FreeIsNotLive(h, FirstFit(h.free, Rounded(n)));
  }

  /** The block found is split exactly if more would be left over than the smallest block. */
  lemma MallocSplitsExactly(h: HeapState, n: Word)
    requires Inv(h) && Malloc(h, n).1 != 0
    ensures var (h', p) := Malloc(h, n); var i, w := FirstFit(h.free, Rounded(n)), Rounded(n);
      && i < |h.free| && w <= h.free[i].size && p - HEADER == h.free[i].addr && p - HEADER in h'.live
      && h'.live[p - HEADER] == if h.free[i].size > w + MINIMUM_BLOCK then w else h.free[i].size
  {
    FirstFitIsFirst(h.free, Rounded(n));
  }

  lemma FreeIsNotLive(h: HeapState, i: nat)
    requires Inv(h) && i < |h.free|
    ensures h.free[i].addr % ALIGNMENT == 0 && h.free[i].addr !in h.live
  {
    var a := h.free[i].addr;
    AlignedAt(h.free, i);
    WithinAt(h.free, i, h.base, h.end);
    HeadCovers(h.free, i);
    if a in h.live {
      assert Owns(h.live, a, a);
    }
  }

  lemma {:induction false} HeadCovers(s: seq<Block>, i: nat)
    requires Separated(s) && i < |s|
    ensures Covers(s, s[i].addr)
  {
    if i > 0 {
      HeadCovers(s[1..], i - 1);
    }
  }

  lemma {:induction false} WithinAt(s: seq<Block>, i: nat, low: nat, high: nat)
    requires i < |s| && Within(s, low, high)
    ensures low <= s[i].addr && s[i].End() <= high
  {
    if i > 0 {
      WithinAt(s[1..], i - 1, low, high);
    }
  }

  // ----- the free list is a function of what is live -----

  /** Two heaps over the same memory with the same live blocks have the same free list. */
  lemma FreeListIsCanonical(h1: HeapState, h2: HeapState)
    requires Inv(h1) && Inv(h2) && h1.base == h2.base && h1.end == h2.end && h1.live == h2.live
    ensures h1.free == h2.free && h1.remaining == h2.remaining
  {
    forall x: int ensures Covers(h1.free, x) <==> Covers(h2.free, x) {
      if Covers(h1.free, x) {
        CoversWithin(h1.free, h1.base, h1.end, x);
      }
      if Covers(h2.free, x) {
        CoversWithin(h2.free, h2.base, h2.end, x);
      }
    }
    Canonical(h1.free, h2.free);
  }

  /** Freeing what was just allocated restores the free list and the byte count, split or not. */
  lemma FreeUndoesMalloc(h: HeapState, n: Word)
    requires Inv(h) && Malloc(h, n).1 != 0
    ensures var (h', p) := Malloc(h, n);
      Freeable(h', p) && Free(h', p) == h.(lowest := h'.lowest)
  {
    var (h', p) := Malloc(h, n);
    MallocDelivers(h, n);
    MallocKeepsInv(h, n);
    FreeKeepsInv(h', p);
    var h'' := Free(h', p);
    assert h''.live == h.live;
    FreeListIsCanonical(h'', h);
  }

  /** The order of two frees does not matter. */
  lemma FreesCommute(h: HeapState, p: nat, q: nat)
    requires Inv(h) && p != q && p != 0 && q != 0 && Freeable(h, p) && Freeable(h, q)
    ensures Freeable(Free(h, p), q) && Freeable(Free(h, q), p)
    ensures Free(Free(h, p), q) == Free(Free(h, q), p)
  {
    var pq, qp := Free(Free(h, p), q), Free(Free(h, q), p);
    TwoFreesKeepInv(h, p, q);
    TwoFreesKeepInv(h, q, p);
    assert pq.live == qp.live;
    FreeListIsCanonical(pq, qp);
  }

  lemma TwoFreesKeepInv(h: HeapState, p: nat, q: nat)
    requires Inv(h) && p != q && p != 0 && q != 0 && Freeable(h, p) && Freeable(h, q)
    ensures Freeable(Free(h, p), q) && Inv(Free(Free(h, p), q))
  {
    FreeKeepsInv(h, p);
    FreeKeepsInv(Free(h, p), q);
  }

  /** With nothing live the heap is one block again. */
  lemma NothingLiveIsOneBlock(h: HeapState)
    requires Inv(h) && h.live == map[] && h.base < h.end
    ensures h.free == [Block(h.base, h.end - h.base)] && h.remaining == h.end - h.base
  {
    var whole := Block(h.base, h.end - h.base);
    forall x: int ensures Covers(h.free, x) <==> Covers([whole], x) {
      assert !Live(h.live, x);
      if Covers(h.free, x) {
        CoversWithin(h.free, h.base, h.end, x);
      }
    }
    var none: seq<Block> := [];
    assert [whole][1..] == none && Sum(none) == 0;
    Canonical(h.free, [whole]);
    assert Sum(h.free) == whole.size + Sum(h.free[1..]);
  }

  // ----- whole runs -----

  datatype Op = Allocate(n: Word) | Release(p: nat)

  ghost predicate Possible(h: HeapState, op: Op) {
    op.Release? ==> Freeable(h, op.p)
  }

  ghost function Do(h: HeapState, op: Op): HeapState
    requires Inv(h) && Possible(h, op)
  {
    match op
    case Allocate(n) => Malloc(h, n).0
    case Release(p) => Free(h, p)
  }

  ghost predicate IsRun(h: HeapState, ops: seq<Op>, h': HeapState)
    requires Inv(h)
    decreases |ops|
  {
    if ops == [] then h == h'
    else Possible(h, ops[0]) && (DoKeepsInv(h, ops[0]); IsRun(Do(h, ops[0]), ops[1..], h'))
  }

  lemma DoKeepsInv(h: HeapState, op: Op)
    requires Inv(h) && Possible(h, op)
    ensures Inv(Do(h, op)) && Do(h, op).base == h.base && Do(h, op).end == h.end
    ensures Do(h, op).lowest == Min(h.lowest, Do(h, op).remaining)
  {
    match op
    case Allocate(n) => MallocKeepsInv(h, n);
    case Release(p) => FreeKeepsInv(h, p);
  }

  /** prvHeapInit: a heap of `total` bytes at any address, cut down to alignment at both ends. */
  function Initial(address: nat, total: nat): HeapState
    requires total >= HEADER + 2 * ALIGNMENT
  {
    var base := if address % ALIGNMENT != 0 then (address + ALIGNMENT - 1) / ALIGNMENT * ALIGNMENT else address;
    var limit := address + total - HEADER;
    var end := limit / ALIGNMENT * ALIGNMENT;
    HeapState(base, end, if base < end then [Block(base, end - base)] else [], map[],
              if base < end then end - base else 0, if base < end then end - base else 0)
  }

  lemma AlignedUp(address: nat)
    ensures var up := (address + ALIGNMENT - 1) / ALIGNMENT * ALIGNMENT;
      up % ALIGNMENT == 0 && address <= up < address + ALIGNMENT
  {
  }

  /** The heap starts as one free block, from the first aligned address of the array to the last one
      with room for a header behind it, all of it counted as free and as the least so far. */
  lemma InitialIsAllFree(address: nat, total: nat)
    requires HEADER + 2 * ALIGNMENT <= total < TOP
    ensures var h := Initial(address, total);
      && h.base % ALIGNMENT == 0 && address <= h.base < address + ALIGNMENT
      && h.end % ALIGNMENT == 0 && h.end + HEADER <= address + total < h.end + HEADER + ALIGNMENT
      && h.live == map[] && h.free == [Block(h.base, h.end - h.base)]
      && h.remaining == h.lowest == h.end - h.base
  {
    AlignedUp(address);
  }

  lemma InitialInv(address: nat, total: nat)
    requires HEADER + 2 * ALIGNMENT <= total < TOP
    ensures Inv(Initial(address, total)) && Initial(address, total).base < Initial(address, total).end
    ensures address <= Initial(address, total).base && Initial(address, total).end + HEADER <= address + total
  {
    var h := Initial(address, total);
    InitialIsAllFree(address, total);
    forall x: int | h.base <= x < h.end ensures Covers(h.free, x) <==> !Live(h.live, x) {
      assert h.free[0].Holds(x);
    }
  }

  lemma {:induction false} RunKeepsInv(h: HeapState, ops: seq<Op>, h': HeapState)
    requires Inv(h) && IsRun(h, ops, h')
    ensures Inv(h') && h'.base == h.base && h'.end == h.end
    decreases |ops|
  {
    if ops != [] {
      DoKeepsInv(h, ops[0]);
      RunKeepsInv(Do(h, ops[0]), ops[1..], h');
    }
  }

  /** Whatever is allocated and freed in whatever order, the heap stays tiled by free and live
      blocks, the free list stays in order with nothing left to merge, and the byte count is
      its total; and if everything allocated has been freed the heap is one block again. */
  lemma HeapStaysWhole(address: nat, total: nat, ops: seq<Op>, h': HeapState)
    requires HEADER + 2 * ALIGNMENT <= total < TOP
    requires Inv(Initial(address, total)) && IsRun(Initial(address, total), ops, h')
    ensures Tiled(h') && Separated(h'.free) && Aligned(h'.free) && h'.remaining == Sum(h'.free)
    ensures h'.live == map[] ==> h'.free == Initial(address, total).free
  {
    InitialInv(address, total);
    RunKeepsInv(Initial(address, total), ops, h');
    if h'.live == map[] {
      NothingLiveIsOneBlock(h');
    }
  }

  /** Two runs that end with the same blocks live end with the same free list. */
  lemma RunsAgreeOnFreeList(h: HeapState, ops1: seq<Op>, h1: HeapState, ops2: seq<Op>, h2: HeapState)
    requires Inv(h) && IsRun(h, ops1, h1) && IsRun(h, ops2, h2) && h1.live == h2.live
    ensures h1.free == h2.free && h1.remaining == h2.remaining
  {
    RunKeepsInv(h, ops1, h1);
    RunKeepsInv(h, ops2, h2);
    FreeListIsCanonical(h1, h2);
  }

  /** The least number of free bytes over the states of a run. */
  ghost function LeastRemaining(h: HeapState, ops: seq<Op>, h': HeapState): nat
    requires Inv(h) && IsRun(h, ops, h')
    decreases |ops|
  {
    if ops == [] then h.remaining
    else
      DoKeepsInv(h, ops[0]);
      Min(h.remaining, LeastRemaining(Do(h, ops[0]), ops[1..], h'))
  }

  /** xMinimumEverFreeBytesRemaining is the minimum over the whole history. */
  lemma {:induction false} LowestIsMinimumEver(h: HeapState, ops: seq<Op>, h': HeapState)
    requires Inv(h) && IsRun(h, ops, h')
    ensures h'.lowest == Min(h.lowest, LeastRemaining(h, ops, h'))
    decreases |ops|
  {
    if ops != [] {
      DoKeepsInv(h, ops[0]);
      LowestIsMinimumEver(Do(h, ops[0]), ops[1..], h');
    }
  }

  /** From the start of the heap on, it is that minimum itself. */
  lemma LowestFromTheStart(address: nat, total: nat, ops: seq<Op>, h': HeapState)
    requires HEADER + 2 * ALIGNMENT <= total < TOP
    requires Inv(Initial(address, total)) && IsRun(Initial(address, total), ops, h')
    ensures h'.lowest == LeastRemaining(Initial(address, total), ops, h')
  {
    InitialIsAllFree(address, total);
    LowestIsMinimumEver(Initial(address, total), ops, h');
    LeastIsAtMostNow(Initial(address, total), ops, h');
  }

  lemma LeastIsAtMostNow(h: HeapState, ops: seq<Op>, h': HeapState)
    requires Inv(h) && IsRun(h, ops, h')
    ensures LeastRemaining(h, ops, h') <= h.remaining
  {
  }
}
