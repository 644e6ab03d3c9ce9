/**
 heap_4.c as it works in memory: block headers at addresses, chained from the sentinel
 xStart through the free blocks to pxEnd.  Each method is proved to do to the abstract
 heap what HeapRuns says.
 */
module Heaps {
  import opened HeapSpec
  import R = HeapRuns

  /** BlockLink_t.  Address 0 is NULL. */
  datatype Link = Link(next: nat, size: nat)

  type Memory = map<nat, Link>

  // ----- chains of headers -----

  function First(s: seq<Block>, to: nat): nat {
    if s == [] then to else s[0].addr
  }

  function Last(from: nat, s: seq<Block>): nat
    decreases s
  {
    if s == [] then from else Last(s[0].addr, s[1..])
  }

  ghost predicate Avoids(s: seq<Block>, x: nat) {
    s == [] || (s[0].addr != x && Avoids(s[1..], x))
  }

  /** From the header at `from`, the next pointers run through the blocks of s, each header
      recording its block's size, and then to `to`. */
  ghost predicate Chain(m: Memory, from: nat, s: seq<Block>, to: nat)
    decreases s
  {
    && from in m
    && m[from].next == First(s, to)
    && (s != [] ==> s[0].addr in m && m[s[0].addr].size == s[0].size && Chain(m, s[0].addr, s[1..], to))
  }

  lemma {:induction false} ChainSplit(m: Memory, from: nat, a: seq<Block>, b: seq<Block>, to: nat)
    ensures Chain(m, from, a + b, to) <==> Chain(m, from, a, First(b, to)) && Chain(m, Last(from, a), b, to)
    decreases a
  {
    if a == [] {
      assert a + b == b;
    } else {
      ChainSplit(m, a[0].addr, a[1..], b, to);
      assert (a + b)[1..] == a[1..] + b;
    }
  }

  /** Writing elsewhere does not disturb a chain. */
  lemma {:induction false} ChainFrame(m: Memory, from: nat, s: seq<Block>, to: nat, x: nat, v: Link)
    requires Chain(m, from, s, to) && from != x && Avoids(s, x)
    ensures Chain(m[x := v], from, s, to)
    decreases s
  {
    if s != [] {
      ChainFrame(m, s[0].addr, s[1..], to, x, v);
    }
  }

  ghost predicate Ascending(s: seq<Block>) {
    s == [] || (Avoids(s[1..], s[0].addr) && Ascending(s[1..]))
  }

  /** Redirecting the last header of a chain redirects the chain. */
  lemma {:induction false} ChainRetarget(m: Memory, from: nat, s: seq<Block>, to: nat, to': nat)
    requires Chain(m, from, s, to) && Ascending(s) && Avoids(s, from)
    ensures Last(from, s) in m
    ensures Chain(m[Last(from, s) := m[Last(from, s)].(next := to')], from, s, to')
    decreases s
  {
    if s != [] {
      ChainRetarget(m, s[0].addr, s[1..], to, to');
      LastAvoids(s, from);
    }
  }

  lemma {:induction false} LastAvoids(s: seq<Block>, x: nat)
    requires s != [] && Avoids(s, x)
    ensures Last(s[0].addr, s[1..]) != x
  {
    if s[1..] != [] {
      LastAvoids(s[1..], x);
    }
  }

  lemma {:induction false} AvoidsBelow(s: seq<Block>, x: nat)
    requires Separated(s) && (s == [] || x < s[0].addr)
    ensures Avoids(s, x)
  {
    if s != [] {
      AvoidsBelow(s[1..], x);
    }
  }

  lemma {:induction false} SeparatedAscends(s: seq<Block>)
    requires Separated(s)
    ensures Ascending(s)
  {
    if s != [] {
      SeparatedAscends(s[1..]);
      AvoidsBelow(s[1..], s[0].addr);
    }
  }

  lemma {:induction false} AvoidsOutside(s: seq<Block>, low: nat, high: nat, x: nat)
    requires Separated(s) && Within(s, low, high) && (x < low || high <= x)
    ensures Avoids(s, x)
  {
    if s != [] {
      AvoidsOutside(s[1..], low, high, x);
    }
  }

  lemma {:induction false} AvoidsUncovered(s: seq<Block>, x: nat)
    requires Separated(s) && !Covers(s, x)
    ensures Avoids(s, x)
  {
    if s != [] {
      AvoidsUncovered(s[1..], x);
    }
  }

  lemma {:induction false} AvoidsParts(a: seq<Block>, b: seq<Block>, x: nat)
    ensures Avoids(a + b, x) <==> Avoids(a, x) && Avoids(b, x)
  {
    if a == [] {
      assert a + b == b;
    } else {
      AvoidsParts(a[1..], b, x);
      assert (a + b)[1..] == a[1..] + b;
    }
  }

  ghost predicate EndsBefore(s: seq<Block>, x: nat) {
    s == [] || (s[0].End() < x && EndsBefore(s[1..], x))
  }

  lemma {:induction false} EndsBeforeMore(s: seq<Block>, x: nat, y: nat)
    requires EndsBefore(s, x) && x <= y
    ensures EndsBefore(s, y) && Avoids(s, y)
  {
    if s != [] {
      EndsBeforeMore(s[1..], x, y);
    }
  }

  /** The two parts of a separated list. */
  lemma {:induction false} SeparatedParts(a: seq<Block>, b: seq<Block>)
    requires Separated(a + b)
    ensures Separated(a) && Separated(b)
    ensures b != [] ==> EndsBefore(a, b[0].addr)
    decreases a
  {
    if a == [] {
      assert a + b == b;
    } else {
      assert (a + b)[1..] == a[1..] + b;
      SeparatedParts(a[1..], b);
      if b != [] && a[1..] != [] {
        assert a[1].addr < b[0].addr;
      }
    }
  }

  /** Linking a block between two parts of a chain: its header points at the second part, and
      the last header of the first part points at it. */
  lemma ChainLink(m: Memory, from: nat, a: seq<Block>, x: Block, b: seq<Block>, to: nat, old_to: nat)
    requires Chain(m, from, a, old_to) && Ascending(a) && Avoids(a, from)
    requires Avoids(a, x.addr) && Avoids(b, Last(from, a)) && Last(from, a) != x.addr
    requires x.addr in m && m[x.addr] == Link(First(b, to), x.size)
    requires b != [] ==> b[0].addr in m && m[b[0].addr].size == b[0].size && Chain(m, b[0].addr, b[1..], to)
    ensures Last(from, a) in m
    ensures Chain(m[Last(from, a) := m[Last(from, a)].(next := x.addr)], from, a + ([x] + b), to)
  {
    ChainRetarget(m, from, a, old_to, x.addr);
    var last := Last(from, a);
    var m' := m[last := m[last].(next := x.addr)];
    if b != [] {
      ChainFrame(m, b[0].addr, b[1..], to, last, m'[last]);
    }
    assert ([x] + b)[1..] == b;
    ChainSplit(m', from, a, [x] + b, to);
  }

  /** Unlinking one. */
  lemma ChainUnlink(m: Memory, from: nat, a: seq<Block>, x: Block, b: seq<Block>, to: nat)
    requires Chain(m, from, a + ([x] + b), to) && Ascending(a) && Avoids(a, from) && Avoids(b, Last(from, a))
    ensures Last(from, a) in m && x.addr in m && m[Last(from, a)].next == x.addr
      && m[x.addr] == Link(First(b, to), x.size)
    ensures Chain(m[Last(from, a) := m[Last(from, a)].(next := First(b, to))], from, a + b, to)
  {
    assert ([x] + b)[1..] == b;
    ChainSplit(m, from, a, [x] + b, to);
    var last := Last(from, a);
    ChainRetarget(m, from, a, x.addr, First(b, to));
    var m' := m[last := m[last].(next := First(b, to))];
    if b != [] {
      ChainFrame(m, b[0].addr, b[1..], to, last, m'[last]);
    }
    ChainSplit(m', from, a, b, to);
  }

  /** The search for the insertion point passes over blocks that end before the new one. */
  lemma {:induction false} AddPasses(a: seq<Block>, b: seq<Block>, x: Block)
    requires EndsBefore(a, x.addr)
    ensures Add(a + b, x) == a + Add(b, x)
  {
    if a == [] {
      assert a + b == b;
    } else {
      assert (a + b)[1..] == a[1..] + b;
      AddPasses(a[1..], b, x);
      assert [a[0]] + (a[1..] + Add(b, x)) == a + Add(b, x);
    }
  }

  lemma {:induction false} LastSnoc(from: nat, s: seq<Block>, x: Block)
    ensures Last(from, s + [x]) == x.addr
    decreases s
  {
    if s == [] {
      assert s + [x] == [x];
    } else {
      LastSnoc(s[0].addr, s[1..], x);
      assert (s + [x])[1..] == s[1..] + [x];
    }
  }

  lemma {:induction false} FitsParts(a: seq<Block>, b: seq<Block>, x: Block)
    requires Fits(a + b, x)
    ensures Fits(a, x) && Fits(b, x)
  {
    if a == [] {
      assert a + b == b;
    } else {
      assert (a + b)[1..] == a[1..] + b;
      FitsParts(a[1..], b, x);
    }
  }

  lemma {:induction false} WithinParts(a: seq<Block>, b: seq<Block>, low: nat, high: nat)
    requires Within(a + b, low, high)
    ensures Within(a, low, high) && Within(b, low, high)
  {
    if a == [] {
      assert a + b == b;
    } else {
      assert (a + b)[1..] == a[1..] + b;
      WithinParts(a[1..], b, low, high);
    }
  }

  /** What surrounds an insertion point: everything before ends before the new block or, the
      last one only, where it begins; everything after begins no earlier than it ends. */
  lemma InsertionPoint(s: seq<Block>, k: nat, x: Block)
    requires k <= |s| && Separated(s) && Fits(s, x) && 0 < x.size
    requires k > 0 ==> s[k - 1].addr < x.addr
    requires k < |s| ==> x.addr <= s[k].addr
    ensures k < |s| ==> x.End() <= s[k].addr
    ensures k > 0 ==> s[k - 1].End() <= x.addr && EndsBefore(s[..k - 1], x.addr)
    ensures k > 0 && s[k - 1].End() < x.addr ==> EndsBefore(s[..k], x.addr)
    ensures Separated(s[..k]) && Separated(s[k..])
  {
    assert s == s[..k] + s[k..];
    SeparatedParts(s[..k], s[k..]);
    FitsParts(s[..k], s[k..], x);
    if k > 0 {
      var a, p := s[..k - 1], s[k - 1];
      assert s[..k] == a + [p];
      FitsParts(a, [p], x);
      SeparatedParts(a, [p]);
      EndsBeforeMore(a, p.addr, x.addr);
      if p.End() < x.addr {
        EndsBeforeSnoc(a, p, x.addr);
      }
    }
  }

  /** The addresses around an insertion point are all different. */
  lemma PartsAvoid(s: seq<Block>, k: nat, start: nat, x: Block, low: nat, high: nat)
    requires k <= |s| && Separated(s) && Fits(s, x) && 0 < x.size && Within(s, low, high)
    requires k > 0 ==> s[k - 1].addr < x.addr
    requires k < |s| ==> x.addr <= s[k].addr
    requires start < low || high < start
    ensures Ascending(s[..k]) && Avoids(s[..k], start) && Avoids(s[k..], start) && Avoids(s[..k], x.addr)
      && Avoids(s[k..], x.addr)
    ensures k > 0 ==> Ascending(s[..k - 1]) && Avoids(s[..k - 1], start) && Avoids(s[..k - 1], s[k - 1].addr)
    ensures k > 0 ==> Avoids(s[k..], s[k - 1].addr) && Avoids(s[k..], Last(start, s[..k - 1]))
    ensures k > 0 ==> Last(start, s[..k - 1]) != s[k - 1].addr
  {
    var a, b := s[..k], s[k..];
    assert s == a + b;
    SeparatedParts(a, b);
    WithinParts(a, b, low, high);
    FitsParts(a, b, x);
    SeparatedAscends(a);
    AvoidsOutside(a, low, high, start);
    AvoidsOutside(b, low, high, start);
    FitsAvoids(a, x);
    FitsAvoids(b, x);
    if k > 0 {
      var a0, p := s[..k - 1], s[k - 1];
      assert a == a0 + [p];
      SeparatedParts(a0, [p]);
      WithinParts(a0, [p], low, high);
      SeparatedAscends(a0);
      AvoidsOutside(a0, low, high, start);
      EndsBeforeMore(a0, p.addr, p.addr);
      LastEndsBefore(start, a0, p.addr);
      AvoidsBelow(b, p.addr);
      if a0 != [] {
        AvoidsBelow(b, Last(start, a0));
      }
    }
  }

  lemma {:induction false} NotAvoided(s: seq<Block>, i: nat)
    requires i < |s|
    ensures !Avoids(s, s[i].addr)
  {
    if i > 0 {
      NotAvoided(s[1..], i - 1);
    }
  }

  lemma {:induction false} PointAvoided(s: seq<Block>, k: nat, from: nat, z: nat)
    requires k <= |s| && Avoids(s, z) && z != from
    ensures z != Last(from, s[..k])
    decreases k
  {
    if k > 0 {
      PointAvoided(s[1..], k - 1, s[0].addr, z);
      assert s[..k][1..] == s[1..][..k - 1];
    }
  }

  lemma {:induction false} FitsAvoids(s: seq<Block>, x: Block)
    requires Separated(s) && Fits(s, x) && 0 < x.size
    ensures Avoids(s, x.addr)
  {
    if s != [] {
      FitsAvoids(s[1..], x);
    }
  }

  lemma {:induction false} LastEndsBefore(from: nat, s: seq<Block>, x: nat)
    requires EndsBefore(s, x)
    ensures s == [] || Last(from, s) < x
    decreases s
  {
    if s != [] {
      LastEndsBefore(s[0].addr, s[1..], x);
    }
  }

  lemma {:induction false} EndsBeforeSnoc(s: seq<Block>, p: Block, x: nat)
    requires EndsBefore(s, x) && p.End() < x
    ensures EndsBefore(s + [p], x)
  {
    if s == [] {
      assert s + [p] == [p];
    } else {
      EndsBeforeSnoc(s[1..], p, x);
      assert (s + [p])[1..] == s[1..] + [p];
    }
  }

  /** The new block, merged with what it touches, takes its place in the chain. */
  lemma MergedChain(m: Memory, start: nat, a: seq<Block>, y: Block, b: seq<Block>, end: nat, to: nat, m': Memory)
    requires Chain(m, start, a, to) && Ascending(a) && Avoids(a, start) && Avoids(a, y.addr) && start != y.addr
    requires b != [] ==> b[0].addr in m && m[b[0].addr].size == b[0].size && Chain(m, b[0].addr, b[1..], end)
    requires Avoids(b, y.addr) && Avoids(b, Last(start, a)) && Last(start, a) != y.addr
    requires m' == m[y.addr := Link(First(Absorb(y, b)[1..], end), Absorb(y, b)[0].size)]
    ensures Last(start, a) in m'
    ensures Chain(m'[Last(start, a) := m'[Last(start, a)].(next := y.addr)], start, a + Absorb(y, b), end)
  {
    var r := Absorb(y, b);
    var v := m'[y.addr];
    ChainFrame(m, start, a, to, y.addr, v);
    if b != [] {
      ChainFrame(m, b[0].addr, b[1..], end, y.addr, v);
      if r[1..] == b[1..] {
      } else {
        assert r[1..] == b;
      }
    }
    ChainLink(m', start, a, r[0], r[1..], end, to);
    assert r == [r[0]] + r[1..];
  }

  lemma AbsorbShape(y: Block, b: seq<Block>)
    ensures Absorb(y, b) != [] && Absorb(y, b)[0].addr == y.addr
    ensures b != [] && y.End() == b[0].addr ==>
      Absorb(y, b)[0].size == y.size + b[0].size && Absorb(y, b)[1..] == b[1..]
    ensures !(b != [] && y.End() == b[0].addr) ==> Absorb(y, b)[0].size == y.size && Absorb(y, b)[1..] == b
  {
  }

  /** What the chain looks like around an insertion point. */
  lemma SplitChain(m: Memory, start: nat, s: seq<Block>, k: nat, x: Block, low: nat, end: nat)
    requires Chain(m, start, s, end) && Separated(s) && Within(s, low, end)
    requires k <= |s| && Fits(s, x) && 0 < x.size && low <= x.addr && x.End() <= end
    requires k > 0 ==> s[k - 1].addr < x.addr
    requires k < |s| ==> x.addr <= s[k].addr
    requires start < low || end < start
    ensures var a, b, it := s[..k], s[k..], Last(start, s[..k]);
      && it in m && m[it].next == First(b, end) && Chain(m, start, a, First(b, end))
      && (b != [] ==>
           x.End() <= b[0].addr < end && b[0].addr in m && m[b[0].addr].size == b[0].size
             && Chain(m, b[0].addr, b[1..], end))
      && Ascending(a) && Avoids(a, start) && Avoids(a, x.addr) && Avoids(b, x.addr) && Avoids(b, it) && it != x.addr
    ensures k == 0 ==> Last(start, s[..k]) == start
    ensures k > 0 ==> var a, p, b := s[..k - 1], s[k - 1], s[k..];
      && Last(start, s[..k]) == p.addr && m[p.addr].size == p.size && p.End() <= x.addr && start != p.addr
      && Chain(m, start, a, p.addr) && Last(start, a) in m && m[Last(start, a)].next == p.addr
      && Ascending(a) && Avoids(a, start) && Avoids(a, p.addr) && Avoids(b, p.addr) && Avoids(b, Last(start, a))
        && Last(start, a) != p.addr
  {
    var a, b := s[..k], s[k..];
    InsertionPoint(s, k, x);
    assert s == a + b;
    ChainSplit(m, start, a, b, end);
    PartsAvoid(s, k, start, x, low, end);
    WithinParts(a, b, low, end);
    if k > 0 {
      LastSnoc(start, s[..k - 1], s[k - 1]);
      assert a == s[..k - 1] + [s[k - 1]];
      ChainSplit(m, start, s[..k - 1], [s[k - 1]], First(b, end));
      WithinParts(s[..k - 1], [s[k - 1]], low, end);
    }
  }

  /** The inserted list, in parts around the insertion point: merged with the block before ... */
  lemma AddJoins(s: seq<Block>, k: nat, x: Block)
    requires 0 < k <= |s| && Separated(s) && Fits(s, x) && 0 < x.size
    requires s[k - 1].addr < x.addr && (k < |s| ==> x.addr <= s[k].addr)
    requires s[k - 1].End() == x.addr
    ensures Add(s, x) == s[..k - 1] + Absorb(Block(s[k - 1].addr, s[k - 1].size + x.size), s[k..])
  {
    InsertionPoint(s, k, x);
    var a, pb := s[..k - 1], s[k - 1..];
    assert s == a + pb && pb[0] == s[k - 1] && pb[1..] == s[k..];
    AddPasses(a, pb, x);
    assert Add(pb, x) == Absorb(Block(pb[0].addr, pb[0].size + x.size), pb[1..]);
  }

  lemma AddAtHead(b: seq<Block>, x: Block)
    requires 0 < x.size && (b != [] ==> x.End() <= b[0].addr)
    ensures Add(b, x) == Absorb(x, b)
  {
  }

  /** ... or standing apart from it. */
  lemma AddApart(s: seq<Block>, k: nat, x: Block)
    requires k <= |s| && Separated(s) && Fits(s, x) && 0 < x.size
    requires k > 0 ==> s[k - 1].addr < x.addr && s[k - 1].End() != x.addr
    requires k < |s| ==> x.addr <= s[k].addr
    ensures Add(s, x) == s[..k] + Absorb(x, s[k..])
  {
    var a, b := s[..k], s[k..];
    assert s == a + b;
    assert EndsBefore(a, x.addr) && (b != [] ==> x.End() <= b[0].addr) by {
      InsertionPoint(s, k, x);
    }
    AddPasses(a, b, x);
    AddAtHead(b, x);
  }

  lemma HeaderBefore(m: Memory, from: nat, s: seq<Block>, k: nat, to: nat)
    requires Chain(m, from, s, to) && 0 < k <= |s|
    ensures Last(from, s[..k]) == s[k - 1].addr
    ensures s[k - 1].addr in m && m[s[k - 1].addr].size == s[k - 1].size
  {
    assert s[..k] == s[..k - 1] + [s[k - 1]] && s == s[..k - 1] + ([s[k - 1]] + s[k..]);
    LastSnoc(from, s[..k - 1], s[k - 1]);
    ChainSplit(m, from, s[..k - 1], [s[k - 1]] + s[k..], to);
  }

  /** A block merged with the one before it: one header is written, and the chain is the list
      with the block added. */
  lemma PreviousMerged(m: Memory, start: nat, s: seq<Block>, k: nat, x: Block, low: nat, end: nat)
    requires Chain(m, start, s, end) && Separated(s) && Within(s, low, end)
    requires 0 < k <= |s| && Fits(s, x) && 0 < x.size && low <= x.addr && x.End() <= end
    requires s[k - 1].addr < x.addr && (k < |s| ==> x.addr <= s[k].addr) && s[k - 1].End() == x.addr
    requires start < low || end < start
    ensures var it, b := s[k - 1].addr, s[k..];
      var r := Absorb(Block(it, s[k - 1].size + x.size), b);
      && it in m && m[it].next == First(b, end) && Last(start, s[..k]) == it != start
      && (b != [] ==> b[0].addr in m && m[b[0].addr] == Link(First(b[1..], end), b[0].size))
      && (b != [] ==> b[0].addr != end && b[0].addr != it)
      && Chain(m[it := Link(First(r[1..], end), r[0].size)], start, Add(s, x), end)
  {
    var a, it, b := s[..k - 1], s[k - 1].addr, s[k..];
    var y := Block(it, s[k - 1].size + x.size);
    var m' := m[it := Link(First(Absorb(y, b)[1..], end), Absorb(y, b)[0].size)];
    SplitChain(m, start, s, k, x, low, end);
    AddJoins(s, k, x);
    MergedChain(m, start, a, y, b, end, it, m');
    assert m'[Last(start, a)] == m[Last(start, a)];
    assert m'[Last(start, a) := m'[Last(start, a)].(next := it)] == m';
  }

  /** The blocks around the i-th one stand apart from it and from the sentinel. */
  lemma AroundIsApart(s: seq<Block>, i: nat, start: nat, low: nat, end: nat)
    requires i < |s| && Separated(s) && Within(s, low, end) && (start < low || end < start)
    ensures var a, b, x := s[..i], s[i + 1..], s[i].addr;
      Ascending(a) && Avoids(a, start) && Avoids(b, Last(start, a)) && x != Last(start, a) && x != start
  {
    var a, x, b := s[..i], s[i], s[i + 1..];
    assert s == a + ([x] + b) && ([x] + b)[1..] == b;
    SeparatedParts(a, [x] + b);
    WithinParts(a, [x] + b, low, end);
    SeparatedAscends(a);
    AvoidsOutside(a, low, end, start);
    AvoidsOutside(b, low, end, start);
    LastEndsBefore(start, a, x.addr);
    if a != [] {
      AvoidsBelow(b, Last(start, a));
    }
  }

  lemma AvoidsAround(s: seq<Block>, i: nat, y: nat)
    requires i < |s| && Avoids(s, y)
    ensures y != s[i].addr && Avoids(Remove(s, i), y)
  {
    var a, x, b := s[..i], s[i], s[i + 1..];
    assert s == a + ([x] + b) && ([x] + b)[1..] == b;
    AvoidsParts(a, [x] + b, y);
    AvoidsParts(a, b, y);
  }

  class Heap {
    const ucHeap: nat                // where the array lies in memory
    const total: nat                 // configTOTAL_HEAP_SIZE
    const start: nat                 // &xStart, outside the array
    var link: Memory                 // the headers
    var pxEnd: nat                   // 0 until the first allocation
    var freeBytes: nat               // xFreeBytesRemaining
    var minimumEver: nat             // xMinimumEverFreeBytesRemaining
    ghost var base: nat
    ghost var free: seq<Block>
    ghost var live: map<nat, nat>

    ghost predicate Linked()
      reads this
    {
      && Chain(link, start, free, pxEnd) && link[start].size == 0
      && Separated(free) && Within(free, base, pxEnd) && Aligned(free)
      && (start < base || pxEnd < start) && 0 < base
    }

    /** The merge with the block behind: `here` is the header of y, and the one at `it` points at
        what comes after y. */
    method MergeWithNext(it: nat, here: nat, ghost y: Block, ghost b: seq<Block>)
      requires it in link && here in link && here == y.addr && link[here].size == y.size
      requires link[it].next == First(b, pxEnd)
      requires b != [] ==> b[0].addr in link && link[b[0].addr] == Link(First(b[1..], pxEnd), b[0].size)
      requires b != [] ==> b[0].addr != pxEnd && b[0].addr != here
      modifies this`link
      ensures link == old(link)[here := Link(First(Absorb(y, b)[1..], pxEnd), Absorb(y, b)[0].size)]
    {
      AbsorbShape(y, b);
      if here + link[here].size == link[it].next {
        if link[it].next != pxEnd {
          link := link[here := Link(link[link[it].next].next, link[here].size + link[link[it].next].size)];
        } else {
          link := link[here := Link(pxEnd, link[here].size)];
        }
      } else {
        link := link[here := Link(link[it].next, link[here].size)];
      }
    }

    /** A block that may be put on the free list. */
    ghost predicate Insertable(x: Block)
      reads this
    {
      && base <= x.addr && 0 < x.size && x.End() <= pxEnd && Fits(free, x)
      && x.addr % ALIGNMENT == 0 && x.size % ALIGNMENT == 0
    }

    /** Only headers of the free list, the sentinel's and the block's own are written. */
    ghost predicate Untouched(m: Memory, m': Memory, s: seq<Block>, blk: nat) {
      forall x: nat :: x in m && x != start && x != blk && Avoids(s, x) ==> x in m' && m'[x] == m[x]
    }

    /** prvInsertBlockIntoFreeList when the block does not touch the one before it. */
    method LinkBetween(it: nat, blk: nat, ghost k: nat)
      requires Linked() && blk in link && Insertable(Block(blk, link[blk].size))
      requires k <= |free| && it == Last(start, free[..k])
      requires k > 0 ==> free[k - 1].addr < blk
      requires k < |free| ==> blk <= free[k].addr
      requires it in link && it + link[it].size != blk
      modifies this`link, this`free
      ensures Linked() && free == Add(old(free), Block(blk, old(link[blk].size)))
      ensures Untouched(old(link), link, old(free), blk)
    {
      ghost var x := Block(blk, link[blk].size);
      ghost var a, b, m := free[..k], free[k..], link;
      AddKeeps(free, x, base, pxEnd);
      SplitChain(link, start, free, k, x, base, pxEnd);
      AddApart(free, k, x);
      MergeWithNext(it, blk, x, b);
      MergedChain(m, start, a, x, b, pxEnd, First(b, pxEnd), link);
      link := link[it := Link(blk, link[it].size)];
      forall z: nat | z != start && Avoids(free, z) ensures z != it {
        PointAvoided(free, k, start, z);
      }
      free := Add(free, x);
    }

    /** The headers of a merge with the block before, and perhaps with the next one too. */
    method MergeHeaders(it: nat, blk: nat, ghost b: seq<Block>)
      requires it in link && blk in link && link[it].next == First(b, pxEnd)
      requires b != [] ==> b[0].addr in link && link[b[0].addr] == Link(First(b[1..], pxEnd), b[0].size)
      requires b != [] ==> b[0].addr != pxEnd && b[0].addr != it
      modifies this`link
      ensures var r := Absorb(Block(it, old(link[it].size + link[blk].size)), b);
        link == old(link)[it := Link(First(r[1..], pxEnd), r[0].size)]
    {
      link := link[it := Link(link[it].next, link[it].size + link[blk].size)];
      MergeWithNext(it, it, Block(it, link[it].size), b);
    }

    /** prvInsertBlockIntoFreeList when the block begins where the one before it ends. */
    method MergeWithPrevious(it: nat, blk: nat, ghost k: nat)
      requires Linked() && blk in link && Insertable(Block(blk, link[blk].size))
      requires k <= |free| && it == Last(start, free[..k])
      requires k > 0 ==> free[k - 1].addr < blk
      requires k < |free| ==> blk <= free[k].addr
      requires it in link && it + link[it].size == blk
      modifies this`link, this`free
      ensures Linked() && free == Add(old(free), Block(blk, old(link[blk].size)))
      ensures Untouched(old(link), link, old(free), blk)
    {
      ghost var x := Block(blk, link[blk].size);
      assert k > 0;
      HeaderBefore(link, start, free, k, pxEnd);
      AddKeeps(free, x, base, pxEnd);
      PreviousMerged(link, start, free, k, x, base, pxEnd);
      MergeHeaders(it, blk, free[k..]);
      NotAvoided(free, k - 1);
      free := Add(free, x);
    }

    /** prvInsertBlockIntoFreeList. */
    method InsertBlockIntoFreeList(blk: nat)
      requires Linked() && blk in link && Insertable(Block(blk, link[blk].size))
      modifies this`link, this`free
      ensures Linked() && free == Add(old(free), Block(blk, old(link[blk].size)))
      ensures Untouched(old(link), link, old(free), blk)
    {
      var it := start;
      ghost var k := 0;
      assert free[0..] == free;
      while link[it].next < blk
        invariant link == old(link) && free == old(free)
        invariant k <= |free| && it == Last(start, free[..k]) && it in link
        invariant Chain(link, it, free[k..], pxEnd)
        invariant k > 0 ==> free[k - 1].addr < blk
        decreases |free| - k
      {
        assert free[k..] != [];
        it := link[it].next;
        LastSnoc(start, free[..k], free[k]);
        assert free[..k + 1] == free[..k] + [free[k]];
        assert free[k..][1..] == free[k + 1..];
        k := k + 1;
      }
      if it + link[it].size == blk {
        MergeWithPrevious(it, blk, k);
      } else {
        LinkBetween(it, blk, k);
      }
    }

    // ----- the abstract heap -----

    ghost predicate LiveHeaders()
      reads this
    {
      && pxEnd in link && link[pxEnd] == Link(0, 0)
      && forall a :: a in live ==> a in link && link[a] == Link(0, live[a] + TOP)
    }

    ghost predicate Valid()
      reads this
    {
      && HEADER + 2 * ALIGNMENT <= total < TOP && 0 < ucHeap && (start < ucHeap || ucHeap + total <= start)
      && R.Inv(View())
      && (pxEnd != 0 ==>
           && Linked() && LiveHeaders()
           && base == R.Initial(ucHeap, total).base && pxEnd == R.Initial(ucHeap, total).end)
    }

    /** Before the first allocation the heap counts as already set up. */
    ghost function View(): R.HeapState
      requires HEADER + 2 * ALIGNMENT <= total
      reads this
    {
      if pxEnd == 0 then R.Initial(ucHeap, total) else R.HeapState(base, pxEnd, free, live, freeBytes, minimumEver)
    }

    constructor (ucHeap: nat, total: nat, start: nat)
      requires HEADER + 2 * ALIGNMENT <= total < TOP && 0 < ucHeap && (start < ucHeap || ucHeap + total <= start)
      ensures Valid() && pxEnd == 0 && View() == R.Initial(ucHeap, total)
    {
      this.ucHeap, this.total, this.start := ucHeap, total, start;
      link, pxEnd, freeBytes, minimumEver := map[], 0, 0, 0;
      base, free, live := 0, [], map[];
      R.InitialInv(ucHeap, total);
    }

    /** prvHeapInit. */
    method HeapInit()
      requires Valid() && pxEnd == 0
      modifies this
      ensures Valid() && pxEnd != 0 && View() == R.Initial(ucHeap, total)
    {
      R.InitialInv(ucHeap, total);
      var uxAddress := ucHeap;
      var size := total;
      if uxAddress % ALIGNMENT != 0 {
        uxAddress := (uxAddress + ALIGNMENT - 1) / ALIGNMENT * ALIGNMENT;
        size := size - (uxAddress - ucHeap);
      }
      var aligned := uxAddress;
      uxAddress := (aligned + size - HEADER) / ALIGNMENT * ALIGNMENT;
      WriteFirstBlock(aligned, uxAddress);
    }

    /** The headers of the one block and of pxEnd behind it. */
    method WriteFirstBlock(aligned: nat, end: nat)
      requires Valid() && pxEnd == 0
      requires aligned == R.Initial(ucHeap, total).base && end == R.Initial(ucHeap, total).end
      modifies this
      ensures Valid() && pxEnd != 0 && View() == R.Initial(ucHeap, total)
    {
      R.InitialInv(ucHeap, total);
      pxEnd := end;
      link := map[start := Link(aligned, 0), pxEnd := Link(0, 0), aligned := Link(pxEnd, pxEnd - aligned)];
      minimumEver := pxEnd - aligned;
      freeBytes := pxEnd - aligned;
      base, free, live := aligned, [Block(aligned, pxEnd - aligned)], map[];
    }

    /** The headers of live blocks and of pxEnd are not on the free list, nor the sentinel. */
    lemma LiveApart(x: nat)
      requires Valid() && pxEnd != 0 && (x in live || x == pxEnd)
      ensures x != start && x != 0 && Avoids(free, x)
    {
      if x in live {
        R.LiveFits(View(), x);
        AvoidsUncovered(free, x);
      } else {
        AvoidsOutside(free, base, pxEnd, x);
      }
    }

    /** The block is no longer allocated: its size loses the top bit. */
    method ClearAllocatedBit(a: nat)
      requires Valid() && pxEnd != 0 && a in live
      modifies this`link, this`live
      ensures Linked() && LiveHeaders() && live == old(live) - {a}
      ensures a in link && link[a] == Link(0, old(live[a])) && Insertable(Block(a, old(live[a])))
      ensures forall x: nat :: x in live || x == pxEnd ==> x != start && x != a && Avoids(free, x)
    {
      forall x: nat | x in live || x == pxEnd ensures x != start && Avoids(free, x) {
        LiveApart(x);
      }
      R.LiveFits(View(), a);
      ChainFrame(link, start, free, pxEnd, a, Link(0, live[a]));
      link := link[a := Link(0, link[a].size - TOP)];
      live := live - {a};
    }

    /** vPortFree. */
    method Free(p: nat)
      requires Valid() && R.Freeable(View(), p)
      modifies this`link, this`free, this`live, this`freeBytes
      ensures Valid() && View() == R.Free(old(View()), p)
    {
      if p != 0 {
        var pxLink := p - HEADER;
        if link[pxLink].size >= TOP {
          if link[pxLink].next == 0 {
            R.FreeKeepsInv(View(), p);
            Release(pxLink);
          }
        }
      }
    }

    method Release(a: nat)
      requires Valid() && pxEnd != 0 && a in live
      modifies this`link, this`free, this`live, this`freeBytes
      ensures Linked() && LiveHeaders() && live == old(live) - {a} && free == Add(old(free), Block(a, old(live[a])))
      ensures freeBytes == old(freeBytes) + old(live[a])
    {
      ClearAllocatedBit(a);
      freeBytes := freeBytes + link[a].size;
      InsertBlockIntoFreeList(a);
    }

    /** No live header, nor that of pxEnd, is at x or on the free list. */
    ghost predicate ApartFrom(x: nat)
      reads this
    {
      forall y: nat :: y in live || y == pxEnd ==> y != start && y != x && Avoids(free, y)
    }

    /** The i-th free block is taken out of the list. */
    method Unlink(prev: nat, blk: nat, ghost i: nat)
      requires Valid() && pxEnd != 0 && i < |free| && blk == free[i].addr
      requires prev == Last(start, free[..i]) && prev in link && blk in link
      modifies this`link, this`free
      ensures Linked() && LiveHeaders() && free == Remove(old(free), i)
      ensures blk in link && link[blk].size == old(free)[i].size && blk != start && ApartFrom(blk)
    {
      RemoveKeeps(free, i, base, pxEnd);
      UnlinkApart(i);
      UnlinkChain(i);
      link := link[prev := Link(link[blk].next, link[prev].size)];
      free := Remove(free, i);
    }

    lemma UnlinkChain(i: nat)
      requires Valid() && pxEnd != 0 && i < |free|
      ensures var prev, blk := Last(start, free[..i]), free[i].addr;
        && prev in link && blk in link && prev != blk && link[blk].size == free[i].size
        && Chain(link[prev := Link(link[blk].next, link[prev].size)], start, Remove(free, i), pxEnd)
    {
      ghost var a, x, b := free[..i], free[i], free[i + 1..];
      assert free == a + ([x] + b);
      UnlinkApart(i);
      ChainUnlink(link, start, a, x, b, pxEnd);
    }

    lemma UnlinkApart(i: nat)
      requires Valid() && pxEnd != 0 && i < |free|
      ensures var a, b, x := free[..i], free[i + 1..], free[i].addr;
        && Ascending(a) && Avoids(a, start) && Avoids(b, Last(start, a)) && x != Last(start, a) && x != start
        && forall y: nat :: y in live || y == pxEnd ==>
             y != start && y != x && Avoids(Remove(free, i), y) && y != Last(start, a)
    {
      AroundIsApart(free, i, start, base, pxEnd);
      forall y: nat | y in live || y == pxEnd
        ensures y != start && y != free[i].addr && Avoids(Remove(free, i), y) && y != Last(start, free[..i])
      {
        LiveApart(y);
        AvoidsAround(free, i, y);
        PointAvoided(free, i, start, y);
      }
    }

    /** What is left over of a block becomes a free block of its own. */
    method Split(blk: nat, available: nat, wanted: nat)
      requires Linked() && LiveHeaders() && blk in link && blk != start && ApartFrom(blk) && ApartFrom(blk + wanted)
      requires 0 < wanted < available && Insertable(Block(blk + wanted, available - wanted)) && blk + wanted != start
      requires Avoids(free, blk)
      modifies this`link, this`free
      ensures Linked() && LiveHeaders() && free == Add(old(free), Block(blk + wanted, available - wanted))
      ensures blk in link
    {
      var pxNewBlockLink := blk + wanted;
      FitsAvoids(free, Block(pxNewBlockLink, available - wanted));
      WriteHeader(pxNewBlockLink, 0, available - wanted);
      WriteHeader(blk, link[blk].next, wanted);
      InsertBlockIntoFreeList(pxNewBlockLink);
    }

    /** A header that is on no list. */
    method WriteHeader(at: nat, next: nat, size: nat)
      requires Linked() && LiveHeaders() && at != start && Avoids(free, at) && at !in live && at != pxEnd
      modifies this`link
      ensures Linked() && LiveHeaders() && link == old(link)[at := Link(next, size)]
    {
      ChainFrame(link, start, free, pxEnd, at, Link(next, size));
      link := link[at := Link(next, size)];
    }

    /** The leftover of the block at `blk`, once that is off the list, can become a free block. */
    lemma LeftoverInsertable(h: R.HeapState, i: nat, wanted: nat)
      requires R.Inv(h) && i < |h.free| && 0 < wanted < h.free[i].size && wanted % ALIGNMENT == 0
      requires h.base == base && h.end == pxEnd && h.live == live && free == Remove(h.free, i) && Linked()
      requires ApartFrom(h.free[i].addr)
      ensures Insertable(Block(h.free[i].addr + wanted, h.free[i].size - wanted))
      ensures ApartFrom(h.free[i].addr + wanted) && h.free[i].addr + wanted != start
    {
      var x := h.free[i].addr + wanted;
      R.RemainderFits(h.free, i, wanted, h.base, h.end);
      forall y: nat | y in live || y == pxEnd ensures y != x {
        if y in live {
          R.LiveFits(h, y);
        }
      }
    }

    /** The leftover of the i-th free block of h, just taken off the list, goes back on it. */
    method SplitLeftover(blk: nat, size: nat, wanted: nat, ghost h: R.HeapState, ghost i: nat)
      requires R.Inv(h) && i < |h.free| && h.base == base && h.end == pxEnd && h.live == live
      requires free == Remove(h.free, i) && blk == h.free[i].addr && size == h.free[i].size && 0 < wanted < size
      requires Linked() && LiveHeaders() && blk in link && blk != start && ApartFrom(blk) && Avoids(free, blk)
      requires wanted % ALIGNMENT == 0
      modifies this`link, this`free
      ensures Linked() && LiveHeaders() && blk in link && free == R.Taken(h.free, i, wanted)
    {
      LeftoverInsertable(h, i, wanted);
      Split(blk, size, wanted);
    }

    /** The i-th free block comes off the list; if more than the minimum would be left over it
        is split and the rest goes back.  The size of the block taken is returned. */
    method Carve(prev: nat, blk: nat, wanted: nat, ghost i: nat) returns (size: nat)
      requires Valid() && pxEnd != 0 && i < |free| && blk == free[i].addr
      requires prev == Last(start, free[..i]) && prev in link && blk in link && link[blk].size == free[i].size
      requires 0 < wanted <= free[i].size && wanted % ALIGNMENT == 0 && free[i].size % ALIGNMENT == 0
      modifies this`link, this`free
      ensures Linked() && LiveHeaders() && blk in link && blk != start && Avoids(free, blk)
      ensures size == R.Carved(old(free)[i].size, wanted) && free == R.Taken(old(free), i, size)
    {
      ghost var h := View();
      TakenAvoids(h.free, i, R.Carved(h.free[i].size, wanted));
      size := link[blk].size;
      Unlink(prev, blk, i);
      if size - wanted > MINIMUM_BLOCK {
        SplitLeftover(blk, size, wanted, h, i);
        size := wanted;
      }
    }

    /** The block taken is marked as allocated and the byte counts are brought up to date. */
    method Deliver(blk: nat, size: nat)
      requires Linked() && LiveHeaders() && blk != start && blk != pxEnd && Avoids(free, blk) && size <= freeBytes
      modifies this`link, this`live, this`freeBytes, this`minimumEver
      ensures Linked() && LiveHeaders() && live == old(live)[blk := size]
      ensures freeBytes == old(freeBytes) - size && minimumEver == R.Min(old(minimumEver), freeBytes)
    {
      freeBytes := freeBytes - size;
      if freeBytes < minimumEver {
        minimumEver := freeBytes;
      }
      ChainFrame(link, start, free, pxEnd, blk, Link(0, size + TOP));
      link := link[blk := Link(0, size + TOP)];
      live := live[blk := size];
    }

    lemma FirstFitFacts(wanted: nat, i: nat, n: Word)
      requires Valid() && pxEnd != 0 && !R.Refused(View(), n) && wanted == R.Rounded(n) && i == FirstFit(free, wanted)
      ensures i < |free| && 0 < wanted <= free[i].size <= freeBytes && free[i].addr < pxEnd
      ensures wanted % ALIGNMENT == 0 && free[i].size % ALIGNMENT == 0
    {
      R.RoundingNeverWraps(n);
      FirstFitIsFirst(free, wanted);
      R.AlignedAt(free, i);
      R.WithinAt(free, i, base, pxEnd);
      R.PartOfSum(free, i);
    }

    /** The part of pvPortMalloc that takes the i-th free block, whose header is at `blk` and is
        pointed at by the one at `prev`. */
    method TakeBlock(prev: nat, blk: nat, wanted: nat, ghost i: nat, ghost n: Word) returns (p: nat)
      requires Valid() && pxEnd != 0 && !R.Refused(View(), n) && wanted == R.Rounded(n)
      requires i == FirstFit(free, wanted) && prev == Last(start, free[..i]) && blk == free[i].addr
      requires prev in link && link[prev].next == blk && blk in link && link[blk].size == free[i].size
      modifies this`link, this`free, this`live, this`freeBytes, this`minimumEver
      ensures Valid() && (View(), p) == R.Malloc(old(View()), n)
    {
      R.MallocKeepsInv(View(), n);
      FirstFitFacts(wanted, i, n);
      p := link[prev].next + HEADER;
      CarveAndDeliver(prev, blk, wanted, i);
    }

    method CarveAndDeliver(prev: nat, blk: nat, wanted: nat, ghost i: nat)
      requires Valid() && pxEnd != 0 && i < |free| && blk == free[i].addr && blk < pxEnd
      requires prev == Last(start, free[..i]) && prev in link && blk in link && link[blk].size == free[i].size
      requires 0 < wanted <= free[i].size <= freeBytes && wanted % ALIGNMENT == 0 && free[i].size % ALIGNMENT == 0
      modifies this`link, this`free, this`live, this`freeBytes, this`minimumEver
      ensures Linked() && LiveHeaders()
      ensures View() == R.Delivered(old(View()), i, R.Carved(old(free)[i].size, wanted))
    {
      var size := Carve(prev, blk, wanted, i);
      Deliver(blk, size);
    }

    lemma TakenAvoids(s: seq<Block>, i: nat, size: nat)
      requires i < |s| && Separated(s) && Within(s, base, pxEnd) && Aligned(s) && 0 < size <= s[i].size
        && size % ALIGNMENT == 0
      ensures Avoids(Remove(s, i), s[i].addr) && Avoids(R.Taken(s, i, size), s[i].addr)
    {
      RemoveKeeps(s, i, base, pxEnd);
      R.TakenKeeps(s, i, size, base, pxEnd);
      R.TakenCovers(s, i, size, base, pxEnd, s[i].addr);
      AvoidsUncovered(Remove(s, i), s[i].addr);
      AvoidsUncovered(R.Taken(s, i, size), s[i].addr);
    }

    /** pvPortMalloc. */
    method Malloc(n: Word) returns (p: nat)
      requires Valid()
      modifies this
      ensures Valid() && pxEnd != 0
      ensures (View(), p) == R.Malloc(old(View()), n)
    {
      p := 0;
      if pxEnd == 0 {
        HeapInit();
      }
      if n < TOP {
        var wanted: Word := n;
        if wanted > 0 {
          wanted := (wanted + HEADER) % WORD;
          if wanted % ALIGNMENT != 0 {
            wanted := (wanted + (ALIGNMENT - wanted % ALIGNMENT)) % WORD;
          }
          R.RoundingNeverWraps(n);
        }
        if wanted > 0 && wanted <= freeBytes {
          p := TakeFirstFit(wanted, n);
        }
      }
    }

    /** The part of pvPortMalloc that searches for a block and takes it if there is one. */
    method TakeFirstFit(wanted: nat, ghost n: Word) returns (p: nat)
      requires Valid() && pxEnd != 0 && 0 < n < TOP && wanted == R.Rounded(n) && 0 < wanted <= freeBytes
      modifies this`link, this`free, this`live, this`freeBytes, this`minimumEver
      ensures Valid() && (View(), p) == R.Malloc(old(View()), n)
    {
      p := 0;
      var prev, blk, i := Search(wanted);
      if blk != pxEnd {
        p := TakeBlock(prev, blk, wanted, i, n);
      }
    }

    /** The walk along the free list to the first block of at least `wanted` bytes. */
    method Search(wanted: nat) returns (prev: nat, blk: nat, ghost i: nat)
      requires Valid() && pxEnd != 0 && 0 < wanted
      ensures i == FirstFit(free, wanted) && i <= |free| && (blk == pxEnd <==> i == |free|)
      ensures i < |free| ==> prev == Last(start, free[..i]) && prev in link && link[prev].next == blk
      ensures i < |free| ==> blk == free[i].addr && blk in link && link[blk].size == free[i].size
    {
      prev := start;
      blk := link[start].next;
      i := 0;
      assert free[0..] == free;
      HeadsBelow(free, base, pxEnd);
      while link[blk].size < wanted && link[blk].next != 0
        invariant i <= |free| && prev == Last(start, free[..i])
        invariant Chain(link, prev, free[i..], pxEnd) && blk == First(free[i..], pxEnd)
        invariant FirstFit(free, wanted) == i + FirstFit(free[i..], wanted)
        decreases |free| - i
      {
        assert free[i..] != [];
        prev := blk;
        blk := link[blk].next;
        LastSnoc(start, free[..i], free[i]);
        assert free[..i + 1] == free[..i] + [free[i]];
        assert free[i..][1..] == free[i + 1..];
        i := i + 1;
      }
      if i < |free| {
        NextIsNotNull(i);
      }
    }

    lemma NextIsNotNull(i: nat)
      requires Valid() && pxEnd != 0 && i < |free|
      ensures First(free[i + 1..], pxEnd) != 0
    {
      if i + 1 < |free| {
        R.WithinAt(free, i + 1, base, pxEnd);
      }
    }
  }

  lemma {:induction false} HeadsBelow(s: seq<Block>, low: nat, high: nat)
    requires Within(s, low, high) && Separated(s)
    ensures forall i :: 0 <= i < |s| ==> s[i].addr < high
  {
    if s != [] {
      HeadsBelow(s[1..], low, high);
    }
  }
}
