/**
 The sequence view of the kernel's lists (list.c, list.h): sorted insertion as insertion into a
 sequence, and the walking index as a rotation of it.
 */
module ListSpec {
  // ----- the sequence view -----

  /** How many items stand before the place of a value: the leading ones not above it. */
  function Place(values: seq<nat>, v: nat): (p: nat)
    ensures p <= |values|
  {
    if values == [] || values[0] > v then 0 else 1 + Place(values[1..], v)
  }

  function InsertAt<T>(s: seq<T>, p: nat, x: T): seq<T>
    requires p <= |s|
  {
    s[..p] + [x] + s[p..]
  }

  function DropAt<T>(s: seq<T>, p: nat): seq<T>
    requires p < |s|
  {
    s[..p] + s[p + 1..]
  }

  ghost predicate Sorted(values: seq<nat>) {
    values == [] || ((forall i :: 0 < i < |values| ==> values[0] <= values[i]) && Sorted(values[1..]))
  }

  /** The place of a value is the first item above it. */
  lemma {:induction false} PlaceIs(values: seq<nat>, v: nat, p: nat)
    requires p <= |values| && (forall i :: 0 <= i < p ==> values[i] <= v) && (p < |values| ==> values[p] > v)
    ensures Place(values, v) == p
  {
    if p > 0 {
      PlaceIs(values[1..], v, p - 1);
    }
  }

  lemma InsertAtTail<T>(s: seq<T>, p: nat, x: T)
    requires 0 < p <= |s|
    ensures InsertAt(s, p, x) == [s[0]] + InsertAt(s[1..], p - 1, x)
  {
  }

  /** Insertion keeps a list sorted ... */
  lemma {:induction false} InsertionKeepsSorted(values: seq<nat>, v: nat)
    requires Sorted(values)
    ensures Sorted(InsertAt(values, Place(values, v), v))
  {
    var r := InsertAt(values, Place(values, v), v);
    if values == [] || values[0] > v {
      assert r == [v] + values && r[1..] == values;
    } else {
      InsertAtTail(values, Place(values, v), v);
      InsertionKeepsSorted(values[1..], v);
      assert r[1..] == InsertAt(values[1..], Place(values[1..], v), v);
    }
  }

  /** ... and puts the new value after all equal ones. */
  lemma {:induction false} InsertionIsStable(values: seq<nat>, v: nat)
    requires Sorted(values)
    ensures forall i :: 0 <= i < |values| ==> (values[i] <= v <==> i < Place(values, v))
  {
    if values != [] && values[0] <= v {
      InsertionIsStable(values[1..], v);
      forall i | 0 <= i < |values| ensures values[i] <= v <==> i < Place(values, v) {
        assert i > 0 ==> values[i] == values[1..][i - 1];
      }
    }
  }

  // ----- round robin -----

  /** What successive walks return, from the place after the index. */
  function Turn<T>(s: seq<T>): seq<T>
    requires s != []
  {
    s[1..] + [s[0]]
  }

  function Turns<T>(s: seq<T>, n: nat): (r: seq<T>)
    requires s != []
    ensures |r| == |s|
    decreases n
  {
    if n == 0 then s else Turns(Turn(s), n - 1)
  }

  /** The items that n walks return, one after the other. */
  function Served<T>(s: seq<T>, n: nat): seq<T>
    requires s != []
    decreases n
  {
    if n == 0 then [] else [s[0]] + Served(Turn(s), n - 1)
  }

  lemma {:induction false} TurnsRotate<T>(a: seq<T>, b: seq<T>)
    requires a + b != []
    ensures Turns(a + b, |a|) == b + a && Served(a + b, |a|) == a
  {
    if a == [] {
      assert a + b == b && b + a == b;
    } else {
      assert Turn(a + b) == a[1..] + (b + [a[0]]);
      TurnsRotate(a[1..], b + [a[0]]);
      assert b + [a[0]] + a[1..] == b + a;
      assert [a[0]] + a[1..] == a;
    }
  }

  /** As many walks as there are items return each of them exactly once, and leave the order of
      the next ones as it was. */
  lemma RoundRobin<T>(upcoming: seq<T>)
    requires upcoming != []
    ensures Served(upcoming, |upcoming|) == upcoming && Turns(upcoming, |upcoming|) == upcoming
  {
    var none: seq<T> := [];
    assert upcoming + none == upcoming && none + upcoming == upcoming;
    TurnsRotate(upcoming, none);
  }

  /** The items of a ring in the order in which walks from position pos return them. */
  function UpcomingOf<T>(ring: seq<T>, pos: nat): (r: seq<T>)
    requires pos < |ring|
    ensures |r| == |ring| - 1
  {
    ring[pos + 1..] + ring[1..pos + 1]
  }

  lemma UpcomingNext<T>(ring: seq<T>, pos: nat)
    requires pos < |ring| && 2 <= |ring|
    ensures var next := if pos + 1 < |ring| then pos + 1 else 1;
      UpcomingOf(ring, pos)[0] == ring[next] && UpcomingOf(ring, next) == Turn(UpcomingOf(ring, pos))
  {
    if pos + 1 == |ring| {
      assert UpcomingOf(ring, pos) == ring[1..];
      assert UpcomingOf(ring, 1) == ring[2..] + [ring[1]];
    } else {
      assert ring[pos + 1..] == [ring[pos + 1]] + ring[pos + 2..];
      assert ring[1..pos + 2] == ring[1..pos + 1] + [ring[pos + 1]];
    }
  }

  lemma UpcomingInsertEnd<T>(ring: seq<T>, pos: nat, item: T)
    requires pos < |ring|
    ensures pos == 0 ==> UpcomingOf(InsertAt(ring, |ring|, item), 0) == UpcomingOf(ring, 0) + [item]
    ensures pos > 0 ==>
      UpcomingOf(InsertAt(ring, pos, item), pos + 1) == UpcomingOf(ring, pos)[..|ring| - 2] + [item] + [ring[pos]]
  {
    if pos > 0 {
      var r := InsertAt(ring, pos, item);
      assert r[pos + 2..] == ring[pos + 1..];
      assert r[1..pos + 2] == ring[1..pos] + [item] + [ring[pos]];
      assert UpcomingOf(ring, pos) == ring[pos + 1..] + ring[1..pos] + [ring[pos]];
    }
  }

  /** How many walks it takes to reach the item at position k. */
  function Due(ring: int, pos: nat, k: nat): int {
    if k <= pos then ring - 1 - pos + (k - 1) else k - pos - 1
  }

  lemma DropLeft<T>(a: seq<T>, b: seq<T>, j: nat)
    requires j < |a|
    ensures (a + b)[j] == a[j] && DropAt(a + b, j) == DropAt(a, j) + b
  {
  }

  lemma DropRight<T>(a: seq<T>, b: seq<T>, j: nat)
    requires j < |b|
    ensures (a + b)[|a| + j] == b[j] && DropAt(a + b, |a| + j) == a + DropAt(b, j)
  {
  }

  lemma UpcomingRemoveBehind<T>(ring: seq<T>, pos: nat, k: nat)
    requires 1 <= k <= pos < |ring|
    ensures var due := |ring| - 1 - pos + (k - 1);
      && UpcomingOf(ring, pos)[due] == ring[k]
      && UpcomingOf(DropAt(ring, k), pos - 1) == DropAt(UpcomingOf(ring, pos), due)
  {
    var r := DropAt(ring, k);
    DropRight(ring[pos + 1..], ring[1..pos + 1], k - 1);
    assert r[pos..] == ring[pos + 1..];
    assert r[1..pos] == ring[1..k] + ring[k + 1..pos + 1];
    assert DropAt(ring[1..pos + 1], k - 1) == ring[1..k] + ring[k + 1..pos + 1];
  }

  lemma UpcomingRemoveAhead<T>(ring: seq<T>, pos: nat, k: nat)
    requires pos < k < |ring|
    ensures var due := k - pos - 1;
      && UpcomingOf(ring, pos)[due] == ring[k]
      && UpcomingOf(DropAt(ring, k), pos) == DropAt(UpcomingOf(ring, pos), due)
  {
    var r := DropAt(ring, k);
    DropLeft(ring[pos + 1..], ring[1..pos + 1], k - pos - 1);
    assert r[pos + 1..] == DropAt(ring[pos + 1..], k - pos - 1);
    assert r[1..pos + 1] == ring[1..pos + 1];
  }

  lemma UpcomingRemove<T>(ring: seq<T>, pos: nat, k: nat)
    requires pos < |ring| && 1 <= k < |ring|
    ensures var due := Due(|ring|, pos, k);
      && 0 <= due < |ring| - 1 && UpcomingOf(ring, pos)[due] == ring[k]
      && UpcomingOf(DropAt(ring, k), if k <= pos then pos - 1 else pos) == DropAt(UpcomingOf(ring, pos), due)
  {
    if k <= pos {
      UpcomingRemoveBehind(ring, pos, k);
    } else {
      UpcomingRemoveAhead(ring, pos, k);
    }
  }

  lemma ItemsInsert<T>(ring: seq<T>, k: nat, item: T)
    requires k < |ring|
    ensures InsertAt(ring, k + 1, item)[1..] == InsertAt(ring[1..], k, item)
  {
  }

  // ----- runs of walks, additions and removals -----

  /** A ring, its end marker first, and where the walking index stands. */
  datatype Walk<T> = Walk(ring: seq<T>, pos: nat)

  /** listGET_OWNER_OF_NEXT_ENTRY. */
  function Next<T>(w: Walk<T>): Walk<T> {
    w.(pos := if w.pos + 1 < |w.ring| then w.pos + 1 else 1)
  }

  /** vListInsertEnd: just before the index, which is at the end when it rests on the marker. */
  function Add<T>(w: Walk<T>, item: T): Walk<T>
    requires w.pos < |w.ring|
  {
    if w.pos == 0 then w.(ring := InsertAt(w.ring, |w.ring|, item))
    else Walk(InsertAt(w.ring, w.pos, item), w.pos + 1)
  }

  /** uxListRemove of the item at position k: an index at or behind it steps back. */
  function Drop<T>(w: Walk<T>, k: nat): Walk<T>
    requires w.pos < |w.ring| && 1 <= k < |w.ring|
  {
    Walk(DropAt(w.ring, k), if k <= w.pos then w.pos - 1 else w.pos)
  }

  function Coming<T>(w: Walk<T>): (r: seq<T>)
    requires w.pos < |w.ring|
    ensures |r| == |w.ring| - 1
  {
    UpcomingOf(w.ring, w.pos)
  }

  /** Removal, of the item at the index as of any other, leaves the order of the rest. */
  lemma RemovalKeepsOrder<T>(w: Walk<T>, k: nat)
    requires w.pos < |w.ring| && 1 <= k < |w.ring|
    ensures var due := Due(|w.ring|, w.pos, k);
      && 0 <= due < |Coming(w)| && Coming(w)[due] == w.ring[k] && Coming(Drop(w, k)) == DropAt(Coming(w), due)
  {
    UpcomingRemove(w.ring, w.pos, k);
  }

  datatype Step<T> = StepNext | StepAdd(item: T) | StepDrop(k: nat)

  ghost predicate Enabled<T>(w: Walk<T>, step: Step<T>) {
    && w.pos < |w.ring|
    && (step.StepNext? ==> |w.ring| > 1)
    && (step.StepDrop? ==> 1 <= step.k < |w.ring|)
  }

  function Apply<T>(w: Walk<T>, step: Step<T>): (r: Walk<T>)
    requires Enabled(w, step)
    ensures r.pos < |r.ring|
  {
    match step
    case StepNext => Next(w)
    case StepAdd(item) => Add(w, item)
    case StepDrop(k) => Drop(w, k)
  }

  /** The index rests on the item that comes at place d. */
  ghost predicate RestsOn<T>(w: Walk<T>, d: int) {
    w.pos > 0 && d == |w.ring| - 2
  }

  /** How a step moves the item that comes at place d: a walk brings it one nearer, a removal
      never puts it off, and an addition puts it off exactly when the index rests on it. */
  function Moved<T>(w: Walk<T>, step: Step<T>, d: nat): int
    requires Enabled(w, step) && d < |w.ring| - 1
  {
    match step
    case StepNext => d - 1
    case StepAdd(_) => if w.pos > 0 && d == |w.ring| - 2 then d + 1 else d
    case StepDrop(k) => if Due(|w.ring|, w.pos, k) < d then d - 1 else d
  }

  lemma PlaceInTurn<T>(w: Walk<T>, step: Step<T>, d: nat)
    requires Enabled(w, step) && d < |w.ring| - 1
    requires step.StepNext? ==> d > 0
    requires step.StepDrop? ==> Due(|w.ring|, w.pos, step.k) != d
    ensures 0 <= Moved(w, step, d) < |Coming(Apply(w, step))|
    ensures Coming(Apply(w, step))[Moved(w, step, d)] == Coming(w)[d]
  {
    match step
    case StepNext => UpcomingNext(w.ring, w.pos);
    case StepAdd(item) => UpcomingInsertEnd(w.ring, w.pos, item);
    case StepDrop(k) => UpcomingRemove(w.ring, w.pos, k);
  }

  /** A run that can be made and does not remove the item that comes at place d before a walk
      returns it. */
  ghost predicate Stays<T>(w: Walk<T>, steps: seq<Step<T>>, d: int)
    requires w.pos < |w.ring|
    decreases |steps|
  {
    if steps == [] then true
    else
      && Enabled(w, steps[0]) && 0 <= d < |w.ring| - 1
      && (steps[0].StepDrop? ==> Due(|w.ring|, w.pos, steps[0].k) != d)
      && (if steps[0].StepNext? && d == 0 then true
          else Stays(Apply(w, steps[0]), steps[1..], Moved(w, steps[0], d)))
  }

  /** How often something is added just as the index rests on that item. */
  ghost function Delays<T>(w: Walk<T>, steps: seq<Step<T>>, d: int): nat
    requires w.pos < |w.ring| && Stays(w, steps, d)
    decreases |steps|
  {
    if steps == [] || (steps[0].StepNext? && d == 0) then 0
    else
      (if steps[0].StepAdd? && RestsOn(w, d) then 1 else 0)
      + Delays(Apply(w, steps[0]), steps[1..], Moved(w, steps[0], d))
  }

  function Walks<T>(steps: seq<Step<T>>): nat {
    if steps == [] then 0 else (if steps[0].StepNext? then 1 else 0) + Walks(steps[1..])
  }

  /** The items returned by the walks of a run. */
  ghost function Returned<T>(w: Walk<T>, steps: seq<Step<T>>): seq<T>
    decreases |steps|
  {
    if steps == [] || !Enabled(w, steps[0]) then []
    else (if steps[0].StepNext? then [Next(w).ring[Next(w).pos]] else []) + Returned(Apply(w, steps[0]), steps[1..])
  }

  /** However additions and removals of other items mix with the walks, the item that comes at
      place d is returned once there have been more walks than d and the additions made while
      the index rested on it. */
  lemma {:induction false} ServedInTurn<T>(w: Walk<T>, steps: seq<Step<T>>, d: nat)
    requires w.pos < |w.ring| && d < |w.ring| - 1 && Stays(w, steps, d)
    requires Walks(steps) > d + Delays(w, steps, d)
    ensures Coming(w)[d] in Returned(w, steps)
    decreases |steps|
  {
    var step := steps[0];
    if step.StepNext? && d == 0 {
      UpcomingNext(w.ring, w.pos);
      assert Returned(w, steps)[0] == Coming(w)[0];
    } else {
      PlaceInTurn(w, step, d);
      ServedInTurn(Apply(w, step), steps[1..], Moved(w, step, d));
    }
  }

  /** Removing the item at the index leaves the index on the one before it; what is added then
      goes ahead of that one, though it had been waiting for its turn. */
  lemma RemovalThenAdditionOvertakes(x: nat, y: nat, z: nat, added: nat)
    ensures var w := Walk([0, x, y, z], 2);
      && Coming(w) == [z, x, y]
      && Coming(Drop(w, 2)) == [z, x]
      && Coming(Add(Drop(w, 2), added)) == [z, added, x]
  {
    var w := Drop(Walk([0, x, y, z], 2), 2);
    assert w == Walk([0, x, z], 1);
    assert Add(w, added) == Walk([0, added, x, z], 2);
  }
}
