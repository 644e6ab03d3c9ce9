/**
 The circular doubly linked list of list.c and list.h, threaded through items that carry a
 value, an owner and the list they are in.  The ring of pointers refines a sequence, and the
 walking index a rotation of it.
 */
module KernelLists {
  import opened ListSpec
  import opened Types

  const MAX_DELAY: nat := 0xffff_ffff

  type TickType = x: nat | x <= MAX_DELAY

  class ListItem {
    var value: TickType
    var next: ListItem?
    var previous: ListItem?
    var owner: nat
    var container: List?

    /** vListInitialiseItem: not on a list. */
    constructor (owner: nat, value: TickType)
      ensures container == null && this.owner == owner && this.value == value
    {
      this.owner, this.value, container, next, previous := owner, value, null, null, null;
    }
  }

  // ----- the ring of pointers -----

  /** The item after position k of a ring. */
  function After(ring: seq<ListItem>, k: nat): ListItem
    requires k < |ring|
  {
    if k + 1 < |ring| then ring[k + 1] else ring[0]
  }

  ghost predicate LinkedAt(ring: seq<ListItem>, k: nat)
    requires k < |ring|
    reads ring
  {
    ring[k].next == After(ring, k) && After(ring, k).previous == ring[k]
  }

  /** Linking an item in after position k makes a ring with it there. */
  lemma LinkedIn(ring: seq<ListItem>, k: nat, item: ListItem, r: seq<ListItem>)
    requires k < |ring| && r == InsertAt(ring, k + 1, item)
    requires forall i :: 0 <= i < |ring| && i != k ==> LinkedAt(ring, i)
    requires item.next == After(ring, k) && item.previous == ring[k]
    requires ring[k].next == item && After(ring, k).previous == item
    ensures forall j :: 0 <= j < |r| ==> LinkedAt(r, j)
  {
    forall j | 0 <= j < |r| ensures LinkedAt(r, j) {
      if j < k {
        assert LinkedAt(ring, j);
        assert r[j] == ring[j] && After(r, j) == After(ring, j);
      } else if j == k {
      } else if j == k + 1 {
        assert After(r, j) == After(ring, k);
      } else {
        assert LinkedAt(ring, j - 1);
        assert r[j] == ring[j - 1] && After(r, j) == After(ring, j - 1);
      }
    }
  }

  /** Unlinking the item at position k > 0 makes a ring without it. */
  lemma LinkedOut(ring: seq<ListItem>, k: nat, r: seq<ListItem>)
    requires 0 < k < |ring| && r == DropAt(ring, k)
    requires forall i :: 0 <= i < |ring| && i != k && i != k - 1 ==> LinkedAt(ring, i)
    requires ring[k - 1].next == After(ring, k) && After(ring, k).previous == ring[k - 1]
    ensures forall j :: 0 <= j < |r| ==> LinkedAt(r, j)
  {
    forall j | 0 <= j < |r| ensures LinkedAt(r, j) {
      if j < k - 1 {
        assert LinkedAt(ring, j);
        assert r[j] == ring[j] && After(r, j) == After(ring, j);
      } else if j == k - 1 {
        assert r[j] == ring[j] && After(r, j) == After(ring, k);
      } else {
        assert LinkedAt(ring, j + 1);
        assert r[j] == ring[j + 1] && After(r, j) == After(ring, j + 1);
      }
    }
  }

  lemma DistinctIn(ring: seq<ListItem>, p: nat, item: ListItem)
    requires Distinct(ring) && p <= |ring| && item !in ring
    ensures Distinct(InsertAt(ring, p, item))
  {
  }

  lemma DistinctOut(ring: seq<ListItem>, p: nat)
    requires Distinct(ring) && p < |ring|
    ensures Distinct(DropAt(ring, p)) && ring[p] !in DropAt(ring, p)
  {
  }

  /** Different places are followed by different items. */
  lemma AfterDiffers(ring: seq<ListItem>, i: nat, k: nat)
    requires Distinct(ring) && i < |ring| && k < |ring| && i != k
    ensures After(ring, i) != After(ring, k) && ring[i] != ring[k]
  {
  }

  class List {
    var number: nat
    var index: ListItem
    var end: ListItem
    ghost var ring: seq<ListItem>       // the end marker, then the items in order
    ghost var pos: nat                  // where the index stands in the ring

    ghost predicate Valid()
      reads this, ring
    {
      && pos < |ring| && ring[0] == end && ring[pos] == index && number == |ring| - 1
      && end.value == MAX_DELAY
      && Distinct(ring)
      && (forall k :: 1 <= k < |ring| ==> ring[k].container == this)
      && (forall k :: 0 <= k < |ring| ==> LinkedAt(ring, k))
    }

    /** The items in list order. */
    ghost function Items(): seq<ListItem>
      reads this
      requires ring != []
    {
      ring[1..]
    }

    ghost function Values(): (v: seq<nat>)
      reads this, ring
      requires ring != []
      ensures |v| == |ring| - 1
    {
      seq(|ring| - 1, k requires 0 <= k < |ring| - 1 reads this, ring => ring[k + 1].value)
    }

    /** The items in the order in which walks will return them. */
    ghost function Upcoming(): seq<ListItem>
      reads this
      requires pos < |ring|
    {
      UpcomingOf(ring, pos)
    }

    /** The ring and the place of the index in it. */
    ghost function View(): Walk<ListItem>
      reads this
    {
      Walk(ring, pos)
    }

    /** vListInitialise. */
    constructor ()
      ensures Valid() && fresh(end) && View() == Walk([end], 0)
    {
      var marker := new ListItem(0, MAX_DELAY);
      end, index, number := marker, marker, 0;
      ring, pos := [marker], 0;
      new;
      end.next, end.previous := end, end;
    }

    /** The walk of vListInsert, from the end marker to the last item that is not above the new
        value.  The marker stops every walk but one for its own value. */
    method FindPlace(v: TickType) returns (before: ListItem, ghost k: nat)
      requires Valid()
      ensures k < |ring| && before == ring[k] && k == Place(Values(), v)
    {
      before, k := end, 0;
      if v == MAX_DELAY {
        assert LinkedAt(ring, |ring| - 1);
        before := end.previous;
        k := |ring| - 1;
      } else {
        while before.next.value <= v
          invariant k < |ring| && before == ring[k] && LinkedAt(ring, k)
          invariant forall j :: 1 <= j <= k ==> ring[j].value <= v
          decreases |ring| - k
        {
          before := before.next;
          k := k + 1;
        }
      }
      PlaceIs(Values(), v, k);
    }

    /** Once the pointers go through a new item after position k, it is part of the ring. */
    ghost method Adopt(item: ListItem, k: nat)
      requires pos < |ring| && ring[0] == end && ring[pos] == index && number == |ring| && k < |ring|
      requires end.value == MAX_DELAY && Distinct(ring) && item !in ring
      requires item.container == this && forall i :: 1 <= i < |ring| ==> ring[i].container == this
      requires forall i :: 0 <= i < |ring| && i != k ==> LinkedAt(ring, i)
      requires item.next == After(ring, k) && item.previous == ring[k]
      requires ring[k].next == item && After(ring, k).previous == item
      modifies this`ring, this`pos
      ensures Valid() && ring == InsertAt(old(ring), k + 1, item)
      ensures pos == if k < old(pos) then old(pos) + 1 else old(pos)
    {
      ghost var was := ring;
      ring := InsertAt(was, k + 1, item);
      pos := if k < pos then pos + 1 else pos;
      DistinctIn(was, k + 1, item);
      LinkedIn(was, k, item, ring);
    }

    /** The relinking of vListInsert. */
    method LinkAfter(before: ListItem, item: ListItem, ghost k: nat)
      requires Valid() && item !in ring && k < |ring| && before == ring[k]
      modifies this`number, this`ring, this`pos, item`next, item`previous, item`container, ring`next, ring`previous
      ensures Valid() && ring == InsertAt(old(ring), k + 1, item) && item.container == this
    {
      assert LinkedAt(ring, k);
      ghost var was := ring;
      item.next := before.next;
      item.next.previous := item;
      item.previous := before;
      before.next := item;
      item.container := this;
      number := number + 1;
      forall i | 0 <= i < |was| && i != k ensures LinkedAt(was, i) {
        assert old(LinkedAt(was, i));
        AfterDiffers(was, i, k);
      }
      Adopt(item, k);
    }

    /** vListInsert. */
    method Insert(item: ListItem)
      requires Valid() && item !in ring
      modifies this`number, this`ring, this`pos, item`next, item`previous, item`container, ring`next, ring`previous
      ensures Valid() && item.container == this
      ensures Items() == InsertAt(old(Items()), Place(old(Values()), item.value), item)
      ensures Values() == InsertAt(old(Values()), Place(old(Values()), item.value), item.value)
    {
      var before, k := FindPlace(item.value);
      ghost var was, values := ring, Values();
      LinkAfter(before, item, k);
      ItemsInsert(was, k, item);
      assert Values() == InsertAt(values, k, item.value);
    }

    /** vListInsertEnd: link in just before the index. */
    method InsertEnd(item: ListItem)
      requires Valid() && item !in ring
      modifies this`number, this`ring, this`pos, item`next, item`previous, item`container, ring`next, ring`previous
      ensures Valid() && item.container == this
      ensures View() == Add(old(View()), item)
      ensures Upcoming() == if old(pos) == 0 then old(Upcoming()) + [item]
                            else old(Upcoming())[..old(number) - 1] + [item] + [index]
    {
      ghost var was, k := ring, if pos == 0 then |ring| - 1 else pos - 1;
      assert LinkedAt(ring, k);
      UpcomingInsertEnd(ring, pos, item);
      item.next := index;
      item.previous := index.previous;
      index.previous.next := item;
      index.previous := item;
      item.container := this;
      number := number + 1;
      forall i | 0 <= i < |was| && i != k ensures LinkedAt(was, i) {
        assert old(LinkedAt(was, i));
        AfterDiffers(was, i, k);
      }
      Adopt(item, k);
    }

    /** Once the pointers go around the item at position k, it is no part of the ring. */
    ghost method Disown(k: nat)
      requires 1 <= k < |ring| && pos < |ring| && number == |ring| - 2
      requires ring[0] == end && end.value == MAX_DELAY && Distinct(ring)
      requires index == ring[if pos == k then k - 1 else pos]
      requires forall i :: 1 <= i < |ring| && i != k ==> ring[i].container == this
      requires forall i :: 0 <= i < |ring| && i != k && i != k - 1 ==> LinkedAt(ring, i)
      requires ring[k - 1].next == After(ring, k) && After(ring, k).previous == ring[k - 1]
      modifies this`ring, this`pos
      ensures Valid() && ring == DropAt(old(ring), k)
      ensures pos == if k <= old(pos) then old(pos) - 1 else old(pos)
    {
      ghost var was := ring;
      ring := DropAt(was, k);
      pos := if k <= pos then pos - 1 else pos;
      DistinctOut(was, k);
      LinkedOut(was, k, ring);
    }

    /** The relinking of uxListRemove: an index on the item steps back. */
    method Unlink(item: ListItem, ghost k: nat)
      requires Valid() && 1 <= k < |ring| && item == ring[k]
      modifies this, item`container, ring`next, ring`previous
      ensures Valid() && View() == Drop(old(View()), k) && end == old(end) && item.container == null
    {
      ghost var was := ring;
      assert LinkedAt(was, k - 1) && LinkedAt(was, k);
      item.next.previous := item.previous;
      item.previous.next := item.next;
      if index == item {
        index := item.previous;
      }
      item.container := null;
      number := number - 1;
      forall i | 0 <= i < |was| && i != k && i != k - 1 ensures LinkedAt(was, i) {
        assert old(LinkedAt(was, i));
        AfterDiffers(was, i, k);
        AfterDiffers(was, i, k - 1);
      }
      Disown(k);
    }

    /** listGET_OWNER_OF_NEXT_ENTRY: move the index on, past the end marker. */
    method NextEntry() returns (owner: nat)
      requires Valid() && number > 0
      modifies this`index, this`pos
      ensures Valid() && View() == Next(old(View()))
      ensures Upcoming() == Turn(old(Upcoming())) && owner == old(Upcoming()[0].owner)
      ensures index == old(Upcoming()[0])
    {
      assert LinkedAt(ring, pos) && LinkedAt(ring, 0);
      UpcomingNext(ring, pos);
      index := index.next;
      pos := if pos + 1 < |ring| then pos + 1 else 0;
      if index == end {
        index := index.next;
        pos := 1;
      }
      owner := index.owner;
    }

    /** listGET_OWNER_OF_HEAD_ENTRY. */
    method HeadOwner() returns (owner: nat)
      requires Valid() && number > 0
      ensures owner == Items()[0].owner
    {
      assert LinkedAt(ring, 0);
      owner := end.next.owner;
    }
  }

  /** uxListRemove: the item knows its list; an index on it steps back, so that the order of
      the items still to come is that of before without it (ListSpec.RemovalKeepsOrder). */
  method Remove(item: ListItem) returns (left: nat, ghost k: nat)
    requires item.container != null && item.container.Valid() && item in item.container.Items()
    modifies item`container, item.container, item.container.ring`next, item.container.ring`previous
    ensures var list := old(item.container);
      && list.Valid() && item.container == null && left == list.number && list.end == old(item.container.end)
      && 1 <= k < |old(item.container.ring)| && old(item.container.ring[k]) == item
      && list.View() == Drop(old(item.container.View()), k)
  {
    var list := item.container;
    k :| 1 <= k < |list.ring| && list.ring[k] == item;
    list.Unlink(item, k);
    left := list.number;
  }
}
