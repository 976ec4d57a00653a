/**
 The kernel's circular doubly linked lists, as objects on the heap: a marker item ends
 the list, every item knows its container, and a cursor walks the items in turn.
 Each list stands for the sequence of its items together with a cursor position.
 */
module KernelList {

  const MAX_DELAY: nat := 0xffff_ffff

  class Item {
    var value: nat
    var next: Item?
    var previous: Item?
    var container: List?
    ghost var marks: List?  // the list whose end marker this is, if any

    constructor (value: nat)
      ensures this.value == value && container == null && marks == null
    {
      this.value, next, previous, container, marks := value, null, null, null, null;
    }
  }

  // ----- sequences with a cursor -----

  /** The items in the order in which the cursor will reach them: it stands on the end
      marker (0) or on `items[cursor - 1]`, which it reaches last. */
  function Visit<T>(items: seq<T>, cursor: nat): (r: seq<T>)
    requires cursor <= |items|
    ensures |r| == |items|
  {
    items[cursor..] + items[..cursor]
  }

  function InsertAt<T>(items: seq<T>, p: nat, x: T): (r: seq<T>)
    requires p <= |items|
    ensures |r| == |items| + 1
  {
    items[..p] + [x] + items[p..]
  }

  function RemoveAt<T>(items: seq<T>, p: nat): (r: seq<T>)
    requires p < |items|
    ensures |r| == |items| - 1
  {
    items[..p] + items[p + 1..]
  }

  /** Where an item inserted before the cursor goes. */
  function EndPosition(cursor: nat, n: nat): (p: nat)
  {
    if cursor == 0 then n else cursor - 1
  }

  /** Inserting before the cursor: everything else but the item the cursor stands on is
      reached before the new one. */
  lemma InsertBeforeCursor<T>(items: seq<T>, cursor: nat, x: T)
    requires cursor <= |items|
    ensures var items' := InsertAt(items, EndPosition(cursor, |items|), x);
            var v := Visit(items, cursor);
            Visit(items', if cursor == 0 then 0 else cursor + 1) ==
            if cursor == 0 then v + [x] else v[..|v| - 1] + [x] + [items[cursor - 1]]
  {
    var items' := InsertAt(items, EndPosition(cursor, |items|), x);
    if cursor > 0 { assert items' == items[..cursor - 1] + [x] + [items[cursor - 1]] + items[cursor..]; }
  }

  /** Removing an item keeps the order in which the others are reached. */
  lemma RemoveKeepsOrder<T>(items: seq<T>, cursor: nat, p: nat)
    requires cursor <= |items| && p < |items|
    ensures var cursor' := if p < cursor then cursor - 1 else cursor;
            var q := if p < cursor then |items| - cursor + p else p - cursor;
            Visit(items, cursor)[q] == items[p] && Visit(RemoveAt(items, p), cursor') == RemoveAt(Visit(items, cursor), q)
  {
    var r := RemoveAt(items, p);
    if p < cursor {
      assert r[cursor - 1..] == items[cursor..] && r[..cursor - 1] == items[..p] + items[p + 1..cursor];
    } else {
      assert r[cursor..] == items[cursor..p] + items[p + 1..] && r[..cursor] == items[..cursor];
    }
  }

  /** The cursor after stepping on, skipping the marker. */
  function Advance(cursor: nat, n: nat): (c: nat)
    requires cursor <= n && 0 < n
    ensures 1 <= c <= n
  {
    if cursor == n then 1 else cursor + 1
  }

  lemma AdvanceRotates<T>(items: seq<T>, cursor: nat)
    requires cursor <= |items| && items != []
    ensures var v := Visit(items, cursor); var c := Advance(cursor, |items|);
            items[c - 1] == v[0] && Visit(items, c) == v[1..] + v[..1]
  {
  }

  /** The cursor after `k` steps. */
  function Steps(cursor: nat, n: nat, k: nat): (c: nat)
    requires cursor <= n && 0 < n
    ensures c <= n && (k > 0 ==> 1 <= c)
  {
    if k == 0 then cursor else Advance(Steps(cursor, n, k - 1), n)
  }

  lemma {:induction false} StepsRotate<T>(items: seq<T>, cursor: nat, k: nat)
    requires cursor <= |items| && items != [] && k <= |items|
    ensures var v := Visit(items, cursor); Visit(items, Steps(cursor, |items|, k)) == v[k..] + v[..k]
  {
    var v := Visit(items, cursor);
    if k > 0 {
      StepsRotate(items, cursor, k - 1);
      AdvanceRotates(items, Steps(cursor, |items|, k - 1));
      var w := v[k - 1..] + v[..k - 1];
      assert w[1..] + w[..1] == v[k..] + v[..k];
    }
  }

  lemma VisitsAll<T>(items: seq<T>, cursor: nat)
    requires cursor <= |items|
    ensures multiset(Visit(items, cursor)) == multiset(items)
  {
    assert items == items[..cursor] + items[cursor..];
  }

  /** Fairness: over an unchanged list of n items, the k-th of n steps lands on the k-th
      item in visiting order, so (by `VisitsAll`) n steps land on every item exactly once. */
  lemma VisitsEachOnce<T>(items: seq<T>, cursor: nat, k: nat)
    requires cursor <= |items| && k < |items|
    ensures items[Steps(cursor, |items|, k + 1) - 1] == Visit(items, cursor)[k]
  {
    var v := Visit(items, cursor);
    StepsRotate(items, cursor, k);
    AdvanceRotates(items, Steps(cursor, |items|, k));
    assert (v[k..] + v[..k])[0] == v[k];
  }

  ghost predicate Sorted(values: seq<nat>)
  {
    forall i, j :: 0 <= i < j < |values| ==> values[i] <= values[j]
  }

  function FirstAboveFrom(values: seq<nat>, v: nat, i: nat): (p: nat)
    requires i <= |values|
    ensures i <= p <= |values| && (forall k :: i <= k < p ==> values[k] <= v) && (p < |values| ==> v < values[p])
    decreases |values| - i
  {
    if i == |values| || v < values[i] then i else FirstAboveFrom(values, v, i + 1)
  }

  /** The first position whose value exceeds `v`. */
  function FirstAbove(values: seq<nat>, v: nat): (p: nat)
    ensures p <= |values| && (forall i :: 0 <= i < p ==> values[i] <= v) && (p < |values| ==> v < values[p])
  {
    FirstAboveFrom(values, v, 0)
  }

  lemma FirstAboveIs(values: seq<nat>, v: nat, p: nat)
    requires p <= |values| && (forall i :: 0 <= i < p ==> values[i] <= v) && (p < |values| ==> v < values[p])
    ensures p == FirstAbove(values, v)
  {
  }

  /** Inserting there keeps the values sorted, and puts the new one after its equals. */
  lemma SortedInsert(values: seq<nat>, v: nat)
    requires Sorted(values)
    ensures var p := FirstAbove(values, v);
            && Sorted(InsertAt(values, p, v))
            && (forall i :: p <= i < |values| ==> v < values[i])
  {
    var p := FirstAbove(values, v);
    forall i | p <= i < |values| ensures v < values[i] { assert p == i || values[p] <= values[i]; }
  }

  // ----- the heap structure -----

  /** The ring of a list, unrolled: from the marker through the items and back to it. */
  function Chain(end: Item, items: seq<Item>): (c: seq<Item>)
    ensures |c| == |items| + 2
  {
    [end] + items + [end]
  }

  ghost predicate LinkedAt(c: seq<Item>, i: nat)
    requires i + 1 < |c|
    reads c[i], c[i + 1]
  {
    c[i].next == c[i + 1] && c[i + 1].previous == c[i]
  }

  predicate Away(c: seq<Item>, i: nat, p: nat)
    requires i + 1 < |c| && p + 1 < |c|
  {
    c[i] != c[p] && c[i + 1] != c[p + 1]
  }

  class List {
    const end: Item
    var index: Item
    var count: nat
    ghost var items: seq<Item>

    ghost function Footprint(): (r: set<object>)
      reads this
    {
      {this, end} + set x | x in items
    }

    /** Items that belong to this list, with the given values. */
    ghost predicate Owned(xs: seq<Item>, values: seq<nat>)
      reads this, xs
    {
      && |values| == |xs|
      && (forall i :: 0 <= i < |xs| ==> xs[i].container == this && xs[i].marks == null && xs[i].value == values[i] <= MAX_DELAY)
      && (forall i, j :: 0 <= i < j < |xs| ==> xs[i] != xs[j])
    }

    ghost function Values(): (r: seq<nat>)
      reads this, Footprint()
      ensures |r| == |items|
    {
      seq(|items|, i requires 0 <= i < |items| reads this, Footprint() => items[i].value)
    }

    ghost predicate Valid()
      reads this, Footprint()
    {
      && count == |items|
      && end.marks == this && end.value == MAX_DELAY
      && Owned(items, Values())
      && (forall i :: 0 <= i <= |items| ==> LinkedAt(Chain(end, items), i))
      && index in Chain(end, items)
    }

    /** 0 for the marker, i + 1 for item i. */
    ghost function Cursor(): (c: nat)
      reads this, Footprint()
      requires Valid()
      ensures c <= |items| && index == Chain(end, items)[c]
    {
      if index == end then 0 else var i :| 0 <= i < |items| && items[i] == index; i + 1
    }

    constructor ()
      ensures Valid() && items == [] && index == end && fresh(Footprint())
    {
      var marker := new Item(MAX_DELAY);
      end, index, count, items := marker, marker, 0, [];
      new;
      marker.next, marker.previous, marker.marks := marker, marker, this;
    }

    /** Two lists share nothing, so a change to one leaves the other alone. */
    lemma Apart(other: List)
      requires Valid() && other.Valid() && other != this
      ensures Footprint() !! other.Footprint()
    {
      assert forall x :: x in items ==> x.container == this;
    }

    /** No link of the ring starts or ends where another does. */
    lemma LinksDiffer(p: nat)
      requires Valid() && p <= |items|
      ensures forall i :: 0 <= i <= |items| && i != p ==> Away(Chain(end, items), i, p)
    {
      assert forall x :: x in items ==> x.marks == null;
    }

    lemma CursorIs(c: nat)
      requires Valid() && c <= |items| && index == Chain(end, items)[c]
      ensures Cursor() == c
    {
      assert forall x :: x in items ==> x.marks == null;
    }

    ghost predicate Loose(item: Item)
      reads this, item
    {
      item.container == null && item.marks == null && item.value <= MAX_DELAY
    }

    lemma InsertedLinks(xs: seq<Item>, p: nat, item: Item)
      requires p <= |xs| && items == InsertAt(xs, p, item)
      requires var c := Chain(end, xs);
               && LinkedAt([c[p], item, c[p + 1]], 0) && LinkedAt([c[p], item, c[p + 1]], 1)
               && forall i :: 0 <= i <= |xs| && i != p ==> LinkedAt(c, i)
      ensures forall i :: 0 <= i <= |items| ==> LinkedAt(Chain(end, items), i)
    {
      var c, c' := Chain(end, xs), Chain(end, items);
      assert c' == c[..p + 1] + [item] + c[p + 1..];
      forall i | 0 <= i <= |items| ensures LinkedAt(c', i) {
        if i < p { assert LinkedAt(c, i); } else if i > p + 1 { assert LinkedAt(c, i - 1); }
      }
    }

    lemma InsertedOwned(xs: seq<Item>, values: seq<nat>, p: nat, item: Item)
      requires p <= |xs| && Owned(xs, values) && items == InsertAt(xs, p, item)
      requires item !in xs && item.container == this && item.marks == null && item.value <= MAX_DELAY
      ensures Values() == InsertAt(values, p, item.value) && Owned(items, Values())
    {
      assert Values() == InsertAt(values, p, item.value);
    }

    /** The ring after `item` has been linked in at position `p` of `xs`. */
    lemma Inserted(xs: seq<Item>, values: seq<nat>, cursor: nat, p: nat, item: Item)
      requires p <= |xs| && cursor <= |xs| && Owned(xs, values)
      requires item !in xs && item.container == this && item.marks == null && item.value <= MAX_DELAY
      requires end.marks == this && end.value == MAX_DELAY
      requires items == InsertAt(xs, p, item) && count == |items|
      requires var c := Chain(end, xs);
               && index == c[cursor] && LinkedAt([c[p], item, c[p + 1]], 0) && LinkedAt([c[p], item, c[p + 1]], 1)
               && forall i :: 0 <= i <= |xs| && i != p ==> LinkedAt(c, i)
      ensures Valid() && Values() == InsertAt(values, p, item.value)
      ensures Cursor() == cursor + if cursor > p then 1 else 0
    {
      InsertedLinks(xs, p, item);
      InsertedOwned(xs, values, p, item);
      var c, c' := Chain(end, xs), Chain(end, items);
      assert c' == c[..p + 1] + [item] + c[p + 1..];
      CursorIs(cursor + if cursor > p then 1 else 0);
    }

    /** The pointer writes of an insertion. */
    method Splice(before: Item, item: Item, after: Item, ghost p: nat)
      requires p <= |items| && item != before && item != after
      modifies item`next, item`previous, item`container, before`next, after`previous, this`count, this`items
      ensures item.next == after && item.previous == before && item.container == this
      ensures before.next == item && after.previous == item
      ensures before != after ==> before.previous == old(before.previous) && after.next == old(after.next)
      ensures count == old(count) + 1 && items == InsertAt(old(items), p, item)
    {
      item.next, item.previous := after, before;
      before.next := item;
      after.previous := item;
      item.container := this;
      count := count + 1;
      items := InsertAt(items, p, item);
    }

    /** Links `item` in between `before` and `after`, which are the `p`-th link. */
    method Link(before: Item, item: Item, after: Item, ghost p: nat)
      requires Valid() && Loose(item) && p <= |items|
      requires before == Chain(end, items)[p] && after == Chain(end, items)[p + 1]
      modifies Footprint(), item
      ensures Valid() && index == old(index) && item.container == this && item.value == old(item.value)
      ensures items == InsertAt(old(items), p, item) && Values() == InsertAt(old(Values()), p, item.value)
      ensures Cursor() == old(Cursor()) + if old(Cursor()) > p then 1 else 0
    {
      ghost var xs, values, cursor := items, Values(), Cursor();
      ghost var c := Chain(end, items);
      LinksDiffer(p);
      assert item !in c;
      Splice(before, item, after, p);
      forall i | 0 <= i <= |xs| && i != p ensures LinkedAt(c, i) {
        assert old(LinkedAt(c, i)) && Away(c, i, p);
      }
      Inserted(xs, values, cursor, p, item);
    }

    /** Inserts before the cursor. */
    method InsertEnd(item: Item)
      requires Valid() && Loose(item)
      modifies Footprint(), item
      ensures Valid() && index == old(index) && item.container == this && item.value == old(item.value)
      ensures var p := EndPosition(old(Cursor()), |old(items)|);
              && items == InsertAt(old(items), p, item) && Values() == InsertAt(old(Values()), p, item.value)
              && Cursor() == if old(Cursor()) == 0 then 0 else old(Cursor()) + 1
    {
      ghost var p := EndPosition(Cursor(), |items|);
      assert LinkedAt(Chain(end, items), p);
      Link(index.previous, item, index, p);
    }

    /** Finds the item after which `v` belongs. */
    method FindPlace(v: nat) returns (place: Item, ghost p: nat)
      requires Valid() && v <= MAX_DELAY
      ensures p == FirstAbove(Values(), v) && place == Chain(end, items)[p]
    {
      ghost var c := Chain(end, items);
      if v == MAX_DELAY {
        // the marker's own value: the loop below would not stop
        assert LinkedAt(c, |items|);
        FirstAboveIs(Values(), v, |items|);
        return end.previous, |items|;
      }
      place, p := end, 0;
      assert LinkedAt(c, p);
      while place.next.value <= v
        invariant 0 <= p <= |items| && place == c[p] && LinkedAt(c, p)
        invariant forall i :: 0 <= i < p ==> Values()[i] <= v
        decreases |items| - p
      {
        place := place.next;
        p := p + 1;
        assert LinkedAt(c, p);
      }
      FirstAboveIs(Values(), v, p);
    }

    /** Inserts after the last of the items whose value is not greater. */
    method Insert(item: Item)
      requires Valid() && Loose(item)
      modifies Footprint(), item
      ensures Valid() && index == old(index) && item.container == this && item.value == old(item.value)
      ensures var p := FirstAbove(old(Values()), item.value);
              && items == InsertAt(old(items), p, item) && Values() == InsertAt(old(Values()), p, item.value)
              && Cursor() == old(Cursor()) + if old(Cursor()) > p then 1 else 0
    {
      ghost var values := Values();
      var v := item.value;
      var place, p := FindPlace(v);
      assert LinkedAt(Chain(end, items), p);
      assert Values() == values && p == FirstAbove(values, v);
      Link(place, item, place.next, p);
      assert Values() == InsertAt(values, FirstAbove(values, item.value), item.value);
    }

    /** The ring after the item at position `p` of `xs` has been unlinked. */
    lemma Removed(xs: seq<Item>, values: seq<nat>, cursor: nat, p: nat)
      requires p < |xs| && cursor <= |xs| && |values| == |xs| && Owned(RemoveAt(xs, p), RemoveAt(values, p))
      requires end.marks == this && end.value == MAX_DELAY
      requires items == RemoveAt(xs, p) && count == |items|
      requires var c := Chain(end, xs);
               && index == c[if cursor == p + 1 then p else cursor] && LinkedAt([c[p], c[p + 2]], 0)
               && forall i :: 0 <= i <= |xs| && i != p && i != p + 1 ==> LinkedAt(c, i)
      ensures Valid() && Values() == RemoveAt(values, p)
      ensures Cursor() == if p < cursor then cursor - 1 else cursor
    {
      var c, c' := Chain(end, xs), Chain(end, items);
      assert c' == c[..p + 1] + c[p + 2..];
      forall i | 0 <= i <= |items| ensures LinkedAt(c', i) {
        if i < p { assert LinkedAt(c, i); } else if i > p { assert LinkedAt(c, i + 1); }
      }
      assert Values() == RemoveAt(values, p);
      assert Owned(items, Values());
      CursorIs(if p < cursor then cursor - 1 else cursor);
    }

    /** The pointer writes of a removal. */
    method Unsplice(before: Item, item: Item, after: Item, ghost p: nat)
      requires p < |items| && item != before && item != after && 0 < count
      modifies before`next, after`previous, item`container, this`count, this`items, this`index
      ensures before.next == after && after.previous == before && item.container == null
      ensures index == if old(index) == item then before else old(index)
      ensures count == old(count) - 1 && items == RemoveAt(old(items), p)
    {
      after.previous := before;
      before.next := after;
      if index == item { index := before; }
      item.container := null;
      count := count - 1;
      items := RemoveAt(items, p);
    }

    /** The two links at item `p` share nothing with the others. */
    lemma LinksBeside(p: nat)
      requires Valid() && p < |items|
      ensures var c := Chain(end, items);
              && LinkedAt(c, p) && LinkedAt(c, p + 1) && Away(c, p, p + 1)
              && forall i :: 0 <= i <= |items| && i != p && i != p + 1 ==> LinkedAt(c, i) && Away(c, i, p) && Away(c, i, p + 1)
    {
      LinksDiffer(p);
      LinksDiffer(p + 1);
    }

    /** Unlinks item `p`. */
    method Unlink(item: Item, ghost p: nat)
      requires Valid() && p < |items| && items[p] == item
      modifies Footprint()
      ensures Valid() && item.container == null
      ensures items == RemoveAt(old(items), p) && Values() == RemoveAt(old(Values()), p)
      ensures Cursor() == if p < old(Cursor()) then old(Cursor()) - 1 else old(Cursor())
    {
      ghost var xs, values, cursor := items, Values(), Cursor();
      ghost var c := Chain(end, xs);
      ghost var rest, others := RemoveAt(xs, p), RemoveAt(values, p);
      LinksBeside(p);
      CursorIs(cursor);
      assert Owned(rest, others) && item !in rest;
      Unsplice(item.previous, item, item.next, p);
      assert Owned(rest, others);
      forall i | 0 <= i <= |xs| && i != p && i != p + 1 ensures LinkedAt(c, i) {
        assert old(LinkedAt(c, i)) && Away(c, i, p) && Away(c, i, p + 1);
      }
      Removed(xs, values, cursor, p);
    }

    /** Unlinks `item` from the list it is in; if the cursor stood on it, it steps back. */
    static method Remove(item: Item, ghost p: nat) returns (left: nat)
      requires item.container != null && item.container.Valid()
      requires p < |item.container.items| && item.container.items[p] == item
      modifies item.container.Footprint()
      ensures var list := old(item.container);
              && list.Valid() && item.container == null && left == |list.items|
              && list.items == RemoveAt(old(list.items), p) && list.Values() == RemoveAt(old(list.Values()), p)
              && list.Cursor() == if p < old(list.Cursor()) then old(list.Cursor()) - 1 else old(list.Cursor())
    {
      var list := item.container;
      list.Unlink(item, p);
      left := list.count;
    }

    /** Steps the cursor on to the next item. */
    method Next() returns (item: Item)
      requires Valid() && items != []
      modifies this`index
      ensures Valid() && Cursor() == Advance(old(Cursor()), |items|) && item == items[Cursor() - 1] == index
      ensures item == Visit(items, old(Cursor()))[0]
    {
      ghost var c := Cursor();
      assert LinkedAt(Chain(end, items), c) && LinkedAt(Chain(end, items), 0);
      index := index.next;
      if index == end { index := index.next; }
      item := index;
      CursorIs(Advance(c, |items|));
    }
  }
}
