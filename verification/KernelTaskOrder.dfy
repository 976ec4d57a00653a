/**
 The order in which tasks of one priority get their turns, in terms of `KernelList.Visit`.
 */
module KernelTaskOrder {
  import opened Options
  import opened KernelList
  import opened KernelTasks

  /** The tasks of a list in the order in which the cursor reaches them. */
  function Turns(r: Ring): (ts: seq<Task>)
    requires r.cursor <= |r.items|
  {
    Visit(r.items, r.cursor)
  }

  /** The task that the cursor stands on; it has just had its turn. */
  function Under(r: Ring): (t: Option<Task>)
    requires r.cursor <= |r.items|
  {
    if r.cursor == 0 then None else Some(r.items[r.cursor - 1])
  }

  /** `ts` have joined: they come after all the others, but for the task that has just had its
      turn, which is last. */
  function Joined(turns: seq<Task>, under: bool, ts: seq<Task>): (r: seq<Task>)
  {
    if under && turns != [] then turns[..|turns| - 1] + ts + turns[|turns| - 1..] else turns + ts
  }

  lemma JoinedTwice(turns: seq<Task>, under: bool, a: seq<Task>, b: seq<Task>)
    requires under ==> turns != []
    ensures Joined(Joined(turns, under, a), under, b) == Joined(turns, under, a + b)
  {
    if under {
      var front, last := turns[..|turns| - 1], turns[|turns| - 1..];
      var once := front + a + last;
      assert once[..|once| - 1] == front + a && once[|once| - 1..] == last;
      assert front + a + b + last == front + (a + b) + last;
    } else {
      assert turns + a + b == turns + (a + b);
    }
  }

  /** An insertion leaves the cursor on its task, wherever the new one goes. */
  lemma PutKeepsCursor(r: Ring, at: nat, t: Task)
    requires r.cursor <= |r.items| && at <= |r.items|
    ensures var r' := RingPut(r, at, t);
            r'.cursor <= |r'.items| && Under(r') == Under(r) && r'.items[at] == t && RemoveAt(r'.items, at) == r.items
  {
    var items := RingPut(r, at, t).items;
    assert items[..at] == r.items[..at] && items[at + 1..] == r.items[at..];
  }

  /** An insertion before the cursor puts the task last, but for the one under the cursor. */
  lemma InsertedLast(r: Ring, t: Task)
    requires r.cursor <= |r.items|
    ensures var r' := RingInsert(r, t);
            r'.cursor <= |r'.items| && Under(r') == Under(r) && Turns(r') == Joined(Turns(r), Under(r).Some?, [t])
  {
    var p := EndPosition(r.cursor, |r.items|);
    PutKeepsCursor(r, p, t);
    InsertBeforeCursor(r.items, r.cursor, t);
    if r.cursor > 0 {
      var v := Turns(r);
      assert v[|v| - 1..] == [r.items[r.cursor - 1]];
    }
  }

  /** A removal keeps the order of the others; the cursor stays on its task, or steps back if
      that is the one removed. */
  lemma RemovedKeeps(r: Ring, p: nat)
    requires r.cursor <= |r.items| && p < |r.items|
    ensures var r' := RingRemove(r, p);
            && r'.cursor <= |r'.items|
            && (p + 1 != r.cursor ==> Under(r') == Under(r))
            && (p + 1 == r.cursor ==> Under(r') == if p == 0 then None else Some(r.items[p - 1]))
            && exists q :: 0 <= q < |r.items| && Turns(r)[q] == r.items[p] && Turns(r') == RemoveAt(Turns(r), q)
  {
    RemoveKeepsOrder(r.items, r.cursor, p);
    var q := if p < r.cursor then |r.items| - r.cursor + p else p - r.cursor;
    assert 0 <= q < |r.items| && Turns(r)[q] == r.items[p];
  }

  /** Moving a task to a list where it is not: there it comes last, the list it was in keeps
      its order, and no other list changes. */
  lemma MovedLast(lists: map<Place, Ring>, from: Place, to: Place, t: Task)
    requires from in lists && to in lists && from != to && t in lists[from].items
    requires lists[from].cursor <= |lists[from].items| && lists[to].cursor <= |lists[to].items|
    ensures var m := Moved(lists, from, to, t);
            && m.Keys == lists.Keys && (forall p :: p in lists && p != from && p != to ==> m[p] == lists[p])
            && m[from] == RingRemove(lists[from], Index(lists[from].items, t)) && lists[from].items[Index(lists[from].items, t)] == t
            && m[to].cursor <= |m[to].items| && Turns(m[to]) == Joined(Turns(lists[to]), Under(lists[to]).Some?, [t])
  {
    InsertedLast(lists[to], t);
  }

  /** Moving a task within its list: it comes last of those that are left. */
  lemma RequeuedLast(lists: map<Place, Ring>, p: Place, t: Task)
    requires p in lists && t in lists[p].items && lists[p].cursor <= |lists[p].items|
    ensures var m, left := Moved(lists, p, p, t), RingRemove(lists[p], Index(lists[p].items, t));
            && m.Keys == lists.Keys && (forall q :: q in lists && q != p ==> m[q] == lists[q])
            && left.cursor <= |left.items| && m[p].cursor <= |m[p].items|
            && Turns(m[p]) == Joined(Turns(left), Under(left).Some?, [t])
  {
    InsertedLast(RingRemove(lists[p], Index(lists[p].items, t)), t);
  }

  // ----- the tasks noted while the scheduler is suspended -----

  /** Dropping a task leaves the others, in their order. */
  lemma {:induction false} DropKeepsOrder(a: seq<Task>, b: seq<Task>, t: Task)
    ensures Drop(a + b, t) == Drop(a, t) + Drop(b, t)
    ensures Drop([t], t) == [] && forall u :: u != t ==> Drop([u], t) == [u]
    decreases |b|
  {
    DropOne(t);
    if b == [] {
      assert a + b == a;
    } else {
      var front, last := b[..|b| - 1], b[|b| - 1];
      assert (a + b)[..|a + b| - 1] == a + front;
      DropKeepsOrder(a, front, t);
    }
  }

  lemma DropOne(t: Task)
    ensures Drop([t], t) == [] && forall u :: u != t ==> Drop([u], t) == [u]
  {
    assert Drop([t][..0], t) == [];
    forall u | u != t ensures Drop([u], t) == [u] {
      assert [u][..0] == [] && Drop([u][..0], t) == [];
    }
  }

  lemma {:induction false} DropAbsent(s: seq<Task>, t: Task)
    requires t !in s
    ensures Drop(s, t) == s
    decreases |s|
  {
    if s != [] { DropAbsent(s[..|s| - 1], t); }
  }

  lemma DropFirst(s: seq<Task>)
    requires s != [] && s[0] !in s[1..]
    ensures Drop(s, s[0]) == s[1..]
  {
    var t, rest := s[0], s[1..];
    DropKeepsOrder([t], rest, t);
    DropAbsent(rest, t);
    assert [] + rest == rest && s == [t] + rest;
  }

  lemma OnceTail(s: seq<Task>)
    requires s != [] && Once(s)
    ensures s[0] !in s[1..] && Once(s[1..])
  {
  }

  /** Tasks of one priority that were noted get their turns in the order in which they were. */
  lemma {:induction false} NotedInOrder(lists: map<Place, Ring>, container: map<Task, Place>, priority: map<Task, nat>,
                                        noted: seq<Task>, p: nat)
    requires Once(noted) && Ready(p) in lists && lists[Ready(p)].cursor <= |lists[Ready(p)].items|
    requires forall t :: t in noted ==> t in container && t in priority && priority[t] == p && container[t] != Ready(p)
    ensures var r, r' := lists[Ready(p)], InOrder(lists, container, priority, noted);
            && Ready(p) in r' && r'[Ready(p)].cursor <= |r'[Ready(p)].items| && Under(r'[Ready(p)]) == Under(r)
            && Turns(r'[Ready(p)]) == Joined(Turns(r), Under(r).Some?, noted)
    decreases |noted|
  {
    var r := lists[Ready(p)];
    if noted == [] {
      assert Joined(Turns(r), Under(r).Some?, []) == Turns(r);
    } else {
      var t := noted[0];
      var next := Moved(lists, container[t], Ready(p), t);
      OnceTail(noted);
      DropFirst(noted);
      InsertedLast(r, t);
      assert next[Ready(p)] == RingInsert(r, t);
      NotedInOrder(next, container, priority, noted[1..], p);
      JoinedTwice(Turns(r), Under(r).Some?, [t], noted[1..]);
      assert [t] + noted[1..] == noted;
    }
  }

  // ----- event items -----

  /** A new priority shows in the event item, unless the item holds bits: those stay. */
  lemma RevaluedKeepsBits(v: EventValue, levels: nat, p: nat)
    requires p < levels
    ensures if v.Bits? then Revalued(v, levels, p) == v else Revalued(v, levels, p) == Order(levels - p)
  {
  }
}
