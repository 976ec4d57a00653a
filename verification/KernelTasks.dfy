/**
 Task states: every live task's state item is in exactly one of the kernel's lists, and
 the scheduler picks the next task of the highest priority that has a ready one.  The
 lists are sequences with a cursor, as `KernelList` shows the linked lists to be.
 */
module KernelTasks {
  import opened KernelList

  type Task = nat

  /** The kernel's state lists. */
  datatype Place = Ready(level: nat) | Delayed | Overflow | Suspended | Terminated

  datatype Ring = Ring(items: seq<Task>, cursor: nat)

  /** Nothing occurs twice. */
  ghost predicate Once(s: seq<Task>)
  {
    forall i, j :: 0 <= i < j < |s| ==> s[i] != s[j]
  }

  ghost predicate RingOk(r: Ring)
  {
    r.cursor <= |r.items| && Once(r.items)
  }

  /** `t` inserted at a place in the list; the cursor stays on its item. */
  function RingPut(r: Ring, at: nat, t: Task): (r': Ring)
    requires at <= |r.items|
  {
    Ring(InsertAt(r.items, at, t), if r.cursor > at then r.cursor + 1 else r.cursor)
  }

  /** `t` inserted before the cursor. */
  function RingInsert(r: Ring, t: Task): (r': Ring)
    requires r.cursor <= |r.items|
  {
    RingPut(r, EndPosition(r.cursor, |r.items|), t)
  }

  /** The item at `p` removed; a cursor on it steps back. */
  function RingRemove(r: Ring, p: nat): (r': Ring)
    requires p < |r.items|
  {
    Ring(RemoveAt(r.items, p), if p < r.cursor then r.cursor - 1 else r.cursor)
  }

  function Index(items: seq<Task>, t: Task): (i: nat)
    requires t in items
    ensures i < |items| && items[i] == t
  {
    if items[0] == t then 0 else 1 + Index(items[1..], t)
  }

  /** The lists with `t` inserted in the one at `p`, or taken out of it. */
  function Linked(lists: map<Place, Ring>, p: Place, t: Task): (r: map<Place, Ring>)
  {
    if p in lists && lists[p].cursor <= |lists[p].items| then lists[p := RingInsert(lists[p], t)] else lists
  }

  function Unlinked(lists: map<Place, Ring>, p: Place, t: Task): (r: map<Place, Ring>)
  {
    if p in lists && t in lists[p].items then lists[p := RingRemove(lists[p], Index(lists[p].items, t))] else lists
  }

  /** The lists once `t` has gone from one to the end of the visiting order of the other. */
  function Moved(lists: map<Place, Ring>, from: Place, to: Place, t: Task): (r: map<Place, Ring>)
  {
    Linked(Unlinked(lists, from, t), to, t)
  }

  lemma InsertIsOk(r: Ring, at: nat, t: Task)
    requires RingOk(r) && t !in r.items && at <= |r.items|
    ensures RingOk(RingPut(r, at, t)) && forall u :: u in RingPut(r, at, t).items <==> u == t || u in r.items
  {
    var items := RingPut(r, at, t).items;
    assert items[at] == t;
    forall u | u in r.items ensures u in items {
      var i :| 0 <= i < |r.items| && r.items[i] == u;
      assert items[if i < at then i else i + 1] == u;
    }
  }

  lemma RemoveIsOk(r: Ring, p: nat)
    requires RingOk(r) && p < |r.items|
    ensures RingOk(RingRemove(r, p)) && forall u :: u in RingRemove(r, p).items <==> u != r.items[p] && u in r.items
  {
    var items := RingRemove(r, p).items;
    forall u | u in r.items && u != r.items[p] ensures u in items {
      var i :| 0 <= i < |r.items| && r.items[i] == u;
      assert items[if i < p then i else i - 1] == u;
    }
  }

  predicate At(lists: map<Place, Ring>, p: Place, t: Task)
  {
    p in lists && t in lists[p].items
  }

  /** Containers are exact: a task is in the list that its state item says, once, and in
      no other. */
  ghost predicate Filed(lists: map<Place, Ring>, container: map<Task, Place>)
  {
    && (forall p :: p in lists ==> RingOk(lists[p]))
    && (forall t {:trigger At(lists, container[t], t)} :: t in container ==> At(lists, container[t], t))
    && (forall p, t {:trigger At(lists, p, t)} :: At(lists, p, t) ==> t in container && container[t] == p)
  }

  lemma InsertFiles(lists: map<Place, Ring>, container: map<Task, Place>, t: Task, p: Place, at: nat)
    requires Filed(lists, container) && t !in container && p in lists && at <= |lists[p].items|
    ensures Filed(lists[p := RingPut(lists[p], at, t)], container[t := p])
  {
    assert !At(lists, p, t);
    InsertIsOk(lists[p], at, t);
    var lists', container' := lists[p := RingPut(lists[p], at, t)], container[t := p];
    forall u | u in container' ensures At(lists', container'[u], u) {
      assert u in container ==> At(lists, container[u], u);
    }
    forall q, u | At(lists', q, u) ensures u in container' && container'[u] == q {
      assert q != p || u != t ==> At(lists, q, u);
    }
  }

  lemma RemoveFiles(lists: map<Place, Ring>, container: map<Task, Place>, p: Place, i: nat)
    requires Filed(lists, container) && p in lists && i < |lists[p].items|
    ensures Filed(lists[p := RingRemove(lists[p], i)], container - {lists[p].items[i]})
  {
    RemoveIsOk(lists[p], i);
    var x := lists[p].items[i];
    var lists', container' := lists[p := RingRemove(lists[p], i)], container - {x};
    assert At(lists, p, x);
    forall u | u in container' ensures At(lists', container'[u], u) {
      assert At(lists, container[u], u);
    }
    forall q, u | At(lists', q, u) ensures u in container' && container'[u] == q {
      assert At(lists, q, u);
    }
  }

  /** All the lists, empty. */
  function NoTasks(levels: nat): (m: map<Place, Ring>)
    ensures forall p :: p in m <==> (p.Ready? ==> p.level < levels)
    ensures forall p :: p in m ==> m[p] == Ring([], 0)
  {
    if levels == 0 then
      map[Delayed := Ring([], 0), Overflow := Ring([], 0), Suspended := Ring([], 0), Terminated := Ring([], 0)]
    else NoTasks(levels - 1)[Ready(levels - 1) := Ring([], 0)]
  }

  /** Every live task is in a list, the idle task is ready, and tasks noted as readied are
      not yet in a ready list. */
  ghost predicate Alive(idle: Task, container: map<Task, Place>, priority: map<Task, nat>, pending: seq<Task>)
  {
    && container.Keys == priority.Keys
    && idle in container && container[idle].Ready?
    && (forall t :: t in pending ==> t in container && !container[t].Ready?)
  }

  lemma MovedAlive(idle: Task, container: map<Task, Place>, priority: map<Task, nat>, pending: seq<Task>, t: Task, p: Place)
    requires Alive(idle, container, priority, pending) && t in container
    requires (t == idle ==> p.Ready?) && (p.Ready? ==> t !in pending)
    ensures Alive(idle, container[t := p], priority, pending)
  {
  }

  /** What the item of a task shows that goes into event lists: its place in a list ordered
      by priority, or, while it waits for an event group, the bits. */
  datatype EventValue = Order(value: nat) | Bits(value: nat)

  /** A new priority shows in the item, unless the item is in use for bits. */
  function Revalued(v: EventValue, levels: nat, p: nat): (r: EventValue)
    requires p < levels
  {
    if v.Bits? then v else Order(levels - p)
  }

  /** The item shows bits, or the priority in use or the task's own. */
  predicate Shows(v: EventValue, levels: nat, own: nat, used: nat)
  {
    v.Order? ==> v.value == levels - used || v.value == levels - own
  }

  /** Every task has a priority of its own and an item for event lists. */
  ghost predicate Booked(items: map<Task, EventValue>, base: map<Task, nat>, priority: map<Task, nat>, levels: nat)
  {
    && items.Keys == priority.Keys == base.Keys
    && forall t :: t in items ==> base[t] < levels && Shows(items[t], levels, base[t], priority[t])
  }

  lemma Book(items: map<Task, EventValue>, base: map<Task, nat>, priority: map<Task, nat>, levels: nat,
             t: Task, v: EventValue, own: nat, used: nat)
    requires Booked(items, base, priority, levels) && own < levels && Shows(v, levels, own, used)
    ensures Booked(items[t := v], base[t := own], priority[t := used], levels)
    ensures t in base && own == base[t] ==> base[t := own] == base
    ensures t in priority && used == priority[t] ==> priority[t := used] == priority
  {
  }

  lemma Unbook(items: map<Task, EventValue>, base: map<Task, nat>, priority: map<Task, nat>, levels: nat, t: Task)
    requires Booked(items, base, priority, levels)
    ensures Booked(items - {t}, base - {t}, priority - {t}, levels)
  {
  }

  /** What becomes of the lists when `t` gets the priority `q` to use: if it is ready it goes
      to the end of that level, even if that is the level it was on. */
  ghost predicate Requeued(lists: map<Place, Ring>, container: map<Task, Place>,
                           lists': map<Place, Ring>, container': map<Task, Place>, t: Task, q: nat)
    requires t in container
  {
    if container[t].Ready? then container' == container[t := Ready(q)] && lists' == Moved(lists, container[t], Ready(q), t)
    else container' == container && lists' == lists
  }

  /** A priority out of range counts as the highest one. */
  function Capped(p: nat, levels: nat): (r: nat)
    requires 0 < levels
    ensures r < levels && (p < levels ==> r == p) && (p >= levels ==> r == levels - 1)
  {
    if p >= levels then levels - 1 else p
  }

  class Scheduler {
    const levels: nat
    ghost const idle: Task
    var lists: map<Place, Ring>
    var container: map<Task, Place>
    var priority: map<Task, nat>  // in use, possibly inherited
    var base: map<Task, nat>  // the task's own
    var items: map<Task, EventValue>  // for event lists
    var pending: seq<Task>  // readied while the scheduler was suspended
    var top: nat
    var current: Task
    var depth: nat  // of scheduler suspension

    /** Everything about the lists, for the tasks that are in them. */
    ghost predicate Listed()
      reads this`lists, this`container, this`priority, this`top
    {
      && Filed(lists, container)
      && (forall p :: p in lists <==> (p.Ready? ==> p.level < levels))
      && container.Keys <= priority.Keys && (forall t :: t in priority ==> priority[t] < levels)
      && (forall t :: t in container && container[t].Ready? ==> container[t].level == priority[t] <= top)
      && top < levels
    }

    ghost predicate Sane()
      reads this`lists, this`container, this`priority, this`top, this`pending
    {
      Listed() && Alive(idle, container, priority, pending)
    }

    ghost predicate Valid()
      reads this
    {
      Sane() && Booked(items, base, priority, levels)
    }

    constructor (idle: Task, levels: nat)
      requires 0 < levels
      ensures Valid() && this.idle == idle && container == map[idle := Ready(0)] && current == idle && pending == []
      ensures this.levels == levels && priority == base == map[idle := 0] && depth == 0
    {
      this.levels, this.idle := levels, idle;
      lists := NoTasks(levels)[Ready(0) := Ring([idle], 0)];
      container, priority, base := map[idle := Ready(0)], map[idle := 0], map[idle := 0];
      items := map[idle := Order(levels)];
      pending, top, current, depth := [], 0, idle, 0;
    }

    /** Takes the state item of `t` out of its list. */
    method Unlink(t: Task)
      requires Listed() && t in container
      modifies this`lists, this`container
      ensures Listed() && container == old(container) - {t} && lists.Keys == old(lists).Keys
      ensures lists == Unlinked(old(lists), old(container)[t], t)
    {
      var p := container[t];
      assert At(lists, container[t], t);
      var i := Index(lists[p].items, t);
      RemoveFiles(lists, container, p, i);
      lists := lists[p := RingRemove(lists[p], i)];
      container := container - {t};
    }

    method LinkAt(t: Task, p: Place, at: nat)
      requires Listed() && t !in container && t in priority && p in lists && (p.Ready? ==> p.level == priority[t] <= top)
      requires at <= |lists[p].items|
      modifies this`lists, this`container
      ensures Listed() && container == old(container)[t := p] && lists.Keys == old(lists).Keys
      ensures lists == old(lists)[p := RingPut(old(lists)[p], at, t)]
    {
      InsertFiles(lists, container, t, p, at);
      lists := lists[p := RingPut(lists[p], at, t)];
      container := container[t := p];
    }

    /** Inserts the state item of `t` before the cursor of a list. */
    method LinkEnd(t: Task, p: Place)
      requires Listed() && t !in container && t in priority && p in lists && (p.Ready? ==> p.level == priority[t] <= top)
      modifies this`lists, this`container
      ensures Listed() && container == old(container)[t := p] && lists.Keys == old(lists).Keys
      ensures lists == Linked(old(lists), p, t)
    {
      assert RingOk(lists[p]);
      LinkAt(t, p, EndPosition(lists[p].cursor, |lists[p].items|));
    }

    /** Adds a task to the ready list of its priority. */
    method AddToReadyList(t: Task)
      requires Listed() && t !in container && t in priority
      modifies this`lists, this`container, this`top
      ensures Listed() && container == old(container)[t := Ready(priority[t])]
      ensures lists == Linked(old(lists), Ready(priority[t]), t)
    {
      Record(priority[t]);
      LinkEnd(t, Ready(priority[t]));
    }

    /** Moves the state item of `t` to another list. */
    method Move(t: Task, p: Place)
      requires Listed() && t in container && p in lists && (p.Ready? ==> p.level == priority[t] <= top)
      modifies this`lists, this`container
      ensures Listed() && container == old(container)[t := p] && container.Keys == old(container).Keys
      ensures lists.Keys == old(lists).Keys && lists == Moved(old(lists), old(container)[t], p, t)
    {
      TakeAndPut(container, t, p);
      Unlink(t);
      LinkEnd(t, p);
    }

    /** Raises the bound on ready priorities. */
    method Record(p: nat)
      requires Listed() && p < levels
      modifies this`top
      ensures Listed() && p <= top && old(top) <= top
    {
      if p > top { top := p; }
    }

    // ----- what changes a task's state -----

    method Create(t: Task, p: nat)
      requires Valid() && t !in container
      modifies this`lists, this`container, this`priority, this`base, this`items, this`top
      ensures Valid() && Created(old(lists), old(container), old(priority), old(base), old(items), t, Capped(p, levels))
    {
      CreateWith(t, Capped(p, levels));
    }

    /** The new task is ready at priority `p`. */
    ghost predicate Created(lists0: map<Place, Ring>, container0: map<Task, Place>, priority0: map<Task, nat>,
                            base0: map<Task, nat>, items0: map<Task, EventValue>, t: Task, p: nat)
      requires p < levels
      reads this`lists, this`container, this`priority, this`base, this`items
    {
      && container == container0[t := Ready(p)] && lists == Linked(lists0, Ready(p), t)
      && priority == priority0[t := p] && base == base0[t := p] && items == items0[t := Order(levels - p)]
    }

    method CreateWith(t: Task, p: nat)
      requires Valid() && t !in container && p < levels
      modifies this`lists, this`container, this`priority, this`base, this`items, this`top
      ensures Valid() && Created(old(lists), old(container), old(priority), old(base), old(items), t, p)
    {
      Book(items, base, priority, levels, t, Order(levels - p), p, p);
      Enter(t, p);
      Note(t, p, Order(levels - p));
    }

    /** Notes a task's own priority and its event value. */
    method Note(t: Task, own: nat, v: EventValue)
      requires Sane() && Booked(items[t := v], base[t := own], priority, levels)
      modifies this`base, this`items
      ensures Valid() && base == old(base)[t := own] && items == old(items)[t := v]
    {
      base, items := base[t := own], items[t := v];
    }

    method Enter(t: Task, p: nat)
      requires Sane() && t !in container && p < levels
      modifies this`lists, this`container, this`priority, this`top
      ensures Sane() && container == old(container)[t := Ready(p)] && priority == old(priority)[t := p]
      ensures lists == Linked(old(lists), Ready(p), t)
    {
      Register(t, p);
      AddToReadyList(t);
    }

    method Register(t: Task, p: nat)
      requires Listed() && t !in container && p < levels
      modifies this`priority
      ensures Listed() && priority == old(priority)[t := p]
    {
      priority := priority[t := p];
    }

    /** The running task goes to sleep: `at` is where its wake time puts it in a delayed list. */
    method Sleep(p: Place, at: nat)
      requires Valid() && current in container && current != idle && current !in pending
      requires (p == Delayed || p == Overflow) && container[current] != p && p in lists && at <= |lists[p].items|
      modifies this`lists, this`container
      ensures Valid() && container == old(container)[current := p]
      ensures var l := Unlinked(old(lists), old(container)[current], current);
              p in l && at <= |l[p].items| && lists == l[p := RingPut(l[p], at, current)]
    {
      MovedAlive(idle, container, priority, pending, current, p);
      TakeAndPut(container, current, p);
      Unlink(current);
      LinkAt(current, p, at);
    }

    /** The running task blocks for good. */
    method Park()
      requires Valid() && current in container && current != idle && current !in pending
      modifies this`lists, this`container
      ensures Valid() && container == old(container)[current := Suspended]
      ensures lists == Moved(old(lists), old(container)[current], Suspended, current)
    {
      MovedAlive(idle, container, priority, pending, current, Suspended);
      Move(current, Suspended);
    }

    /** A timeout or an event readies a blocked task. */
    method Wake(t: Task)
      requires Valid() && t in container && t !in pending
      modifies this`lists, this`container, this`top
      ensures Valid() && container == old(container)[t := Ready(priority[t])]
      ensures lists == Moved(old(lists), old(container)[t], Ready(priority[t]), t)
    {
      MovedAlive(idle, container, priority, pending, t, Ready(priority[t]));
      Record(priority[t]);
      Move(t, Ready(priority[t]));
    }

    /** An event arrives for `t`: it is readied, or noted if the scheduler is suspended. */
    method RemoveFromEventList(t: Task)
      requires Valid() && t in container && !container[t].Ready? && t !in pending
      modifies this`lists, this`container, this`top, this`pending
      ensures Valid()
      ensures if depth > 0 then container == old(container) && pending == old(pending) + [t]
              else container == old(container)[t := Ready(priority[t])] && pending == old(pending)
      ensures lists == if depth > 0 then old(lists) else Moved(old(lists), old(container)[t], Ready(priority[t]), t)
    {
      if depth == 0 { Wake(t); } else { pending := pending + [t]; }
    }

    /** Suspending a task also takes it off the pending list. */
    method Suspend(t: Task)
      requires Valid() && t in container && t != idle
      modifies this`lists, this`container, this`pending
      ensures Valid() && container == old(container)[t := Suspended] && pending == Drop(old(pending), t)
      ensures lists == Moved(old(lists), old(container)[t], Suspended, t)
    {
      pending := Drop(pending, t);
      MovedAlive(idle, container, priority, pending, t, Suspended);
      Move(t, Suspended);
    }

    /** Resuming has an effect only on a task that is suspended and not just blocked. */
    method Resume(t: Task, waiting: bool)
      requires Valid() && t in container && t != current
      modifies this`lists, this`container, this`top
      ensures Valid()
      ensures container == if old(container)[t] == Suspended && t !in pending && !waiting
                           then old(container)[t := Ready(priority[t])] else old(container)
      ensures lists == if container == old(container) then old(lists) else Moved(old(lists), Suspended, Ready(priority[t]), t)
    {
      if container[t] == Suspended && t !in pending && !waiting { Wake(t); }
    }

    /** Gives a task the priority `p` to use. */
    method Requeue(t: Task, p: nat)
      requires Sane() && t in container && p < levels
      modifies this`lists, this`container, this`priority, this`top
      ensures Sane() && priority.Keys == old(priority).Keys && priority == old(priority)[t := p]
      ensures Requeued(old(lists), old(container), lists, container, t, p)
    {
      ghost var priority' := priority[t := p];
      assert priority'.Keys == priority.Keys;
      if container[t].Ready? {
        MovedAlive(idle, container, priority, pending, t, Ready(p));
        TakeAndPut(container, t, Ready(p));
        Unlink(t);
        Register(t, p);
        AddToReadyList(t);
      } else {
        Revalue(t, p);
      }
    }

    /** Gives a task its own priority, the one to use, and its event value. */
    method Reprioritize(t: Task, own: nat, used: nat, v: EventValue)
      requires Valid() && t in container && own < levels && used < levels && Shows(v, levels, own, used)
      modifies this`lists, this`container, this`priority, this`base, this`items, this`top
      ensures Valid() && priority == old(priority)[t := used] && base == old(base)[t := own] && items == old(items)[t := v]
      ensures Requeued(old(lists), old(container), lists, container, t, used)
    {
      Book(items, base, priority, levels, t, v, own, used);
      Requeue(t, used);
      Note(t, own, v);
    }

    /** Sets a task's own priority.  A task that uses an inherited one keeps it, but is
        queued again; nothing happens if its own priority is the same already. */
    method SetPriority(t: Task, p: nat) returns (yielding: bool)
      requires Valid() && t in container && current in container
      modifies this`lists, this`container, this`priority, this`base, this`items, this`top
      ensures Valid() && t in old(base) && t in old(priority) && t in old(items) && current in old(priority)
      ensures var own := Capped(p, levels);
              if old(base)[t] == own then
                base == old(base) && priority == old(priority) && items == old(items) && container == old(container) && lists == old(lists)
              else
                var used := if old(base)[t] == old(priority)[t] then own else old(priority)[t];
                && base == old(base)[t := own] && priority == old(priority)[t := used]
                && items == old(items)[t := Revalued(old(items)[t], levels, own)]
                && Requeued(old(lists), old(container), lists, container, t, used)
      ensures old(items)[t].Bits? ==> items[t] == old(items)[t]
      ensures yielding <==> if t == current then Capped(p, levels) < old(base)[t]
                            else Capped(p, levels) > old(base)[t] && Capped(p, levels) >= old(priority)[current]
    {
      var own, b := Capped(p, levels), base[t];
      yielding := false;
      if b != own {
        if own > b {
          if t != current { yielding := own >= priority[current]; }
        } else {
          yielding := t == current;
        }
        Reprioritize(t, own, if b == priority[t] then own else priority[t], Revalued(items[t], levels, own));
      }
    }

    /** The holder of a mutex inherits the priority of the running task, if that is higher. */
    method Inherit(h: Task)
      requires Valid() && h in container && current in container
      modifies this`lists, this`container, this`priority, this`base, this`items, this`top
      ensures Valid() && base == old(base)
      ensures var p := old(priority)[current];
              if p <= old(priority)[h] then priority == old(priority) && container == old(container) && lists == old(lists) && items == old(items)
              else
                && priority == old(priority)[h := p] && items == old(items)[h := Revalued(old(items)[h], levels, p)]
                && Requeued(old(lists), old(container), lists, container, h, p)
    {
      if priority[h] < priority[current] {
        Reprioritize(h, base[h], priority[current], Revalued(items[h], levels, priority[current]));
      }
    }

    /** The running task has given back a mutex, and holds `left` more: its own priority
        returns with the last one. */
    method Disinherit(left: nat) returns (yielding: bool)
      requires Valid() && current in container && container[current].Ready?
      modifies this`lists, this`container, this`priority, this`base, this`items, this`top
      ensures Valid() && base == old(base) && (yielding <==> left == 0 && old(priority)[current] != base[current])
      ensures if !yielding then priority == old(priority) && container == old(container) && lists == old(lists) && items == old(items)
              else
                && priority == old(priority)[current := base[current]]
                && items == old(items)[current := Order(levels - base[current])]
                && Requeued(old(lists), old(container), lists, container, current, base[current])
    {
      yielding := priority[current] != base[current] && left == 0;
      if yielding { Reprioritize(current, base[current], base[current], Order(levels - base[current])); }
    }

    /** The task waits for bits of an event group, or has got them. */
    method StoreBits(t: Task, bits: nat)
      requires Valid() && t in container
      modifies this`items
      ensures Valid() && items == old(items)[t := Bits(bits)]
    {
      items := items[t := Bits(bits)];
    }

    /** The running task reads the bits, and its item is for ordered lists again. */
    method ResetEventValue() returns (v: EventValue)
      requires Valid() && current in container
      modifies this`items
      ensures Valid() && v == old(items)[current] && items == old(items)[current := Order(levels - priority[current])]
    {
      v := items[current];
      items := items[current := Order(levels - priority[current])];
    }

    method Revalue(t: Task, p: nat)
      requires Listed() && t in container && !container[t].Ready? && p < levels
      modifies this`priority
      ensures Listed() && priority == old(priority)[t := p]
    {
      priority := priority[t := p];
    }

    /** A task that deletes itself waits for the idle task to free it. */
    method Delete(t: Task)
      requires Valid() && t in container && t != idle
      modifies this`lists, this`container, this`priority, this`base, this`items, this`pending
      ensures Valid() && pending == Drop(old(pending), t)
      ensures container == if t == current then old(container)[t := Terminated] else old(container) - {t}
      ensures t == current ==> lists == Moved(old(lists), old(container)[t], Terminated, t)
      ensures t != current ==> lists == Unlinked(old(lists), old(container)[t], t)
      ensures t == current ==> priority == old(priority) && base == old(base) && items == old(items)
      ensures t != current ==> priority == old(priority) - {t} && base == old(base) - {t} && items == old(items) - {t}
    {
      NotePending(t);
      if t == current {
        Terminate(t);
      } else {
        Leave(t);
      }
    }

    method NotePending(t: Task)
      requires Valid()
      modifies this`pending
      ensures Valid() && pending == Drop(old(pending), t)
    {
      pending := Drop(pending, t);
    }

    method Terminate(t: Task)
      requires Valid() && t in container && t != idle
      modifies this`lists, this`container
      ensures Valid() && container == old(container)[t := Terminated] && lists == Moved(old(lists), old(container)[t], Terminated, t)
    {
      MovedAlive(idle, container, priority, pending, t, Terminated);
      Move(t, Terminated);
    }

    method Leave(t: Task)
      requires Valid() && t in container && t != idle && t !in pending
      modifies this`lists, this`container, this`priority, this`base, this`items
      ensures Valid() && container == old(container) - {t}
      ensures priority == old(priority) - {t} && base == old(base) - {t} && items == old(items) - {t}
      ensures lists == Unlinked(old(lists), old(container)[t], t)
    {
      Unbook(items, base, priority, levels, t);
      Exit(t);
      base, items := base - {t}, items - {t};
    }

    method Exit(t: Task)
      requires Sane() && t in container && t != idle && t !in pending
      modifies this`lists, this`container, this`priority
      ensures Sane() && container == old(container) - {t} && priority == old(priority) - {t}
      ensures lists == Unlinked(old(lists), old(container)[t], t)
    {
      Unlink(t);
      Forget(t);
    }

    method Forget(t: Task)
      requires Listed() && t !in container
      modifies this`priority
      ensures Listed() && priority == old(priority) - {t}
    {
      priority := priority - {t};
    }

    /** When the scheduler runs again, the tasks noted in the meantime are readied. */
    method ResumeAll()
      requires Valid() && depth > 0
      modifies this`lists, this`container, this`top, this`pending, this`depth
      ensures Valid() && depth == old(depth) - 1
      ensures depth > 0 ==> container == old(container) && pending == old(pending) && lists == old(lists)
      ensures depth == 0 ==> pending == [] && container == Readied(old(container), priority, old(pending), [])
                             && lists == InOrder(old(lists), old(container), priority, old(pending))
    {
      depth := depth - 1;
      if depth == 0 { ReadyAll(); }
    }

    method ReadyAll()
      requires Valid()
      modifies this`lists, this`container, this`top, this`pending
      ensures Valid() && pending == [] && container == Readied(old(container), priority, old(pending), [])
      ensures lists == InOrder(old(lists), old(container), priority, old(pending))
    {
      ghost var container0, lists0, noted := container, lists, pending;
      assert container == Readied(container, priority, pending, pending);
      while pending != []
        invariant Valid() && InProgress(container0, lists0, noted)
        decreases |pending|
      {
        ReadyNext(container0, lists0, noted);
      }
      assert pending == [] && InOrder(lists, container0, priority, []) == lists;
    }

    /** Of the tasks noted, those that are no longer pending have been readied, in order. */
    ghost predicate InProgress(container0: map<Task, Place>, lists0: map<Place, Ring>, noted: seq<Task>)
      reads this`container, this`priority, this`pending, this`lists
    {
      && container0.Keys <= priority.Keys && container == Readied(container0, priority, noted, pending)
      && (forall t :: t in pending ==> t in noted && t in container0)
      && InOrder(lists, container0, priority, pending) == InOrder(lists0, container0, priority, noted)
    }

    method ReadyNext(ghost container0: map<Task, Place>, ghost lists0: map<Place, Ring>, ghost noted: seq<Task>)
      requires Valid() && pending != [] && InProgress(container0, lists0, noted)
      modifies this`lists, this`container, this`top, this`pending
      ensures Valid() && |pending| < |old(pending)| && InProgress(container0, lists0, noted)
    {
      ghost var was, lists1 := pending, lists;
      var t := ReadyFirst();
      ReadyOne(container0, priority, noted, was, t);
      NextInOrder(lists1, container0, priority, was);
    }

    /** Readies the first of the tasks noted. */
    method ReadyFirst() returns (t: Task)
      requires Valid() && pending != []
      modifies this`lists, this`container, this`top, this`pending
      ensures Valid() && t == old(pending)[0] && pending == Drop(old(pending), t)
      ensures t in old(container) && container == old(container)[t := Ready(priority[t])]
      ensures lists == Moved(old(lists), old(container)[t], Ready(priority[t]), t)
    {
      t := pending[0];
      pending := Drop(pending, t);
      Wake(t);
    }

    // ----- selection -----

    /** The highest priority that has a ready task. */
    method FindHighest() returns (p: nat)
      requires Valid()
      ensures p <= top && lists[Ready(p)].items != []
      ensures forall t :: t in container && container[t].Ready? ==> priority[t] <= p
    {
      p := top;
      while lists[Ready(p)].items == []
        invariant 0 <= p <= top
        invariant forall t :: t in container && container[t].Ready? ==> priority[t] <= p
        decreases p
      {
        forall t | t in container && container[t].Ready? ensures priority[t] < p {
          assert At(lists, container[t], t);
        }
        p := p - 1;
      }
    }

    /** Picks the next task of the highest priority that has a ready one. */
    method SwitchContext()
      requires Valid() && depth == 0
      modifies this`lists, this`top, this`current
      ensures Valid() && current in container && container[current] == Ready(priority[current]) && top == priority[current]
      ensures forall t :: t in container && container[t].Ready? ==> priority[t] <= priority[current]
      ensures var p := Ready(top); var r := old(lists)[p];
              && r.items != [] && current == Visit(r.items, r.cursor)[0]
              && lists == old(lists)[p := r.(cursor := Advance(r.cursor, |r.items|))]
    {
      var p := FindHighest();
      var r := lists[Ready(p)];
      var c := Advance(r.cursor, |r.items|);
      AdvanceRotates(r.items, r.cursor);
      AdvanceFiles(lists, container, Ready(p), c);
      current := r.items[c - 1];
      assert At(lists, Ready(p), current);
      lists := lists[Ready(p) := r.(cursor := c)];
      top := p;
    }
  }

  /** Six levels, and a task with priority 1. */
  method OneTask() returns (s: Scheduler)
    ensures fresh(s) && s.Valid() && s.levels == 6 && s.depth == 0 && s.container.Keys == {0, 1}
    ensures s.priority == s.base == map[0 := 0, 1 := 1] && s.items[1].Order?
  {
    s := new Scheduler(0, 6);
    s.Create(1, 1);
  }

  /** A task with priority 3 joins it. */
  method TwoTasks(s: Scheduler)
    requires s.Valid() && s.levels == 6 && s.depth == 0 && s.container.Keys == {0, 1}
    requires s.priority == s.base == map[0 := 0, 1 := 1] && s.items[1].Order?
    modifies s
    ensures s.Valid() && s.depth == 0 && s.container.Keys == {0, 1, 2} && s.container[2].Ready?
    ensures s.priority == map[0 := 0, 1 := 1, 2 := 3] && s.base[1] == 1 && s.items[1].Order?
  {
    s.Create(2, 3);
  }

  /** And it is the one that runs. */
  method RunTheSecond(s: Scheduler)
    requires s.Valid() && s.depth == 0 && 2 in s.container && s.container[2].Ready?
    requires s.priority == map[0 := 0, 1 := 1, 2 := 3]
    modifies s`lists, s`top, s`current
    ensures s.Valid() && s.current == 2
  {
    s.SwitchContext();
    assert s.priority[2] <= s.priority[s.current];
  }

  /** The first one inherits 3 and has its own priority set to 5: it goes on at 3, below its
      own priority, while its event item shows 5. */
  method UsesLessThanItsOwn() returns (s: Scheduler)
    ensures s.Valid() && 1 in s.container && s.base[1] == 5 && s.priority[1] == 3 && s.items[1] == Order(1)
  {
    s := OneTask();
    TwoTasks(s);
    RunTheSecond(s);
    InheritAndSet(s);
  }

  method InheritAndSet(s: Scheduler)
    requires s.Valid() && s.levels == 6 && s.current == 2 && 1 in s.container && 2 in s.container
    requires s.base[1] == s.priority[1] == 1 && s.priority[2] == 3 && s.items[1].Order?
    modifies s
    ensures s.Valid() && 1 in s.container && s.base[1] == 5 && s.priority[1] == 3 && s.items[1] == Order(1)
  {
    s.Inherit(1);
    var yielding := s.SetPriority(1, 5);
  }

  lemma AdvanceFiles(lists: map<Place, Ring>, container: map<Task, Place>, p: Place, c: nat)
    requires Filed(lists, container) && p in lists && c <= |lists[p].items|
    ensures Filed(lists[p := lists[p].(cursor := c)], container)
  {
    var lists' := lists[p := lists[p].(cursor := c)];
    forall q, u ensures At(lists', q, u) <==> At(lists, q, u) { }
    forall u | u in container ensures At(lists', container[u], u) { assert At(lists, container[u], u); }
  }

  /** Where everyone is once those of `noted` that are not in `left` have been readied. */
  ghost function Readied(container: map<Task, Place>, priority: map<Task, nat>, noted: seq<Task>, left: seq<Task>): (r: map<Task, Place>)
    requires container.Keys <= priority.Keys
  {
    map t | t in container :: if t in noted && t !in left then Ready(priority[t]) else container[t]
  }

  /** The lists once the noted tasks have been readied one after the other. */
  function InOrder(lists: map<Place, Ring>, container: map<Task, Place>, priority: map<Task, nat>, noted: seq<Task>): (r: map<Place, Ring>)
    decreases |noted|
  {
    if noted == [] then lists
    else
      var t := noted[0];
      var next := if t in container && t in priority then Moved(lists, container[t], Ready(priority[t]), t) else lists;
      InOrder(next, container, priority, Drop(noted, t))
  }

  lemma NextInOrder(lists: map<Place, Ring>, container: map<Task, Place>, priority: map<Task, nat>, noted: seq<Task>)
    requires noted != [] && noted[0] in container && noted[0] in priority
    ensures var next := Moved(lists, container[noted[0]], Ready(priority[noted[0]]), noted[0]);
            InOrder(lists, container, priority, noted) == InOrder(next, container, priority, Drop(noted, noted[0]))
  {
  }

  lemma ReadyOne(container: map<Task, Place>, priority: map<Task, nat>, noted: seq<Task>, left: seq<Task>, t: Task)
    requires container.Keys <= priority.Keys && t in left && t in noted && t in container
    ensures Readied(container, priority, noted, Drop(left, t)) == Readied(container, priority, noted, left)[t := Ready(priority[t])]
  {
  }

  lemma TakeAndPut(m: map<Task, Place>, t: Task, p: Place)
    requires t in m
    ensures (m - {t})[t := p] == m[t := p] && m[t := p].Keys == m.Keys
  {
  }

  /** All occurrences of `t` removed. */
  function Drop(s: seq<Task>, t: Task): (r: seq<Task>)
    ensures t !in r && |r| <= |s| && (t in s ==> |r| < |s|)
    ensures forall u :: u in r <==> u in s && u != t
  {
    if s == [] then []
    else if s[|s| - 1] == t then Drop(s[..|s| - 1], t) else Drop(s[..|s| - 1], t) + [s[|s| - 1]]
  }
}
