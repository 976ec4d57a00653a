/**
 Queues: a ring of equally sized items that holds a bounded sequence, the two event lists
 of the tasks that wait to send and to receive, and the lock counts that keep the lists
 still while a task decides to block.
 */
module KernelQueue {
  import opened Bytes

  type Task = nat
  type Item = seq<Byte>

  datatype Position = Back | Front | Overwrite

  /** An event list entry; the lower its value, the higher the priority. */
  datatype Waiter = Waiter(task: Task, value: nat)

  const UNLOCKED: int := -1
  const LOCKED_UNMODIFIED: int := 0

  // ----- the ring -----

  /** Slot i of the ring, counting round it at most once. */
  function Slot(i: nat, length: nat): (r: nat)
    requires 0 < length && i < 2 * length
    ensures r < length
  {
    if i >= length then i - length else i
  }

  /** The slot of message i, counting from the one after the last slot read. */
  function SlotOf(readFrom: nat, i: nat, length: nat): (r: nat)
    requires readFrom < length && i <= length
    ensures r < length
  {
    Slot(Slot(readFrom + 1, length) + if i == length then 0 else i, length)
  }

  /** The items in the ring. */
  ghost function Ring(data: seq<Item>, readFrom: nat, messages: nat): (r: seq<Item>)
    requires readFrom < |data| && messages <= |data|
  {
    seq(messages, i requires 0 <= i < messages => data[SlotOf(readFrom, i, |data|)])
  }

  lemma SlotIsModular(readFrom: nat, messages: nat, length: nat)
    requires readFrom < length && messages <= length
    ensures SlotOf(readFrom, messages, length) == (readFrom + 1 + messages) % length
  {
    var n, r := readFrom + 1 + messages, SlotOf(readFrom, messages, length);
    var q := if n < length then 0 else if n < 2 * length then 1 else 2;
    assert n == q * length + r;
    Divides(n, q, length, r);
  }

  lemma Divides(n: int, q: int, d: int, r: int)
    requires 0 <= r < d && n == q * d + r
    ensures n % d == r
  {
    var k := n / d - q;
    assert n == d * (n / d) + n % d;
    assert r - n % d == d * k;
    assert k > 0 ==> d * k >= d;
    assert k < 0 ==> d * k <= -d;
  }

  /** What a send makes of the contents. */
  function Sent(s: seq<Item>, x: Item, p: Position): (r: seq<Item>)
  {
    match p
    case Back => s + [x]
    case Front => [x] + s
    case Overwrite => [x]
  }

  /** What it makes of them in fact: overwriting empty items only adds to their number. */
  function Posted(s: seq<Item>, x: Item, p: Position): (r: seq<Item>)
  {
    if p == Overwrite && x == [] then s + [x] else Sent(s, x, p)
  }

  lemma BackStores(data: seq<Item>, readFrom: nat, messages: nat, x: Item)
    requires readFrom < |data| && messages < |data|
    ensures var w := SlotOf(readFrom, messages, |data|);
            && Ring(data[w := x], readFrom, messages + 1) == Ring(data, readFrom, messages) + [x]
            && SlotOf(readFrom, messages + 1, |data|) == Slot(w + 1, |data|)
  {
    var w := SlotOf(readFrom, messages, |data|);
    var a, b := Ring(data[w := x], readFrom, messages + 1), Ring(data, readFrom, messages) + [x];
    forall i | 0 <= i < messages + 1 ensures a[i] == b[i] {
      assert i < messages ==> SlotOf(readFrom, i, |data|) != w;
    }
  }

  lemma FrontStores(data: seq<Item>, readFrom: nat, messages: nat, x: Item)
    requires readFrom < |data| && messages < |data|
    ensures var r := if readFrom == 0 then |data| - 1 else readFrom - 1;
            && Ring(data[readFrom := x], r, messages + 1) == [x] + Ring(data, readFrom, messages)
            && SlotOf(r, messages + 1, |data|) == SlotOf(readFrom, messages, |data|)
  {
    var r := if readFrom == 0 then |data| - 1 else readFrom - 1;
    var a, b := Ring(data[readFrom := x], r, messages + 1), [x] + Ring(data, readFrom, messages);
    forall i | 0 <= i < messages + 1 ensures a[i] == b[i] {
      if i > 0 {
        assert SlotOf(r, i, |data|) == SlotOf(readFrom, i - 1, |data|) != readFrom;
      }
    }
  }

  lemma Reads(data: seq<Item>, readFrom: nat, messages: nat)
    requires readFrom < |data| && 0 < messages <= |data|
    ensures var r := Slot(readFrom + 1, |data|);
            && Ring(data, readFrom, messages) == [data[r]] + Ring(data, r, messages - 1)
            && SlotOf(r, messages - 1, |data|) == SlotOf(readFrom, messages, |data|)
  {
    var r := Slot(readFrom + 1, |data|);
    var a, b := Ring(data, readFrom, messages), [data[r]] + Ring(data, r, messages - 1);
    forall i | 0 <= i < messages ensures a[i] == b[i] {
      if i > 0 {
        assert SlotOf(readFrom, i, |data|) == SlotOf(r, i - 1, |data|);
      }
    }
  }

  // ----- the event lists -----

  predicate Ordered(l: seq<Waiter>)
  {
    forall i, j :: 0 <= i < j < |l| ==> l[i].value <= l[j].value
  }

  /** Nobody waits twice, or is woken while waiting. */
  predicate Apart(l: seq<Waiter>, woken: set<Task>)
  {
    && (forall i, j :: 0 <= i < j < |l| ==> l[i].task != l[j].task)
    && forall i :: 0 <= i < |l| ==> l[i].task !in woken
  }

  /** How many entries come before a new one of this value: all of higher or equal priority. */
  function Before(l: seq<Waiter>, value: nat): (r: nat)
    ensures r <= |l|
    ensures forall i :: 0 <= i < r ==> l[i].value <= value
    ensures r < |l| ==> l[r].value > value
  {
    if l == [] || l[0].value > value then 0 else 1 + Before(l[1..], value)
  }

  function Placed(l: seq<Waiter>, w: Waiter): (r: seq<Waiter>)
  {
    var k := Before(l, w.value);
    l[..k] + [w] + l[k..]
  }

  lemma PlacedFits(l: seq<Waiter>, w: Waiter, woken: set<Task>)
    requires Ordered(l) && Apart(l, woken) && w.task !in woken && forall i :: 0 <= i < |l| ==> l[i].task != w.task
    ensures Ordered(Placed(l, w)) && Apart(Placed(l, w), woken)
  {
    var k, r := Before(l, w.value), Placed(l, w);
    forall i | 0 <= i < |r| ensures r[i] == (if i == k then w else l[Skip(i, k)]) && r[i].task !in woken { }
    forall i, j | 0 <= i < j < |r| ensures r[i].value <= r[j].value && r[i].task != r[j].task {
      if i == k {
        assert l[k].value <= l[Skip(j, k)].value;
      } else if j == k {
        assert l[i].value <= w.value;
      }
    }
  }

  /** `w` has joined the waiters `l` at place `k`: nobody has left or changed places, those of
      higher or equal priority are before it, and the others behind it. */
  ghost predicate JoinsAt(l: seq<Waiter>, w: Waiter, r: seq<Waiter>, k: nat)
  {
    && k <= |l| && |r| == |l| + 1 && r[k] == w
    && (forall i :: 0 <= i < k ==> r[i] == l[i] && l[i].value <= w.value)
    && (forall i :: k <= i < |l| ==> l[i] == r[i + 1] && w.value < l[i].value)
  }

  ghost predicate Joins(l: seq<Waiter>, w: Waiter, r: seq<Waiter>)
  {
    exists k :: JoinsAt(l, w, r, k)
  }

  /** Everybody who waited still waits, and `w` with them. */
  ghost predicate SameWith(l: seq<Waiter>, w: Waiter, r: seq<Waiter>)
  {
    multiset(r) == multiset(l) + multiset{w}
  }

  lemma PlacedJoins(l: seq<Waiter>, w: Waiter)
    requires Ordered(l)
    ensures Joins(l, w, Placed(l, w))
  {
    var k := Before(l, w.value);
    forall i | k <= i < |l| ensures w.value < l[i].value {
      assert l[k].value <= l[i].value;
    }
    assert JoinsAt(l, w, Placed(l, w), k);
  }

  lemma NobodyLeaves(l: seq<Waiter>, w: Waiter, r: seq<Waiter>)
    requires Joins(l, w, r)
    ensures SameWith(l, w, r)
  {
    var k: nat :| JoinsAt(l, w, r, k);
    assert r[..k] == l[..k] && r[k + 1..] == l[k..];
    assert r == l[..k] + [w] + l[k..] && l == l[..k] + l[k..];
  }

  function Skip(i: nat, k: nat): (r: nat)
    requires i != k
  {
    if i < k then i else i - 1
  }

  /** The first n entries' tasks. */
  ghost function TasksOf(l: seq<Waiter>): (r: seq<Task>)
  {
    seq(|l|, i requires 0 <= i < |l| => l[i].task)
  }

  lemma NoneTaken(l: seq<Waiter>)
    ensures TasksOf(l[..0]) == [] && l[0..] == l
  {
  }

  // ----- wake-ups -----

  function Min(a: nat, b: nat): (r: nat) { if a <= b then a else b }

  /** The lock count that an interrupt leaves: an 8-bit increment. */
  function Counted(lock: int): (r: int)
    requires -128 <= lock <= 127
    ensures -128 <= r <= 127
  {
    if lock == 127 then -128 else lock + 1
  }

  /** If somebody waits, then each of `n` items has a wake-up on its way: a task that was
      taken off the list and has not looked yet, or a count that unlocking will turn into one. */
  predicate Answered(l: seq<Waiter>, n: int, woken: set<Task>, lock: int)
  {
    l != [] ==> n <= |woken| + if lock > 0 then lock else 0
  }

  lemma WakeOne(l: seq<Waiter>, n: int, woken: set<Task>, lock: int)
    requires l != [] && Apart(l, woken) && Ordered(l)
    ensures Apart(l[1..], woken + {l[0].task}) && Ordered(l[1..])
    ensures |woken + {l[0].task}| == |woken| + 1
    ensures Answered(l, n - 1, woken, lock) ==> Answered(l[1..], n, woken + {l[0].task}, lock)
    ensures Answered(l, n, woken, lock) && lock > 0 ==> Answered(l[1..], n, woken + {l[0].task}, lock - 1)
  {
  }

  lemma RunsAgain(l: seq<Waiter>, n: int, woken: set<Task>, lock: int, t: Task)
    requires Apart(l, woken)
    ensures Apart(l, woken - {t})
    ensures Answered(l, n, woken, lock) ==> Answered(l, n - 1, woken - {t}, lock)
  {
    if t in woken { assert |woken - {t}| == |woken| - 1; } else { assert woken - {t} == woken; }
  }

  lemma LeavesList(l: seq<Waiter>, i: nat, n: int, woken: set<Task>, lock: int)
    requires i < |l| && Apart(l, woken) && Ordered(l)
    ensures var r := l[..i] + l[i + 1..]; Apart(r, woken) && Ordered(r) && (Answered(l, n, woken, lock) ==> Answered(r, n, woken, lock))
  {
  }

  /** What the task that holds the lock has found out. */
  datatype Seen = Nothing | Empty | Full

  class Queue {
    const length: nat
    const itemSize: nat
    const storage: array<Item>
    var writeTo: nat
    var readFrom: nat
    var messages: nat
    var toSend: seq<Waiter>
    var toReceive: seq<Waiter>
    var rxLock: int
    var txLock: int
    ghost var wokenSenders: set<Task>
    ghost var wokenReceivers: set<Task>
    ghost var seen: Seen

    /** The ring is in order: an item size of zero makes a counting semaphore, whose
        pointers never move and whose count overwriting can drive past the length. */
    ghost predicate Shape()
      reads this`writeTo, this`readFrom, this`messages, storage
    {
      && 0 < length == storage.Length && readFrom < length
      && (itemSize > 0 ==> messages <= length && writeTo == SlotOf(readFrom, messages, length))
      && (forall i :: 0 <= i < length ==> |storage[i]| == itemSize)
    }

    ghost predicate Lists()
      reads this`toSend, this`toReceive, this`rxLock, this`txLock, this`wokenSenders, this`wokenReceivers
    {
      && Ordered(toSend) && Ordered(toReceive) && Apart(toSend, wokenSenders) && Apart(toReceive, wokenReceivers)
      && -128 <= rxLock <= 127 && -128 <= txLock <= 127
    }

    /** No wake-up is lost, for receivers and for senders. */
    ghost predicate ReceiversAnswered()
      reads this`toReceive, this`messages, this`txLock, this`wokenReceivers, this`seen
    {
      && -1 <= txLock && Answered(toReceive, messages, wokenReceivers, txLock)
      && (seen == Empty ==> 0 <= txLock && messages <= txLock)
    }

    ghost predicate SendersAnswered()
      reads this`toSend, this`messages, this`rxLock, this`wokenSenders, this`seen
    {
      && -1 <= rxLock && Answered(toSend, length - messages, wokenSenders, rxLock)
      && (seen == Full ==> 0 <= rxLock && length - messages <= rxLock)
    }

    ghost predicate Valid()
      reads this, storage
    {
      Shape() && Lists()
    }

    ghost function Contents(): (r: seq<Item>)
      reads this`writeTo, this`readFrom, this`messages, storage
      requires Shape()
      ensures |r| == messages
    {
      if itemSize == 0 then seq(messages, _ => []) else Ring(storage[..], readFrom, messages)
    }

    constructor (length: nat, itemSize: nat, blank: Item)
      requires 0 < length && |blank| == itemSize
      ensures Valid() && ReceiversAnswered() && SendersAnswered() && Contents() == []
      ensures this.length == length && this.itemSize == itemSize && fresh(storage)
      ensures wokenSenders == {} && wokenReceivers == {} && seen == Nothing
      ensures toSend == [] && toReceive == [] && rxLock == UNLOCKED && txLock == UNLOCKED
    {
      this.length, this.itemSize := length, itemSize;
      storage := new Item[length](_ => blank);
      writeTo, readFrom, messages := 0, length - 1, 0;
      toSend, toReceive, rxLock, txLock := [], [], UNLOCKED, UNLOCKED;
      wokenSenders, wokenReceivers, seen := {}, {}, Nothing;
    }

    // ----- copying -----

    /** Overwriting leaves the one item that was sent if and only if items have a size, or
        the queue was empty. */
    method CopyDataToQueue(x: Item, p: Position)
      requires Shape() && |x| == itemSize && (messages < length || p == Overwrite) && (p == Overwrite ==> length == 1)
      modifies this`writeTo, this`readFrom, this`messages, storage
      ensures Shape() && Contents() == Posted(old(Contents()), x, p)
      ensures p == Back ==> Contents() == old(Contents()) + [x]
      ensures p == Front ==> Contents() == [x] + old(Contents())
      ensures p == Overwrite && (itemSize > 0 || old(messages) == 0) ==> Contents() == [x]
      ensures p == Overwrite ==>
                (messages <= length && Contents() == Sent(old(Contents()), x, p) <==> itemSize > 0 || old(messages) == 0)
    {
      var n := messages;
      if itemSize == 0 {
        assert x == [];
      } else if p == Back {
        CopyToBack(x);
      } else {
        CopyToFront(x);
        if p == Overwrite && n > 0 { n := n - 1; }
      }
      messages := n + 1;
    }

    method CopyToBack(x: Item)
      requires Shape() && |x| == itemSize > 0 && messages < length
      modifies this`writeTo, storage
      ensures Ring(storage[..], readFrom, messages + 1) == old(Contents()) + [x]
      ensures writeTo == SlotOf(readFrom, messages + 1, length)
      ensures forall i :: 0 <= i < length ==> |storage[i]| == itemSize
    {
      ghost var was := storage[..];
      BackStores(was, readFrom, messages, x);
      storage[writeTo] := x;
      assert storage[..] == was[writeTo := x];
      writeTo := writeTo + 1;
      if writeTo >= length { writeTo := 0; }
    }

    /** In a full queue this overwrites what the write pointer stands on: with one slot only,
        the one item. */
    method CopyToFront(x: Item)
      requires Shape() && |x| == itemSize > 0 && (messages < length || length == 1)
      modifies this`readFrom, storage
      ensures readFrom < length && (forall i :: 0 <= i < length ==> |storage[i]| == itemSize)
      ensures old(messages) < length ==> Ring(storage[..], readFrom, messages + 1) == [x] + old(Contents())
                                         && writeTo == SlotOf(readFrom, messages + 1, length)
      ensures length == 1 ==> Ring(storage[..], readFrom, 1) == [x] && writeTo == SlotOf(readFrom, 1, length)
    {
      ghost var was := storage[..];
      if messages < length { FrontStores(was, readFrom, messages, x); }
      storage[readFrom] := x;
      assert storage[..] == was[readFrom := x];
      if readFrom == 0 { readFrom := length - 1; } else { readFrom := readFrom - 1; }
    }

    method CopyDataFromQueue() returns (x: Item)
      requires Shape() && messages > 0
      modifies this`readFrom
      ensures x == old(Contents())[0] && |x| == itemSize
      ensures readFrom == if itemSize == 0 then old(readFrom) else Slot(old(readFrom) + 1, length)
    {
      x := [];
      if itemSize != 0 {
        Reads(storage[..], readFrom, messages);
        readFrom := readFrom + 1;
        if readFrom >= length { readFrom := 0; }
        x := storage[readFrom];
      }
    }

    /** Receives: the first item, without it. */
    method TakeFirst() returns (x: Item)
      requires Shape() && messages > 0
      modifies this`readFrom, this`messages
      ensures Shape() && x == old(Contents())[0] && Contents() == old(Contents())[1..]
    {
      if itemSize > 0 { Reads(storage[..], readFrom, messages); }
      x := CopyDataFromQueue();
      messages := messages - 1;
    }

    // ----- waking -----

    /** Takes the most urgent waiting receiver, if any, off the list. */
    method WakeReceiver() returns (woken: seq<Task>)
      requires Lists()
      modifies this`toReceive, this`wokenReceivers
      ensures Lists()
      ensures woken == TasksOf(old(toReceive)[..Min(1, |old(toReceive)|)])
      ensures toReceive == old(toReceive)[Min(1, |old(toReceive)|)..]
      ensures forall n :: old(Answered(toReceive, n - 1, wokenReceivers, txLock)) ==> Answered(toReceive, n, wokenReceivers, txLock)
      ensures old(toReceive) != [] && txLock > 0 ==>
                forall n :: old(Answered(toReceive, n, wokenReceivers, txLock)) ==> Answered(toReceive, n, wokenReceivers, txLock - 1)
    {
      woken := [];
      if toReceive != [] {
        ghost var l, w := toReceive, wokenReceivers;
        forall n
          ensures Answered(l, n - 1, w, txLock) ==> Answered(l[1..], n, w + {l[0].task}, txLock)
          ensures Answered(l, n, w, txLock) && txLock > 0 ==> Answered(l[1..], n, w + {l[0].task}, txLock - 1)
        {
          WakeOne(l, n, w, txLock);
        }
        WakeOne(l, 0, w, txLock);
        woken := [toReceive[0].task];
        wokenReceivers := wokenReceivers + {toReceive[0].task};
        toReceive := toReceive[1..];
      }
    }

    method WakeSender() returns (woken: seq<Task>)
      requires Lists()
      modifies this`toSend, this`wokenSenders
      ensures Lists()
      ensures woken == TasksOf(old(toSend)[..Min(1, |old(toSend)|)])
      ensures toSend == old(toSend)[Min(1, |old(toSend)|)..] && |wokenSenders| == |old(wokenSenders)| + Min(1, |old(toSend)|)
      ensures forall n :: old(Answered(toSend, n - 1, wokenSenders, rxLock)) ==> Answered(toSend, n, wokenSenders, rxLock)
      ensures old(toSend) != [] && rxLock > 0 ==>
                forall n :: old(Answered(toSend, n, wokenSenders, rxLock)) ==> Answered(toSend, n, wokenSenders, rxLock - 1)
    {
      woken := [];
      if toSend != [] {
        ghost var l, w := toSend, wokenSenders;
        forall n
          ensures Answered(l, n - 1, w, rxLock) ==> Answered(l[1..], n, w + {l[0].task}, rxLock)
          ensures Answered(l, n, w, rxLock) && rxLock > 0 ==> Answered(l[1..], n, w + {l[0].task}, rxLock - 1)
        {
          WakeOne(l, n, w, rxLock);
        }
        WakeOne(l, 0, w, rxLock);
        woken := [toSend[0].task];
        wokenSenders := wokenSenders + {toSend[0].task};
        toSend := toSend[1..];
      }
    }

    // ----- sending and receiving -----

    /** The critical section of a task's send: posts the item and wakes a receiver, unless
        the queue is full. */
    method Send(task: Task, x: Item, p: Position) returns (sent: bool, woken: seq<Task>)
      requires Valid() && |x| == itemSize && seen == Nothing
      requires p == Overwrite ==> length == 1
      modifies this, storage
      ensures Valid() && (old(ReceiversAnswered()) ==> ReceiversAnswered()) && (old(SendersAnswered()) ==> SendersAnswered()) && seen == Nothing
      ensures toSend == old(toSend) && rxLock == old(rxLock) && txLock == old(txLock) && wokenSenders == old(wokenSenders) - {task}
      ensures sent <==> old(messages) < length || p == Overwrite
      ensures Contents() == if sent then Posted(old(Contents()), x, p) else old(Contents())
      ensures var n := if sent then Min(1, |old(toReceive)|) else 0;
              woken == TasksOf(old(toReceive)[..n]) && toReceive == old(toReceive)[n..]
    {
      SenderLooks(task);
      NoneTaken(toReceive);
      sent, woken := false, [];
      if messages < length || p == Overwrite {
        woken := PostAndWake(x, p);
        sent := true;
      }
    }

    /** A sender runs again: it is not on its way to the queue any more. */
    ghost method SenderLooks(task: Task)
      requires Lists()
      modifies this`wokenSenders
      ensures Lists() && wokenSenders == old(wokenSenders) - {task}
      ensures old(Answered(toSend, length - messages, wokenSenders, rxLock)) ==> Answered(toSend, length - messages - 1, wokenSenders, rxLock)
    {
      RunsAgain(toSend, length - messages, wokenSenders, rxLock, task);
      wokenSenders := wokenSenders - {task};
    }

    /** Posts an item for which there is room, and wakes a receiver. */
    method PostAndWake(x: Item, p: Position) returns (woken: seq<Task>)
      requires Valid() && |x| == itemSize && (messages < length || p == Overwrite) && (p == Overwrite ==> length == 1)
      modifies this`writeTo, this`readFrom, this`messages, storage, this`toReceive, this`wokenReceivers
      ensures Valid() && Contents() == Posted(old(Contents()), x, p) && (messages == old(messages) + 1 || length <= messages)
      ensures old(ReceiversAnswered()) && seen == Nothing ==> ReceiversAnswered()
      ensures woken == TasksOf(old(toReceive)[..Min(1, |old(toReceive)|)]) && toReceive == old(toReceive)[Min(1, |old(toReceive)|)..]
    {
      CopyDataToQueue(x, p);
      woken := WakeReceiver();
    }

    /** The same from an interrupt: while the queue is locked the list is left alone, and
        the post is counted. */
    method SendFromISR(x: Item, p: Position) returns (sent: bool, woken: seq<Task>)
      requires Valid() && |x| == itemSize
      requires p == Overwrite ==> length == 1
      modifies this, storage
      ensures Valid() && (old(SendersAnswered()) ==> SendersAnswered()) && seen == old(seen)
      ensures old(ReceiversAnswered()) && old(txLock) < 127 ==> ReceiversAnswered()
      ensures toSend == old(toSend) && rxLock == old(rxLock)
      ensures sent <==> old(messages) < length || p == Overwrite
      ensures Contents() == if sent then Posted(old(Contents()), x, p) else old(Contents())
      ensures txLock == if sent && old(txLock) != UNLOCKED then Counted(old(txLock)) else old(txLock)
      ensures var n := if sent && old(txLock) == UNLOCKED then Min(1, |old(toReceive)|) else 0;
              woken == TasksOf(old(toReceive)[..n]) && toReceive == old(toReceive)[n..]
    {
      NoneTaken(toReceive);
      sent, woken := false, [];
      if messages < length || p == Overwrite {
        var lock := txLock;
        CopyDataToQueue(x, p);
        woken := WakeOrCount(lock);
        sent := true;
      }
    }

    /** Wakes a receiver for an item that an interrupt has just posted, or counts the post. */
    method WakeOrCount(lock: int) returns (woken: seq<Task>)
      requires Lists() && lock == txLock
      modifies this`txLock, this`toReceive, this`wokenReceivers
      ensures Lists() && txLock == if lock != UNLOCKED then Counted(lock) else lock
      ensures -1 <= lock < 127 && Answered(old(toReceive), messages - 1, old(wokenReceivers), lock) ==>
                (seen == Empty ==> 0 <= lock && messages - 1 <= lock) ==> ReceiversAnswered()
      ensures var n := if lock == UNLOCKED then Min(1, |old(toReceive)|) else 0;
              woken == TasksOf(old(toReceive)[..n]) && toReceive == old(toReceive)[n..]
    {
      NoneTaken(toReceive);
      woken := [];
      if lock == UNLOCKED {
        woken := WakeReceiver();
      } else {
        txLock := Counted(lock);
      }
    }

    /** The critical section of a task's receive. */
    method Receive(task: Task) returns (got: bool, x: Item, woken: seq<Task>)
      requires Valid() && seen == Nothing
      modifies this
      ensures Valid() && (old(ReceiversAnswered()) ==> ReceiversAnswered()) && (old(SendersAnswered()) ==> SendersAnswered()) && seen == Nothing
      ensures toReceive == old(toReceive) && rxLock == old(rxLock) && txLock == old(txLock)
      ensures got <==> old(messages) > 0
      ensures got ==> x == old(Contents())[0]
      ensures Contents() == if got then old(Contents())[1..] else old(Contents())
      ensures var n := if got then Min(1, |old(toSend)|) else 0;
              woken == TasksOf(old(toSend)[..n]) && toSend == old(toSend)[n..]
    {
      RunsAgain(toReceive, messages, wokenReceivers, txLock, task);
      wokenReceivers := wokenReceivers - {task};
      got, x, woken := false, [], [];
      if messages > 0 {
        x := TakeFirst();
        woken := WakeSender();
        got := true;
      }
    }

    /** The same when only peeking: the item stays, so the next receiver may have a look. */
    method Peek(task: Task) returns (got: bool, x: Item, woken: seq<Task>)
      requires Valid() && seen == Nothing
      modifies this
      ensures Valid() && (old(ReceiversAnswered()) ==> ReceiversAnswered()) && (old(SendersAnswered()) ==> SendersAnswered()) && seen == Nothing
      ensures toSend == old(toSend) && rxLock == old(rxLock) && txLock == old(txLock)
      ensures got <==> old(messages) > 0
      ensures got ==> x == old(Contents())[0]
      ensures Contents() == old(Contents()) && readFrom == old(readFrom) && writeTo == old(writeTo) && messages == old(messages)
      ensures var n := if got then Min(1, |old(toReceive)|) else 0;
              woken == TasksOf(old(toReceive)[..n]) && toReceive == old(toReceive)[n..]
    {
      RunsAgain(toReceive, messages, wokenReceivers, txLock, task);
      wokenReceivers := wokenReceivers - {task};
      got, x, woken := false, [], [];
      if messages > 0 {
        var original := readFrom;
        x := CopyDataFromQueue();
        readFrom := original;
        woken := WakeReceiver();
        got := true;
      }
    }

    method ReceiveFromISR() returns (got: bool, x: Item, woken: seq<Task>)
      requires Valid()
      modifies this
      ensures Valid() && (old(ReceiversAnswered()) ==> ReceiversAnswered()) && seen == old(seen)
      ensures old(SendersAnswered()) && old(rxLock) < 127 ==> SendersAnswered()
      ensures toReceive == old(toReceive) && txLock == old(txLock)
      ensures got <==> old(messages) > 0
      ensures got ==> x == old(Contents())[0]
      ensures Contents() == if got then old(Contents())[1..] else old(Contents())
      ensures rxLock == if got && old(rxLock) != UNLOCKED then Counted(old(rxLock)) else old(rxLock)
      ensures var n := if got && old(rxLock) == UNLOCKED then Min(1, |old(toSend)|) else 0;
              woken == TasksOf(old(toSend)[..n]) && toSend == old(toSend)[n..]
    {
      got, x, woken := false, [], [];
      if messages > 0 {
        var lock := rxLock;
        x := TakeFirst();
        if lock == UNLOCKED {
          woken := WakeSender();
        } else {
          rxLock := Counted(lock);
        }
        got := true;
      }
    }

    // ----- blocking -----

    /** Before it decides to block, a task locks the queue. */
    method Lock()
      requires Lists() && seen == Nothing
      modifies this`rxLock, this`txLock
      ensures Lists() && (old(ReceiversAnswered()) ==> ReceiversAnswered()) && (old(SendersAnswered()) ==> SendersAnswered())
      ensures rxLock == if old(rxLock) == UNLOCKED then LOCKED_UNMODIFIED else old(rxLock)
      ensures txLock == if old(txLock) == UNLOCKED then LOCKED_UNMODIFIED else old(txLock)
    {
      if rxLock == UNLOCKED { rxLock := LOCKED_UNMODIFIED; }
      if txLock == UNLOCKED { txLock := LOCKED_UNMODIFIED; }
    }

    method IsEmpty() returns (r: bool)
      requires seen == Nothing
      modifies this`seen
      ensures old(ReceiversAnswered()) && 0 <= txLock ==> ReceiversAnswered()
      ensures old(SendersAnswered()) ==> SendersAnswered()
      ensures r == (messages == 0) && seen == if r then Empty else Nothing
    {
      r := messages == 0;
      seen := if r then Empty else Nothing;
    }

    method IsFull() returns (r: bool)
      requires seen == Nothing
      modifies this`seen
      ensures old(SendersAnswered()) && 0 <= rxLock ==> SendersAnswered()
      ensures old(ReceiversAnswered()) ==> ReceiversAnswered()
      ensures r == (messages == length) && seen == if r then Full else Nothing
    {
      r := messages == length;
      seen := if r then Full else Nothing;
    }

    /** Joins the waiting receivers, in priority order behind equals. The queue was empty
        when the task looked; interrupts may have posted since. */
    method PlaceReceiver(w: Waiter)
      requires Lists() && seen == Empty
      requires w.task !in wokenReceivers && forall i :: 0 <= i < |toReceive| ==> toReceive[i].task != w.task
      modifies this`toReceive, this`seen
      ensures Lists() && (old(ReceiversAnswered()) ==> ReceiversAnswered()) && (old(SendersAnswered()) ==> SendersAnswered()) && seen == Nothing
      ensures toReceive == Placed(old(toReceive), w) && Joins(old(toReceive), w, toReceive) && SameWith(old(toReceive), w, toReceive)
    {
      PlacedJoins(toReceive, w);
      NobodyLeaves(toReceive, w, Placed(toReceive, w));
      PlacedFits(toReceive, w, wokenReceivers);
      toReceive := Placed(toReceive, w);
      seen := Nothing;
    }

    method PlaceSender(w: Waiter)
      requires Lists() && seen == Full
      requires w.task !in wokenSenders && forall i :: 0 <= i < |toSend| ==> toSend[i].task != w.task
      modifies this`toSend, this`seen
      ensures Lists() && (old(ReceiversAnswered()) ==> ReceiversAnswered()) && (old(SendersAnswered()) ==> SendersAnswered()) && seen == Nothing
      ensures toSend == Placed(old(toSend), w) && Joins(old(toSend), w, toSend) && SameWith(old(toSend), w, toSend)
    {
      PlacedJoins(toSend, w);
      NobodyLeaves(toSend, w, Placed(toSend, w));
      PlacedFits(toSend, w, wokenSenders);
      toSend := Placed(toSend, w);
      seen := Nothing;
    }

    /** A blocked task's time runs out. */
    method ReceiverTimesOut(i: nat)
      requires Lists() && i < |toReceive|
      modifies this`toReceive
      ensures Lists() && (old(ReceiversAnswered()) ==> ReceiversAnswered()) && toReceive == old(toReceive)[..i] + old(toReceive)[i + 1..]
    {
      LeavesList(toReceive, i, messages, wokenReceivers, txLock);
      toReceive := toReceive[..i] + toReceive[i + 1..];
    }

    method SenderTimesOut(i: nat)
      requires Lists() && i < |toSend|
      modifies this`toSend
      ensures Lists() && (old(SendersAnswered()) ==> SendersAnswered()) && toSend == old(toSend)[..i] + old(toSend)[i + 1..]
    {
      LeavesList(toSend, i, length - messages, wokenSenders, rxLock);
      toSend := toSend[..i] + toSend[i + 1..];
    }

    method CountDownReceiver() returns (woken: Task)
      requires Lists() && seen == Nothing && txLock > 0 && toReceive != []
      modifies this`toReceive, this`wokenReceivers, this`txLock
      ensures Lists() && (old(ReceiversAnswered()) ==> ReceiversAnswered()) && txLock == old(txLock) - 1
      ensures toReceive == old(toReceive)[1..] && woken == old(toReceive)[0].task
    {
      var one := WakeReceiver();
      woken := one[0];
      txLock := txLock - 1;
    }

    /** Unlocking wakes the most urgent receivers, one for each post that was counted. */
    method UnlockTx() returns (woken: seq<Task>)
      requires Lists()
      modifies this`toReceive, this`wokenReceivers, this`txLock, this`seen
      ensures Lists() && (old(ReceiversAnswered()) ==> ReceiversAnswered()) && (old(SendersAnswered()) ==> SendersAnswered()) && txLock == UNLOCKED && seen == Nothing
      ensures var n := Min(if old(txLock) > 0 then old(txLock) else 0, |old(toReceive)|);
              woken == TasksOf(old(toReceive)[..n]) && toReceive == old(toReceive)[n..]
    {
      seen, woken := Nothing, [];
      ghost var n := 0;
      while txLock > LOCKED_UNMODIFIED && toReceive != []
        invariant Lists() && (old(ReceiversAnswered()) ==> ReceiversAnswered()) && seen == Nothing
        invariant n <= |old(toReceive)| && (n == 0 ==> txLock == old(txLock)) && (n > 0 ==> 0 <= txLock == old(txLock) - n)
        invariant toReceive == old(toReceive)[n..] && woken == TasksOf(old(toReceive)[..n])
        decreases txLock
      {
        var one := CountDownReceiver();
        woken := woken + [one];
        n := n + 1;
        assert old(toReceive)[..n] == old(toReceive)[..n - 1] + [old(toReceive)[n - 1]];
      }
      txLock := UNLOCKED;
    }

    method CountDownSender() returns (woken: Task)
      requires Lists() && seen == Nothing && rxLock > 0 && toSend != []
      modifies this`toSend, this`wokenSenders, this`rxLock
      ensures Lists() && (old(SendersAnswered()) ==> SendersAnswered()) && rxLock == old(rxLock) - 1
      ensures toSend == old(toSend)[1..] && woken == old(toSend)[0].task
    {
      var one := WakeSender();
      woken := one[0];
      rxLock := rxLock - 1;
    }

    /** The same for senders, one for each item that was taken. */
    method UnlockRx() returns (woken: seq<Task>)
      requires Lists() && seen == Nothing
      modifies this`toSend, this`wokenSenders, this`rxLock
      ensures Lists() && (old(ReceiversAnswered()) ==> ReceiversAnswered()) && (old(SendersAnswered()) ==> SendersAnswered()) && rxLock == UNLOCKED
      ensures var n := Min(if old(rxLock) > 0 then old(rxLock) else 0, |old(toSend)|);
              woken == TasksOf(old(toSend)[..n]) && toSend == old(toSend)[n..] && (n == 0 ==> wokenSenders == old(wokenSenders))
    {
      woken := [];
      ghost var n := 0;
      while rxLock > LOCKED_UNMODIFIED && toSend != []
        invariant Lists() && (old(SendersAnswered()) ==> SendersAnswered())
        invariant n <= |old(toSend)| && (n == 0 ==> rxLock == old(rxLock) && wokenSenders == old(wokenSenders)) && (n > 0 ==> 0 <= rxLock == old(rxLock) - n)
        invariant toSend == old(toSend)[n..] && woken == TasksOf(old(toSend)[..n])
        decreases rxLock
      {
        var one := CountDownSender();
        woken := woken + [one];
        n := n + 1;
        assert old(toSend)[..n] == old(toSend)[..n - 1] + [old(toSend)[n - 1]];
      }
      rxLock := UNLOCKED;
    }

    /** Empties the queue. However much room that makes, one sender is woken: whether nobody
        is left waiting beside free room is decided by how many were waiting. */
    method Reset() returns (woken: seq<Task>)
      requires Valid() && seen == Nothing
      modifies this
      ensures Valid() && ReceiversAnswered() && Contents() == [] && toReceive == old(toReceive)
      ensures rxLock == UNLOCKED && txLock == UNLOCKED && readFrom == length - 1
      ensures woken == TasksOf(old(toSend)[..Min(1, |old(toSend)|)]) && toSend == old(toSend)[Min(1, |old(toSend)|)..]
      ensures SendersAnswered() <==> |old(toSend)| <= 1 || length <= |old(wokenSenders)| + 1
    {
      messages, writeTo, readFrom := 0, 0, length - 1;
      rxLock, txLock := UNLOCKED, UNLOCKED;
      woken := WakeSender();
    }
  }

  /** Nothing is on its way to or from a full queue for which no receiver waits. */
  ghost predicate Settled(q: Queue, seen: Seen, lock: int)
    reads q, q.storage
  {
    && q.Valid() && q.ReceiversAnswered() && q.SendersAnswered() && q.messages == q.length
    && q.toReceive == [] && q.wokenSenders == {} && q.seen == seen && q.rxLock == q.txLock == lock
  }

  method Blocks(q: Queue, w: Waiter)
    requires Settled(q, Nothing, UNLOCKED) && forall i :: 0 <= i < |q.toSend| ==> q.toSend[i].task != w.task
    modifies q
    ensures Settled(q, Nothing, UNLOCKED) && q.toSend == Placed(old(q.toSend), w)
  {
    q.Lock();
    var full := q.IsFull();
    Queues(q, w);
    var r := q.UnlockTx();
    var s := q.UnlockRx();
  }

  method Queues(q: Queue, w: Waiter)
    requires Settled(q, Full, LOCKED_UNMODIFIED) && forall i :: 0 <= i < |q.toSend| ==> q.toSend[i].task != w.task
    modifies q`toSend, q`seen
    ensures Settled(q, Nothing, LOCKED_UNMODIFIED) && q.toSend == Placed(old(q.toSend), w)
  {
    q.PlaceSender(w);
  }

  /** A reset that strands a sender: two tasks wait to post on a full queue of two, and the
      reset wakes one of them only, leaving the other beside an empty queue. */
  method ResetStrandsASender() returns (q: Queue)
    ensures q.Valid() && q.length == 2 && q.messages == 0 && q.toSend == [Waiter(2, 0)] && !q.SendersAnswered()
  {
    q := FullQueue();
    Blocks(q, Waiter(1, 0));
    Blocks(q, Waiter(2, 0));
    var woken := q.Reset();
  }

  /** A queue of two, full, for which nobody waits. */
  method FullQueue() returns (q: Queue)
    ensures fresh(q) && fresh(q.storage) && Settled(q, Nothing, UNLOCKED) && q.length == 2 && q.toSend == []
  {
    q := new Queue(2, 1, [0]);
    var a, b := q.Send(3, [7], Back);
    a, b := q.Send(3, [8], Back);
  }

  /** Two overwrites of a binary semaphore's queue: it then counts two messages in a length
      of one. */
  method OverwritesTwice() returns (q: Queue)
    ensures q.Valid() && q.length == 1 && q.itemSize == 0 && q.messages == 2
  {
    q := new Queue(1, 0, []);
    var a, b := q.Send(1, [], Overwrite);
    a, b := q.Send(1, [], Overwrite);
    assert |q.Contents()| == 2;
  }

  // ----- whole runs -----

  /** The lock count after k posts while locked; at UNLOCKED the next post is not counted. */
  function CountAfter(k: nat): (r: int)
    ensures -128 <= r <= 127
  {
    if k == 0 then LOCKED_UNMODIFIED
    else if CountAfter(k - 1) == UNLOCKED then UNLOCKED
    else Counted(CountAfter(k - 1))
  }

  /** The 8-bit count is the number of posts exactly up to 127; after that it is negative,
      and unlocking wakes nobody for them. */
  lemma {:induction false} CountIsExact(k: nat)
    ensures CountAfter(k) == if k <= 127 then k else if k <= 255 then k - 256 else UNLOCKED
  {
    if k > 0 { CountIsExact(k - 1); }
  }

  datatype Op = Put(x: Item, p: Position) | Get

  /** A bounded sequence through a run of sends and receives: what is left, what came out
      and what went in. */
  datatype Log = Log(left: seq<Item>, out: seq<Item>, taken: seq<Item>)

  function After(s: seq<Item>, ops: seq<Op>, length: nat): (r: Log)
  {
    if ops == [] then Log(s, [], [])
    else
      AfterOne(After(s, ops[..|ops| - 1], length), ops[|ops| - 1], length)
  }

  function AfterOne(r: Log, op: Op, length: nat): (r': Log)
  {
    match op
    case Put(x, p) => if |r.left| < length || p == Overwrite then Log(Posted(r.left, x, p), r.out, r.taken + [x]) else r
    case Get => if |r.left| > 0 then Log(r.left[1..], r.out + [r.left[0]], r.taken) else r
  }

  /** A queue's sends and receives, in any order and with whatever wake-ups between them, are
      such a run: the facts below are about the queue. */
  method Play(q: Queue, ops: seq<Op>, task: Task) returns (out: seq<Item>, taken: seq<Item>)
    requires q.Valid() && q.seen == Nothing
    requires forall i :: 0 <= i < |ops| && ops[i].Put? ==> |ops[i].x| == q.itemSize && (ops[i].p == Overwrite ==> q.length == 1)
    modifies q, q.storage
    ensures q.Valid() && Log(q.Contents(), out, taken) == After(old(q.Contents()), ops, q.length)
  {
    out, taken := [], [];
    for i := 0 to |ops|
      invariant q.Valid() && q.seen == Nothing
      invariant Log(q.Contents(), out, taken) == After(old(q.Contents()), ops[..i], q.length)
    {
      assert ops[..i + 1][..i] == ops[..i];
      match ops[i]
      case Put(x, p) =>
        var sent, woken := q.Send(task, x, p);
        if sent { taken := taken + [x]; }
      case Get =>
        var got, x, woken := q.Receive(task);
        if got { out := out + [x]; }
    }
    assert ops[..|ops|] == ops;
  }

  /** First in, first out: what came out and what is left are what was there and went in. */
  lemma {:induction false} FirstInFirstOut(s: seq<Item>, ops: seq<Op>, length: nat)
    requires |s| <= length && forall i :: 0 <= i < |ops| ==> ops[i].Get? || ops[i].p == Back
    ensures var r := After(s, ops, length); r.out + r.left == s + r.taken && |r.left| <= length
    decreases |ops|
  {
    if ops != [] {
      var front, op := ops[..|ops| - 1], ops[|ops| - 1];
      FirstInFirstOut(s, front, length);
      var r := After(s, front, length);
      if op.Put? {
        assert r.out + (r.left + [op.x]) == (r.out + r.left) + [op.x];
        assert s + (r.taken + [op.x]) == (s + r.taken) + [op.x];
      } else if r.left != [] {
        assert r.out + [r.left[0]] + r.left[1..] == r.out + r.left;
      }
    }
  }

  /** A run may be cut in two anywhere. */
  lemma {:induction false} AfterAppend(s: seq<Item>, a: seq<Op>, b: seq<Op>, length: nat)
    ensures After(s, a + b, length) == Continued(After(s, a, length), After(After(s, a, length).left, b, length))
    decreases |b|
  {
    if b == [] {
      assert a + b == a;
    } else {
      var front, last := b[..|b| - 1], b[|b| - 1];
      assert (a + b)[..|a + b| - 1] == a + front;
      AfterAppend(s, a, front, length);
      ContinuedOne(After(s, a, length), After(After(s, a, length).left, front, length), last, length);
    }
  }

  function Continued(r: Log, t: Log): (l: Log)
  {
    Log(t.left, r.out + t.out, r.taken + t.taken)
  }

  lemma ContinuedOne(r: Log, t: Log, op: Op, length: nat)
    ensures AfterOne(Continued(r, t), op, length) == Continued(r, AfterOne(t, op, length))
  {
  }

  /** Sends of these items to the front, and n receives. */
  function Fronts(xs: seq<Item>): (r: seq<Op>) { seq(|xs|, i requires 0 <= i < |xs| => Put(xs[i], Front)) }
  function Gets(n: nat): (r: seq<Op>) { seq(n, _ => Get) }

  function Reversed(xs: seq<Item>): (r: seq<Item>)
    ensures |r| == |xs| && forall i :: 0 <= i < |xs| ==> r[i] == xs[|xs| - 1 - i]
  {
    if xs == [] then [] else [xs[|xs| - 1]] + Reversed(xs[..|xs| - 1])
  }

  lemma {:induction false} FrontsStack(s: seq<Item>, xs: seq<Item>, length: nat)
    requires |s| + |xs| <= length
    ensures After(s, Fronts(xs), length) == Log(Reversed(xs) + s, [], xs)
    decreases |xs|
  {
    if xs != [] {
      var front, x := xs[..|xs| - 1], xs[|xs| - 1];
      FrontsStack(s, front, length);
      assert Fronts(xs)[..|xs| - 1] == Fronts(front);
      assert After(s, Fronts(xs), length) == AfterOne(Log(Reversed(front) + s, [], front), Put(x, Front), length);
      StackOne(s, front, x);
      assert front + [x] == xs;
    }
  }

  lemma StackOne(s: seq<Item>, front: seq<Item>, x: Item)
    ensures [x] + (Reversed(front) + s) == Reversed(front + [x]) + s
  {
    assert (front + [x])[..|front|] == front;
  }

  lemma {:induction false} GetsTake(s: seq<Item>, n: nat, length: nat)
    requires n <= |s|
    ensures After(s, Gets(n), length) == Log(s[n..], s[..n], [])
  {
    if n > 0 {
      GetsTake(s, n - 1, length);
      assert Gets(n)[..n - 1] == Gets(n - 1);
      assert s[n - 1..][1..] == s[n..] && s[..n - 1] + [s[n - 1]] == s[..n];
    }
  }

  /** Last in, first out: what is sent to the front comes out before what was there, and in
      the opposite order. */
  lemma LastInFirstOut(s: seq<Item>, xs: seq<Item>, length: nat)
    requires |s| + |xs| <= length
    ensures After(s, Fronts(xs) + Gets(|xs|), length) == Log(s, Reversed(xs), xs)
  {
    FrontsStack(s, xs, length);
    GetsTake(Reversed(xs) + s, |xs|, length);
    AfterAppend(s, Fronts(xs), Gets(|xs|), length);
    assert (Reversed(xs) + s)[|xs|..] == s && (Reversed(xs) + s)[..|xs|] == Reversed(xs);
    assert xs + [] == xs && [] + Reversed(xs) == Reversed(xs);
  }

  predicate Conserved(s: seq<Item>, r: Log)
  {
    multiset(r.out) + multiset(r.left) == multiset(s) + multiset(r.taken)
  }

  lemma PutConserves(s: seq<Item>, r: Log, x: Item, p: Position)
    requires Conserved(s, r) && p != Overwrite
    ensures Conserved(s, Log(Sent(r.left, x, p), r.out, r.taken + [x]))
  {
    assert multiset(Sent(r.left, x, p)) == multiset(r.left) + multiset{x};
    assert multiset(r.taken + [x]) == multiset(r.taken) + multiset{x};
    assert multiset(r.out) + (multiset(r.left) + multiset{x}) == (multiset(r.out) + multiset(r.left)) + multiset{x};
  }

  lemma GetConserves(s: seq<Item>, r: Log)
    requires Conserved(s, r) && r.left != []
    ensures Conserved(s, Log(r.left[1..], r.out + [r.left[0]], r.taken))
  {
    assert r.left == [r.left[0]] + r.left[1..];
  }

  /** Whichever end the sends go to, nothing is lost, invented or doubled. */
  lemma {:induction false} NothingIsLost(s: seq<Item>, ops: seq<Op>, length: nat)
    requires |s| <= length && forall i :: 0 <= i < |ops| ==> ops[i].Get? || ops[i].p != Overwrite
    ensures Conserved(s, After(s, ops, length)) && |After(s, ops, length).left| <= length
    decreases |ops|
  {
    if ops != [] {
      var front, op := ops[..|ops| - 1], ops[|ops| - 1];
      NothingIsLost(s, front, length);
      var r := After(s, front, length);
      if op.Put? { PutConserves(s, r, op.x, op.p); } else if r.left != [] { GetConserves(s, r); }
    }
  }
}
