/**
 Kernel time: a 32-bit tick count that wraps, two lists of delayed tasks that change
 places when it does, and ticks that are counted while the scheduler is suspended and
 replayed later.  All of it stands for a set of absolute deadlines in unbounded time.
 */
module KernelTime {
  import opened KernelList

  /** How many tick values there are. */
  const M: nat := 0x1_0000_0000

  type Task = nat

  datatype Delayed = Delayed(task: Task, wake: nat)

  function Wakes(s: seq<Delayed>): (r: seq<nat>)
    ensures |r| == |s|
  {
    seq(|s|, i requires 0 <= i < |s| => s[i].wake)
  }

  function Tasks(s: seq<Delayed>): (r: seq<Task>)
    ensures |r| == |s|
  {
    seq(|s|, i requires 0 <= i < |s| => s[i].task)
  }

  /** Sorted insertion by wake time, after equal ones. */
  function File(s: seq<Delayed>, d: Delayed): (r: seq<Delayed>)
  {
    InsertAt(s, FirstAbove(Wakes(s), d.wake), d)
  }

  // ----- the abstract view -----

  /** Unbounded time, and when each delayed task is due. */
  datatype View = View(now: nat, due: map<Task, nat>)

  /** `n` ticks later: whoever was due by then is gone. */
  function Later(v: View, n: nat): (r: View)
  {
    View(v.now + n, map t | t in v.due && v.now + n < v.due[t] :: v.due[t])
  }

  lemma LaterAdds(v: View, a: nat, b: nat)
    ensures Later(Later(v, a), b) == Later(v, a + b)
  {
  }

  /** `s` files tasks of `v` in wake order; `base` is the time at which its tick count was 0. */
  ghost predicate Files(s: seq<Delayed>, base: nat, due: map<Task, nat>)
  {
    && Sorted(Wakes(s))
    && (forall i, j :: 0 <= i < j < |s| ==> s[i].task != s[j].task)
    && (forall i :: 0 <= i < |s| ==> s[i].wake < M && s[i].task in due && due[s[i].task] == base + s[i].wake)
  }

  /** The task is filed in `s`. */
  predicate In(t: Task, s: seq<Delayed>)
  {
    exists i :: 0 <= i < |s| && s[i].task == t
  }

  /** Two lists that between them file exactly the tasks of `v`: those due before the tick
      count next wraps, and those due after. */
  ghost predicate Refines(current: seq<Delayed>, overflow: seq<Delayed>, base: nat, v: View)
  {
    && Files(current, base, v.due) && Files(overflow, base + M, v.due)
    && base <= v.now < base + M
    && (forall t :: t in v.due ==> v.now <= v.due[t] < v.now + M)
    && (forall t {:trigger In(t, current)} {:trigger In(t, overflow)} ::
          t in v.due ==> if v.due[t] < base + M then In(t, current) else In(t, overflow))
  }

  lemma FileKeeps(s: seq<Delayed>, base: nat, due: map<Task, nat>, d: Delayed)
    requires Files(s, base, due) && d.task !in due && d.wake < M
    ensures Files(File(s, d), base, due[d.task := base + d.wake])
    ensures forall t :: In(t, File(s, d)) <==> t == d.task || In(t, s)
    ensures forall e :: e in File(s, d) ==> e == d || e in s
  {
    var p, r := FirstAbove(Wakes(s), d.wake), File(s, d);
    SortedInsert(Wakes(s), d.wake);
    assert Wakes(r) == InsertAt(Wakes(s), p, d.wake);
    forall t | t == d.task || In(t, s) ensures In(t, r) {
      if t == d.task { assert r[p].task == t; }
      else {
        var i :| 0 <= i < |s| && s[i].task == t;
        assert r[if i < p then i else i + 1].task == t;
      }
    }
  }

  lemma FileKeepsBound(s: seq<Delayed>, d: Delayed, time: nat)
    requires NoneBefore(s, time)
    ensures NoneBefore(File(s, d), if d.wake < time then d.wake else time)
  {
  }

  lemma FilesElsewhere(s: seq<Delayed>, base: nat, due: map<Task, nat>, t: Task, d: nat)
    requires Files(s, base, due) && t !in due
    ensures Files(s, base, due[t := d])
  {
  }

  lemma RemoveFiled(s: seq<Delayed>, base: nat, due: map<Task, nat>, p: nat)
    requires Files(s, base, due) && p < |s|
    ensures Files(RemoveAt(s, p), base, due - {s[p].task})
    ensures forall t :: In(t, RemoveAt(s, p)) <==> t != s[p].task && In(t, s)
  {
    var r := RemoveAt(s, p);
    assert Wakes(r) == RemoveAt(Wakes(s), p);
    forall t | t != s[p].task && In(t, s) ensures In(t, r) {
      var i :| 0 <= i < |s| && s[i].task == t;
      assert r[if i < p then i else i - 1].task == t;
    }
  }

  lemma FilesWithout(s: seq<Delayed>, base: nat, due: map<Task, nat>, t: Task)
    requires Files(s, base, due) && !In(t, s)
    ensures Files(s, base, due - {t})
  {
  }

  /** The view once `task` sleeps for `ticks` ticks. */
  function Asleep(v: View, task: Task, ticks: nat): (r: View)
  {
    v.(due := v.due[task := v.now + ticks])
  }

  /** Nobody is due yet. */
  ghost predicate NoneDue(v: View)
  {
    forall t :: t in v.due ==> v.now < v.due[t]
  }

  lemma BlockRefines(current: seq<Delayed>, overflow: seq<Delayed>, base: nat, v: View, d: Delayed, ticks: nat)
    requires Refines(current, overflow, base, v) && d.task !in v.due && 1 <= ticks < M && d.wake < M
    ensures v.now + ticks == base + d.wake ==> Refines(File(current, d), overflow, base, Asleep(v, d.task, ticks))
    ensures v.now + ticks == base + M + d.wake ==> Refines(current, File(overflow, d), base, Asleep(v, d.task, ticks))
  {
    if v.now + ticks == base + d.wake {
      FileKeeps(current, base, v.due, d);
      FilesElsewhere(overflow, base + M, v.due, d.task, v.now + ticks);
    } else if v.now + ticks == base + M + d.wake {
      FileKeeps(overflow, base + M, v.due, d);
      FilesElsewhere(current, base, v.due, d.task, v.now + ticks);
    }
  }

  predicate NoneBefore(s: seq<Delayed>, time: nat)
  {
    forall d :: d in s ==> time <= d.wake
  }

  function Without(v: View, task: Task): (r: View)
  {
    v.(due := v.due - {task})
  }

  lemma UnblockRefines(current: seq<Delayed>, overflow: seq<Delayed>, base: nat, v: View, p: nat)
    requires Refines(current, overflow, base, v)
    ensures p < |current| ==> Refines(RemoveAt(current, p), overflow, base, Without(v, current[p].task))
    ensures p < |overflow| ==> Refines(current, RemoveAt(overflow, p), base, Without(v, overflow[p].task))
  {
    if p < |current| {
      RemoveFiled(current, base, v.due, p);
      FilesWithout(overflow, base + M, v.due, current[p].task);
    }
    if p < |overflow| {
      RemoveFiled(overflow, base + M, v.due, p);
      FilesWithout(current, base, v.due, overflow[p].task);
    }
  }

  lemma HeadIsDue(current: seq<Delayed>, overflow: seq<Delayed>, base: nat, v: View)
    requires Refines(current, overflow, base, v) && v.now == base + M - 1 && current != []
    ensures !NoneDue(v)
  {
    assert v.due[current[0].task] == base + current[0].wake;
  }

  /** When the tick count wraps, nobody is left in the current list. */
  lemma WrapRefines(current: seq<Delayed>, overflow: seq<Delayed>, base: nat, v: View)
    requires Refines(current, overflow, base, v) && NoneDue(v) && v.now == base + M - 1
    ensures current == [] && Refines(overflow, [], base + M, v.(now := v.now + 1))
  {
    if current != [] { HeadIsDue(current, overflow, base, v); }
  }

  /** One tick on, before anyone is woken. */
  lemma TickRefines(current: seq<Delayed>, overflow: seq<Delayed>, base: nat, v: View)
    requires Refines(current, overflow, base, v) && NoneDue(v)
    ensures v.now + 1 < base + M ==> Refines(current, overflow, base, v.(now := v.now + 1))
    ensures v.now + 1 == base + M ==> current == [] && Refines(overflow, current, base + M, v.(now := v.now + 1))
  {
    if v.now + 1 == base + M { WrapRefines(current, overflow, base, v); }
  }

  lemma HeadIsFirst(s: seq<Delayed>)
    requires Sorted(Wakes(s))
    ensures s != [] ==> NoneBefore(s, s[0].wake)
  {
    forall d | d in s && s != [] ensures s[0].wake <= d.wake {
      var i :| 0 <= i < |s| && s[i] == d;
      assert Wakes(s)[0] <= Wakes(s)[i];
    }
  }

  /** The lists between ticks: nobody is due, and nobody in the current list is to wake
      before `next`. */
  ghost predicate Waiting(current: seq<Delayed>, overflow: seq<Delayed>, next: nat, base: nat, v: View)
  {
    Refines(current, overflow, base, v) && NoneDue(v) && NoneBefore(current, next)
  }

  lemma BlockWaits(current: seq<Delayed>, overflow: seq<Delayed>, next: nat, base: nat, v: View, d: Delayed, ticks: nat)
    requires Waiting(current, overflow, next, base, v) && d.task !in v.due && 1 <= ticks < M && d.wake < M
    ensures v.now + ticks == base + d.wake ==>
              Waiting(File(current, d), overflow, if d.wake < next then d.wake else next, base, Asleep(v, d.task, ticks))
    ensures v.now + ticks == base + M + d.wake ==>
              Waiting(current, File(overflow, d), next, base, Asleep(v, d.task, ticks))
  {
    BlockRefines(current, overflow, base, v, d, ticks);
    FileKeepsBound(current, d, next);
  }

  lemma NoneDueYet(current: seq<Delayed>, overflow: seq<Delayed>, next: nat, base: nat, v: View)
    requires Refines(current, overflow, base, v) && NoneBefore(current, next) && v.now < base + next
    ensures Waiting(current, overflow, next, base, v)
  {
    forall t | t in v.due ensures v.now < v.due[t] {
      if v.due[t] < base + M {
        assert In(t, current);
        var i :| 0 <= i < |current| && current[i].task == t;
        assert current[i] in current;
      }
    }
  }

  /** `cur` is `v` without the tasks woken so far, all of them due now. */
  ghost predicate Woke(v: View, woken: seq<Task>, cur: View)
  {
    && cur.now == v.now && cur.due == v.due - (set t | t in woken)
    && forall t :: t in woken ==> t in v.due && v.due[t] == v.now
  }

  /** Waking the head of the current list, which is due. */
  lemma WakeHead(current: seq<Delayed>, overflow: seq<Delayed>, base: nat, v: View, woken: seq<Task>, cur: View)
    requires Refines(current, overflow, base, cur) && Woke(v, woken, cur)
    requires current != [] && base + current[0].wake <= cur.now
    ensures var t := current[0].task;
            Refines(current[1..], overflow, base, Without(cur, t)) && Woke(v, woken + [t], Without(cur, t))
  {
    UnblockRefines(current, overflow, base, cur, 0);
    assert RemoveAt(current, 0) == current[1..];
    assert current[0].task in cur.due && cur.due[current[0].task] == base + current[0].wake;
  }

  /** Once nobody is due any more, exactly those due have been woken. */
  lemma AllWoken(v: View, woken: seq<Task>, cur: View)
    requires Woke(v, woken, cur) && NoneDue(cur) && forall t :: t in v.due ==> v.now <= v.due[t]
    ensures cur == Later(v, 0) && forall t :: t in woken <==> t in v.due && v.due[t] == v.now
  {
    assert forall t :: t in v.due && t !in woken ==> t in cur.due;
  }

  /** The tasks at the head of `s` have been woken, in order, and `rest` is left. */
  ghost predicate Popped(s: seq<Delayed>, woken: seq<Task>, rest: seq<Delayed>)
  {
    |woken| <= |s| && woken == Tasks(s[..|woken|]) && rest == s[|woken|..]
  }

  lemma PoppedNone(s: seq<Delayed>)
    ensures Popped(s, [], s)
  {
  }

  lemma PoppedOne(s: seq<Delayed>, woken: seq<Task>, rest: seq<Delayed>)
    requires Popped(s, woken, rest) && rest != []
    ensures Popped(s, woken + [rest[0].task], rest[1..])
  {
    var n := |woken|;
    assert s[..n + 1] == s[..n] + [s[n]];
  }

  /** A task is filed behind all that wake no later, in the order in which the list is read. */
  lemma FiledBehind(s: seq<Delayed>, d: Delayed) returns (p: nat)
    requires Sorted(Wakes(s))
    ensures p <= |s| && File(s, d)[p] == d && RemoveAt(File(s, d), p) == s
    ensures forall i :: 0 <= i < |s| ==> if i < p then s[i].wake <= d.wake else d.wake < s[i].wake
  {
    p := FirstAbove(Wakes(s), d.wake);
    SortedInsert(Wakes(s), d.wake);
    TakenOut(s, p, d);
    assert forall i :: 0 <= i < |s| ==> s[i].wake == Wakes(s)[i];
  }

  lemma TakenOut(s: seq<Delayed>, p: nat, d: Delayed)
    requires p <= |s|
    ensures RemoveAt(InsertAt(s, p, d), p) == s
  {
    var r := InsertAt(s, p, d);
    assert r[..p] == s[..p] && r[p + 1..] == s[p..];
  }

  lemma UnblockWaits(current: seq<Delayed>, overflow: seq<Delayed>, next: nat, base: nat, v: View, p: nat)
    requires Waiting(current, overflow, next, base, v)
    ensures p < |current| ==> Waiting(RemoveAt(current, p), overflow, next, base, Without(v, current[p].task))
    ensures p < |overflow| ==> Waiting(current, RemoveAt(overflow, p), next, base, Without(v, overflow[p].task))
  {
    UnblockRefines(current, overflow, base, v, p);
    assert p < |current| ==> forall d :: d in RemoveAt(current, p) ==> d in current;
  }

  /** Exactly those due by `time` have been woken. */
  ghost predicate WokenBy(woken: seq<Task>, v: View, time: nat)
  {
    forall t :: t in woken <==> t in v.due && v.due[t] <= time
  }

  /** `n` ticks after `v0`, with everyone due by then woken. */
  ghost predicate Replayed(v0: View, n: nat, woken: seq<Task>, v: View)
  {
    v == Later(v0, n) && WokenBy(woken, v0, v.now)
  }

  /** Nobody is woken before somebody who was due earlier. */
  ghost predicate ByDeadline(woken: seq<Task>, v: View)
  {
    forall i, j :: 0 <= i < j < |woken| && woken[i] in v.due && woken[j] in v.due ==> v.due[woken[i]] <= v.due[woken[j]]
  }

  lemma LaterWakes(v0: View, n: nat, woken: seq<Task>, v: View, more: seq<Task>)
    requires Replayed(v0, n, woken, v) && NoneDue(v) && WokenBy(more, v, v.now + 1) && ByDeadline(woken, v0)
    ensures ByDeadline(woken + more, v0)
  {
    var all := woken + more;
    forall i, j | 0 <= i < j < |all| && all[i] in v0.due && all[j] in v0.due ensures v0.due[all[i]] <= v0.due[all[j]] {
      if j >= |woken| {
        assert all[j] in more && v0.due[all[j]] == v.now + 1;
        assert if i < |woken| then all[i] in woken else all[i] in more;
      }
    }
  }

  lemma ReplayNothing(v: View)
    requires NoneDue(v)
    ensures Replayed(v, 0, [], v)
  {
  }

  lemma ReplayOne(v0: View, n: nat, woken: seq<Task>, v: View, more: seq<Task>)
    requires Replayed(v0, n, woken, v) && WokenBy(more, v, v.now + 1)
    ensures Replayed(v0, n + 1, woken + more, Later(v, 1))
  {
    LaterAdds(v0, n, 1);
  }

  // ----- runs -----

  /** What can happen: ticks, processed live or replayed; a task going to sleep; a task
      taken out of its list early. */
  datatype Event = Ticks(n: nat) | Sleeps(task: Task, ticks: nat) | Readied(task: Task)

  function Apply(v: View, e: Event): (r: View)
  {
    match e
    case Ticks(n) => Later(v, n)
    case Sleeps(t, ticks) => Asleep(v, t, ticks)
    case Readied(t) => Without(v, t)
  }

  function Run(v: View, events: seq<Event>): (r: View)
    decreases |events|
  {
    if events == [] then v else Run(Apply(v, events[0]), events[1..])
  }

  /** The event is not about `t`. */
  predicate Spares(e: Event, t: Task)
  {
    match e
    case Ticks(_) => true
    case Sleeps(t', _) => t' != t
    case Readied(t') => t' != t
  }

  /** `t` is filed for `due` until then, and not at all from then on. */
  ghost predicate Pending(v: View, t: Task, due: nat)
  {
    if v.now < due then t in v.due && v.due[t] == due else t !in v.due
  }

  /** Whatever else happens, a sleeping task that nothing readies stays delayed until its
      deadline, and is delayed no longer from that very tick on. */
  lemma {:induction false} SleepsExactlyUntilDue(v: View, events: seq<Event>, t: Task, due: nat)
    requires Pending(v, t, due) && forall e :: e in events ==> Spares(e, t)
    ensures Pending(Run(v, events), t, due)
    decreases |events|
  {
    if events != [] {
      assert Spares(events[0], t);
      assert forall e :: e in events[1..] ==> e in events;
      SleepsExactlyUntilDue(Apply(v, events[0]), events[1..], t, due);
    }
  }

  // ----- wrapped arithmetic -----

  /** `tick` is what the tick count shows at `time`. */
  ghost predicate IsTickAt(tick: nat, time: nat)
  {
    time % M == tick
  }

  /** The comparisons made on wrapped ticks. */
  predicate DelayUntilReports(tick: nat, previous: nat, next: nat)
  {
    if tick < previous then next < previous && next > tick else next < previous || next > tick
  }

  lemma DelayUntilRecent(wraps: nat, tick: nat, previous: nat, increment: nat, last: nat)
    requires tick < M && previous < M && 1 <= increment < M && IsTickAt(previous, last)
    requires last <= wraps * M + tick < last + M
    ensures var now, next := wraps * M + tick, (previous + increment) % M;
            && IsTickAt(next, last + increment)
            && (DelayUntilReports(tick, previous, next) <==> now < last + increment)
            && (now < last + increment ==> (next - tick) % M == last + increment - now)
  {
    var k := last / M;
    assert last == k * M + previous;
    assert k == wraps || k + 1 == wraps;
    var next := (previous + increment) % M;
    assert next == if previous + increment < M then previous + increment else previous + increment - M;
    var due := last + increment;
    assert due == (if previous + increment < M then k else k + 1) * M + next;
    assert due % M == next;
  }

  /** How long ago the previous wake time seems to be: whole turns of the tick count are lost. */
  function Seen(last: nat, now: nat): (r: nat)
    requires last <= now
    ensures r <= now - last && (now < last + M ==> r == now - last)
    ensures (now - r) % M == last % M && r < M
  {
    TurnsAreLost(now - last, last);
    (now - last) % M
  }

  lemma TurnsAreLost(ago: nat, last: nat)
    ensures ago % M <= ago && (last + ago - ago % M) % M == last % M
  {
    var k := ago / M;
    assert ago == k * M + ago % M;
    AddTurns(last, k);
  }

  lemma {:induction false} AddTurns(n: nat, k: nat)
    ensures (n + k * M) % M == n % M
  {
    if k > 0 {
      AddTurns(n, k - 1);
      assert n + k * M == (n + (k - 1) * M) + M;
    }
  }

  /** The comparisons are right unless the previous wake time is a full turn ago or more,
      and seems to be less than the increment. */
  predicate DelayUntilSees(last: nat, now: nat, increment: nat)
    requires last <= now
  {
    now < last + M || Seen(last, now) >= increment
  }

  /** They decide whether the true time is ahead, if and only if `DelayUntilSees`. */
  lemma DelayUntilExact(wraps: nat, tick: nat, previous: nat, increment: nat, last: nat)
    requires tick < M && previous < M && 1 <= increment < M && IsTickAt(previous, last)
    requires last <= wraps * M + tick
    ensures var now, next := wraps * M + tick, (previous + increment) % M;
            && IsTickAt(next, last + increment)
            && ((DelayUntilReports(tick, previous, next) <==> now < last + increment) <==> DelayUntilSees(last, now, increment))
            && (DelayUntilReports(tick, previous, next) <==> Seen(last, now) < increment)
            && (DelayUntilReports(tick, previous, next) ==> (next - tick) % M == increment - Seen(last, now))
  {
    var now := wraps * M + tick;
    DelayUntilRecent(wraps, tick, previous, increment, now - Seen(last, now));
    SameTick(last, now - Seen(last, now), increment);
  }

  lemma SameTick(a: nat, b: nat, increment: nat)
    requires a % M == b % M
    ensures (a + increment) % M == (b + increment) % M
  {
  }

  /** A wake time one full turn ago, due one tick later: it has long passed, and the
      comparisons put it ahead. */
  lemma DelayUntilMissed()
    ensures DelayUntilReports(0, 0, 1) && 0 + 1 <= M && !DelayUntilSees(0, M, 1)
  {
  }

  datatype TimeOut = TimeOut(overflows: nat, tick: nat)

  /** What the timeout test concludes from the wrapped counts. */
  predicate TimeOutReports(overflows0: nat, tick0: nat, overflows: nat, tick: nat, wait: nat)
  {
    (overflows != overflows0 && tick >= tick0) || (tick - tick0) % M >= wait
  }

  /** The test is right unless the tick count has wrapped more than once and is short of
      the start, by less than the wait, or the count of wraps itself has come round. */
  predicate TimeOutSees(wraps0: nat, tick0: nat, wraps: nat, tick: nat, wait: nat)
  {
    if tick < tick0 then wraps <= wraps0 + 1 || tick + M - tick0 >= wait
    else wraps == wraps0 || wraps % M != wraps0 % M || tick - tick0 >= wait
  }

  /** The report is right if and only if `TimeOutSees`; one wrap since the start, which is
      what the code counts on, is enough. */
  lemma TimeOutExact(wraps0: nat, tick0: nat, wraps: nat, tick: nat, wait: nat)
    requires tick0 < M && tick < M && wait < M && wraps0 * M + tick0 <= wraps * M + tick
    ensures (TimeOutReports(wraps0 % M, tick0, wraps % M, tick, wait) <==> wraps0 * M + tick0 + wait <= wraps * M + tick)
            <==> TimeOutSees(wraps0, tick0, wraps, tick, wait)
    ensures wraps <= wraps0 + 1 ==> TimeOutSees(wraps0, tick0, wraps, tick, wait)
    ensures TimeOutSees(wraps0, tick0, wraps, tick, wait) && !TimeOutReports(wraps0 % M, tick0, wraps % M, tick, wait) ==>
              wraps * M + tick - (wraps0 * M + tick0) == (tick - tick0) % M
  {
    assert wraps0 <= wraps;
    assert (tick - tick0) % M == if tick < tick0 then tick - tick0 + M else tick - tick0;
    if wraps == wraps0 + 1 { NextDiffers(wraps0); }
  }

  /** A wait of 100 ticks, of which nearly two turns of the tick count have passed: it has
      run out, and the test does not report it. */
  lemma TimeOutMissed()
    ensures 0 * M + (M - 1) + 100 <= 2 * M + 0 && !TimeOutReports(0, M - 1, 2, 0, 100)
    ensures !TimeOutSees(0, M - 1, 2, 0, 100)
  {
  }

  /** What the kernel notes of an unbounded time: how often the tick count has wrapped, itself
      wrapped, and the tick count. */
  predicate IsSnapshot(o: TimeOut, time: nat)
  {
    o.tick == time % M && o.overflows == time / M % M
  }

  lemma Wrapped(wraps: nat, tick: nat)
    requires tick < M
    ensures (wraps * M + tick) / M == wraps && (wraps * M + tick) % M == tick
  {
  }

  lemma NextWrap(overflows: nat, wraps: nat)
    requires overflows == wraps % M
    ensures (overflows + 1) % M == (wraps + 1) % M
  {
  }

  lemma WakeTick(tick: nat, ticks: nat)
    requires tick < M && ticks < M
    ensures (tick + ticks) % M == if tick + ticks < M then tick + ticks else tick + ticks - M
  {
  }

  lemma StartsAt(start: nat, wraps: nat, tick: nat)
    requires tick < M && start <= wraps * M + tick
    ensures start == start / M * M + start % M && start / M <= wraps
    ensures wraps * M + tick < start + M ==> wraps <= start / M + 1
  {
  }

  lemma NextDiffers(n: nat)
    ensures n % M != (n + 1) % M
  {
  }

  // ----- the kernel's state -----

  class Clock {
    var tick: nat
    var delayed: seq<Delayed>
    var overflow: seq<Delayed>
    var parked: seq<Task>  // blocked indefinitely
    var nextUnblock: nat
    var overflows: nat
    var suspended: nat
    var pended: nat
    ghost var wraps: nat
    ghost var base: nat  // when the tick count was last 0
    ghost var view: View

    ghost predicate Valid()
      reads this
    {
      && tick < M && view.now == base + tick && base == wraps * M && overflows == wraps % M
      && Waiting(delayed, overflow, nextUnblock, base, view)
    }

    ghost function Now(): (m: Machine)
      reads this
    {
      Machine(view, suspended, pended)
    }

    constructor ()
      ensures Valid() && view == View(0, map[]) && suspended == 0 && pended == 0
    {
      tick, delayed, overflow, parked, nextUnblock := 0, [], [], [], MAX_DELAY;
      overflows, suspended, pended, wraps, base, view := 0, 0, 0, 0, 0, View(0, map[]);
    }

    /** Puts the current task to sleep for `ticks` ticks, or for good. */
    method Block(task: Task, ticks: nat, indefinitely: bool)
      requires Valid() && 1 <= ticks < M && task !in view.due
      modifies this`delayed, this`overflow, this`parked, this`nextUnblock, this`view
      ensures Valid()
      ensures if ticks == MAX_DELAY && indefinitely then
                parked == old(parked) + [task] && view == old(view) && delayed == old(delayed) && overflow == old(overflow)
              else
                && parked == old(parked) && view == Asleep(old(view), task, ticks)
                && view.due == old(view).due[task := old(view).now + ticks] && view.now == old(view).now
                && FiledIn(old(delayed), old(overflow), Delayed(task, (tick + ticks) % M))
    {
      if ticks == MAX_DELAY && indefinitely {
        parked := parked + [task];
      } else {
        var wake := (tick + ticks) % M;
        WakeTick(tick, ticks);
        FileTask(Delayed(task, wake), ticks);
      }
    }

    /** One of the lists has got another task, at its place. */
    ghost predicate FiledIn(delayed0: seq<Delayed>, overflow0: seq<Delayed>, d: Delayed)
      reads this`delayed, this`overflow
    {
      || (delayed == File(delayed0, d) && overflow == overflow0)
      || (delayed == delayed0 && overflow == File(overflow0, d))
    }

    method FileTask(d: Delayed, ghost ticks: nat)
      requires Valid() && 1 <= ticks < M && d.task !in view.due && d.wake < M
      requires d.wake == if tick + ticks < M then tick + ticks else tick + ticks - M
      modifies this`delayed, this`overflow, this`nextUnblock, this`view
      ensures Valid() && view == Asleep(old(view), d.task, ticks) && FiledIn(old(delayed), old(overflow), d)
    {
      BlockWaits(delayed, overflow, nextUnblock, base, view, d, ticks);
      view := Asleep(view, d.task, ticks);
      if d.wake < tick {
        overflow := File(overflow, d);
      } else {
        delayed := File(delayed, d);
        if d.wake < nextUnblock { nextUnblock := d.wake; }
      }
    }

    ghost predicate Between(v: View)
      reads this
    {
      && tick < M && v.now == base + tick && base == wraps * M && overflows == wraps % M
      && Refines(delayed, overflow, base, v)
    }

    /** The tick count moves on; the lists change places if it wraps. */
    method Advance()
      requires Valid()
      modifies this`tick, this`delayed, this`overflow, this`nextUnblock, this`overflows, this`wraps, this`base
      ensures Between(view.(now := view.now + 1)) && NoneBefore(delayed, nextUnblock)
      ensures tick == (old(tick) + 1) % M && delayed == if tick == 0 then old(overflow) else old(delayed)
    {
      TickRefines(delayed, overflow, base, view);
      WakeTick(tick, 1);
      NextWrap(overflows, wraps);
      tick := (tick + 1) % M;
      if tick == 0 {
        SwitchLists();
      }
    }

    method SwitchLists()
      modifies this`delayed, this`overflow, this`nextUnblock, this`overflows, this`wraps, this`base
      ensures delayed == old(overflow) && overflow == old(delayed)
      ensures wraps == old(wraps) + 1 && base == old(base) + M && overflows == (old(overflows) + 1) % M
      ensures Sorted(Wakes(delayed)) ==> NoneBefore(delayed, nextUnblock)
    {
      delayed, overflow := overflow, delayed;
      overflows := (overflows + 1) % M;
      nextUnblock := if delayed == [] then MAX_DELAY else delayed[0].wake;
      wraps, base := wraps + 1, base + M;
      if Sorted(Wakes(delayed)) { HeadIsFirst(delayed); }
    }

    /** Wakes the tasks at the head of the current list that are due. */
    method WakeDue(ghost v: View) returns (woken: seq<Task>)
      requires Between(v) && NoneBefore(delayed, nextUnblock)
      modifies this`delayed, this`nextUnblock, this`view
      ensures Valid() && view == Later(v, 0)
      ensures forall t :: t in woken <==> t in v.due && v.due[t] == v.now
      ensures Popped(old(delayed), woken, delayed)
    {
      woken := [];
      view := v;
      PoppedNone(delayed);
      if tick >= nextUnblock {
        while true
          invariant Between(view) && Woke(v, woken, view) && Popped(old(delayed), woken, delayed)
          decreases |delayed|
        {
          if delayed == [] {
            nextUnblock := MAX_DELAY;
            break;
          }
          var head := delayed[0];
          if tick < head.wake {
            nextUnblock := head.wake;
            break;
          }
          WakeHead(delayed, overflow, base, v, woken, view);
          PoppedOne(old(delayed), woken, delayed);
          delayed := delayed[1..];
          woken := woken + [head.task];
          view := Without(view, head.task);
        }
      }
      SleepOn();
      AllWoken(v, woken, view);
    }

    /** The next wake time has just been brought up to date, or is still ahead. */
    ghost method SleepOn()
      requires Between(view)
      requires if delayed != [] && nextUnblock == delayed[0].wake then tick < nextUnblock
               else NoneBefore(delayed, nextUnblock) && (delayed == [] || tick < nextUnblock)
      ensures Valid()
    {
      HeadIsFirst(delayed);
      NoneDueYet(delayed, overflow, if delayed == [] then M else nextUnblock, base, view);
    }

    /** A tick interrupt: counted if the scheduler is suspended, otherwise processed. */
    method Tick() returns (woken: seq<Task>)
      requires Valid()
      modifies this
      ensures Valid() && suspended == old(suspended)
      ensures old(suspended) > 0 ==> pended == old(pended) + 1 && view == old(view) && woken == []
      ensures old(suspended) == 0 ==> view == Later(old(view), 1) && pended == old(pended)
      ensures old(suspended) == 0 ==> WokenBy(woken, old(view), view.now)
      ensures old(suspended) == 0 ==> Popped(if tick == 0 then old(overflow) else old(delayed), woken, delayed)
      ensures parked == old(parked) && tick == if old(suspended) == 0 then (old(tick) + 1) % M else old(tick)
    {
      if suspended > 0 {
        pended := pended + 1;
        return [];
      }
      ghost var v := view.(now := view.now + 1);
      assert forall t :: t in v.due ==> v.now <= v.due[t];
      Advance();
      woken := WakeDue(v);
    }

    /** An event, a resume, an abort or a deletion takes the task out of its list early. */
    method Unblock(task: Task)
      requires Valid() && task in view.due
      modifies this`delayed, this`overflow, this`view
      ensures Valid() && view == Without(old(view), task)
    {
      assert In(task, delayed) || In(task, overflow);
      if In(task, delayed) {
        var p :| 0 <= p < |delayed| && delayed[p].task == task;
        UnblockWaits(delayed, overflow, nextUnblock, base, view, p);
        delayed := RemoveAt(delayed, p);
      } else {
        var p :| 0 <= p < |overflow| && overflow[p].task == task;
        UnblockWaits(delayed, overflow, nextUnblock, base, view, p);
        overflow := RemoveAt(overflow, p);
      }
      view := Without(view, task);
    }

    method SuspendAll()
      requires Valid()
      modifies this`suspended
      ensures Valid() && suspended == old(suspended) + 1
    {
      suspended := suspended + 1;
    }

    /** Processes `n` ticks. */
    method Replay(n: nat) returns (woken: seq<Task>)
      requires Valid() && suspended == 0
      modifies this
      ensures Valid() && suspended == 0 && Replayed(old(view), n, woken, view)
      ensures parked == old(parked) && pended == old(pended) && ByDeadline(woken, old(view))
    {
      woken := [];
      var left := n;
      ReplayNothing(view);
      while left > 0
        invariant Valid() && suspended == 0 && 0 <= left <= n && parked == old(parked) && pended == old(pended)
        invariant Replayed(old(view), n - left, woken, view) && ByDeadline(woken, old(view))
      {
        ghost var v := view;
        var more := Tick();
        LaterWakes(old(view), n - left, woken, v, more);
        ReplayOne(old(view), n - left, woken, v, more);
        woken := woken + more;
        left := left - 1;
      }
    }

    /** The next wake time is taken from the head of the current list. */
    method ResetNextUnblock()
      requires Valid()
      modifies this`nextUnblock
      ensures Valid() && nextUnblock == if delayed == [] then MAX_DELAY else delayed[0].wake
    {
      HeadIsFirst(delayed);
      nextUnblock := if delayed == [] then MAX_DELAY else delayed[0].wake;
    }

    /** Lets the scheduler run again, and processes the ticks counted in the meantime.  The
        next wake time is out of date if events have readied tasks in the meantime. */
    method ResumeAll(readied: bool) returns (woken: seq<Task>)
      requires Valid() && suspended > 0
      modifies this
      ensures Valid() && suspended == old(suspended) - 1
      ensures suspended > 0 ==> pended == old(pended) && view == old(view) && woken == []
      ensures suspended == 0 ==> pended == 0 && Replayed(old(view), old(pended), woken, view)
      ensures parked == old(parked) && ByDeadline(woken, old(view))
    {
      woken := [];
      suspended := suspended - 1;
      if suspended == 0 {
        if readied { ResetNextUnblock(); }
        woken := Replay(pended);
        pended := 0;
      }
    }

    /** Sleeps until `increment` ticks after the previous wake time, unless that is past. */
    method DelayUntil(task: Task, previous: nat, increment: nat, ghost last: nat)
      returns (next: nat, delayed': bool)
      requires Valid() && task !in view.due && 1 <= increment < M && previous < M
      requires last <= view.now && IsTickAt(previous, last)
      modifies this`delayed, this`overflow, this`parked, this`nextUnblock, this`view
      ensures Valid() && next < M && IsTickAt(next, last + increment)
      ensures (delayed' <==> view.now < last + increment) <==> DelayUntilSees(last, view.now, increment)
      ensures view.now < last + M ==> (delayed' <==> view.now < last + increment)
      ensures delayed' && DelayUntilSees(last, view.now, increment) ==>
                view == View(old(view).now, old(view).due[task := last + increment])
      ensures view == if delayed' then Asleep(old(view), task, increment - Seen(last, old(view).now)) else old(view)
    {
      next := (previous + increment) % M;
      DelayUntilExact(wraps, tick, previous, increment, last);
      delayed' := DelayUntilReports(tick, previous, next);
      if delayed' { Block(task, (next - tick) % M, false); }
    }

    /** Notes the time at which a wait starts. */
    method SetTimeOut() returns (o: TimeOut)
      requires Valid()
      ensures IsSnapshot(o, view.now)
    {
      Wrapped(wraps, tick);
      o := TimeOut(overflows, tick);
    }

    /** Has the wait that started at `start`, when `o` was noted, run out?  If not, the wait
        is restarted for what is left of it. */
    method CheckForTimeOut(o: TimeOut, wait: nat, aborted: bool, ghost start: nat)
      returns (expired: bool, o': TimeOut, wait': nat)
      requires Valid() && wait < M && IsSnapshot(o, start) && start <= view.now
      ensures aborted ==> expired
      ensures !aborted && wait == MAX_DELAY ==> !expired && o' == o && wait' == wait
      ensures !aborted && wait < MAX_DELAY ==>
                ((expired <==> start + wait <= view.now) <==> TimeOutSees(start / M, start % M, wraps, tick, wait))
      ensures !expired && wait < MAX_DELAY ==> IsSnapshot(o', view.now) && wait' <= wait
      ensures !expired && wait < MAX_DELAY && TimeOutSees(start / M, start % M, wraps, tick, wait) ==>
                view.now + wait' == start + wait
      ensures wraps <= start / M + 1 ==> TimeOutSees(start / M, start % M, wraps, tick, wait)
    {
      ghost var wraps0 := start / M;
      StartsAt(start, wraps, tick);
      o', wait' := o, wait;
      if aborted { return true, o', wait'; }
      if wait == MAX_DELAY { return false, o', wait'; }
      TimeOutExact(wraps0, o.tick, wraps, tick, wait);
      if overflows != o.overflows && tick >= o.tick { return true, o', wait'; }
      var elapsed := (tick - o.tick) % M;
      if elapsed < wait {
        wait' := wait - elapsed;
        o' := SetTimeOut();
        return false, o', wait';
      }
      expired := true;
    }
  }

  // ----- runs of the kernel -----

  /** What the kernel is asked to do: a tick interrupt, a task going to sleep or taken out of
      its list early, the scheduler suspended and resumed. */
  datatype Act = Tick | Sleep(task: Task, ticks: nat) | Ready(task: Task) | Suspend | Resume(readied: bool)

  datatype Machine = Machine(view: View, suspended: nat, pended: nat)

  predicate CanHappen(m: Machine, a: Act)
  {
    match a
    case Tick => true
    case Sleep(t, ticks) => t !in m.view.due && 1 <= ticks < M
    case Ready(t) => t in m.view.due
    case Suspend => true
    case Resume(_) => m.suspended > 0
  }

  /** The event that the act amounts to, if any: a tick counts at once, or, if the scheduler
      is suspended, together with the others when it is resumed. */
  function EventOf(m: Machine, a: Act): (r: seq<Event>)
  {
    match a
    case Tick => if m.suspended > 0 then [] else [Ticks(1)]
    case Sleep(t, ticks) => [Sleeps(t, ticks)]
    case Ready(t) => [Readied(t)]
    case Suspend => []
    case Resume(_) => if m.suspended == 1 then [Ticks(m.pended)] else []
  }

  function Do(m: Machine, a: Act): (r: Machine)
  {
    match a
    case Tick => if m.suspended > 0 then m.(pended := m.pended + 1) else m.(view := Later(m.view, 1))
    case Sleep(t, ticks) => m.(view := Asleep(m.view, t, ticks))
    case Ready(t) => m.(view := Without(m.view, t))
    case Suspend => m.(suspended := m.suspended + 1)
    case Resume(_) =>
      if m.suspended == 1 then Machine(Later(m.view, m.pended), 0, 0)
      else if m.suspended == 0 then m else m.(suspended := m.suspended - 1)
  }

  function DoAll(m: Machine, acts: seq<Act>): (r: Machine)
    decreases |acts|
  {
    if acts == [] then m else DoAll(Do(m, acts[0]), acts[1..])
  }

  function EventsOf(m: Machine, acts: seq<Act>): (r: seq<Event>)
    decreases |acts|
  {
    if acts == [] then [] else EventOf(m, acts[0]) + EventsOf(Do(m, acts[0]), acts[1..])
  }

  predicate Possible(m: Machine, acts: seq<Act>)
    decreases |acts|
  {
    acts == [] || (CanHappen(m, acts[0]) && Possible(Do(m, acts[0]), acts[1..]))
  }

  lemma {:induction false} RunAppend(v: View, a: seq<Event>, b: seq<Event>)
    ensures Run(v, a + b) == Run(Run(v, a), b)
    decreases |a|
  {
    if a == [] {
      assert a + b == b;
    } else {
      assert (a + b)[1..] == a[1..] + b;
      RunAppend(Apply(v, a[0]), a[1..], b);
    }
  }

  lemma RunOne(v: View, e: Event)
    ensures Run(v, [e]) == Apply(v, e)
  {
    assert [e][1..] == [];
  }

  lemma DoIsARun(m: Machine, a: Act)
    ensures Do(m, a).view == Run(m.view, EventOf(m, a))
  {
    if EventOf(m, a) != [] { RunOne(m.view, EventOf(m, a)[0]); }
  }

  /** Whatever is suspended and resumed in between, the acts come to a run of events: what
      holds of every run of events holds of every run of the kernel. */
  lemma {:induction false} ActsAreARun(m: Machine, acts: seq<Act>)
    ensures DoAll(m, acts).view == Run(m.view, EventsOf(m, acts))
    decreases |acts|
  {
    if acts != [] {
      DoIsARun(m, acts[0]);
      ActsAreARun(Do(m, acts[0]), acts[1..]);
      RunAppend(m.view, EventOf(m, acts[0]), EventsOf(Do(m, acts[0]), acts[1..]));
    }
  }

  predicate Leaves(a: Act, t: Task)
  {
    match a
    case Sleep(t', _) => t' != t
    case Ready(t') => t' != t
    case _ => true
  }

  /** The kernel wakes a task that nothing readies at its deadline, counted in ticks that
      have been processed, whatever else it is asked to do. */
  lemma {:induction false} WakesExactlyWhenDue(m: Machine, acts: seq<Act>, t: Task, due: nat)
    requires Pending(m.view, t, due) && forall a :: a in acts ==> Leaves(a, t)
    ensures Pending(DoAll(m, acts).view, t, due)
    decreases |acts|
  {
    if acts != [] {
      DoIsARun(m, acts[0]);
      assert Leaves(acts[0], t);
      assert forall e :: e in EventOf(m, acts[0]) ==> Spares(e, t);
      SleepsExactlyUntilDue(m.view, EventOf(m, acts[0]), t, due);
      assert forall a :: a in acts[1..] ==> a in acts;
      WakesExactlyWhenDue(Do(m, acts[0]), acts[1..], t, due);
    }
  }

  /** A task that goes to sleep for `ticks` ticks stays delayed for exactly that many, whatever
      else the kernel is asked to do in the meantime. */
  lemma SleepsItsTicks(m: Machine, t: Task, ticks: nat, acts: seq<Act>)
    requires CanHappen(m, Sleep(t, ticks)) && forall a :: a in acts ==> Leaves(a, t)
    ensures Pending(DoAll(m, [Sleep(t, ticks)] + acts).view, t, m.view.now + ticks)
  {
    var all := [Sleep(t, ticks)] + acts;
    assert all[1..] == acts;
    WakesExactlyWhenDue(Do(m, all[0]), acts, t, m.view.now + ticks);
  }

  /** How many of the acts are ticks. */
  function TicksIn(acts: seq<Act>): (n: nat)
  {
    if acts == [] then 0 else (if acts[0].Tick? then 1 else 0) + TicksIn(acts[1..])
  }

  /** No tick is lost and none is counted twice: those that happened have been processed or
      are still pended. */
  lemma {:induction false} NoTickIsLost(m: Machine, acts: seq<Act>)
    requires Possible(m, acts)
    ensures var r := DoAll(m, acts); r.view.now + r.pended == m.view.now + m.pended + TicksIn(acts)
    decreases |acts|
  {
    if acts != [] { NoTickIsLost(Do(m, acts[0]), acts[1..]); }
  }

  /** One act on the kernel's own lists. */
  method PerformOne(c: Clock, a: Act)
    requires c.Valid() && CanHappen(c.Now(), a)
    modifies c
    ensures c.Valid() && c.Now() == Do(old(c.Now()), a) && c.parked == old(c.parked)
  {
    match a
    case Tick => var woken := c.Tick();
    case Sleep(t, ticks) => c.Block(t, ticks, false);
    case Ready(t) => c.Unblock(t);
    case Suspend => c.SuspendAll();
    case Resume(readied) => var woken := c.ResumeAll(readied);
  }

  /** The kernel's calls carry out any run of acts, tasks going to sleep and being readied
      while ticks are pended included. */
  method Perform(c: Clock, acts: seq<Act>)
    requires c.Valid() && Possible(c.Now(), acts)
    modifies c
    ensures c.Valid() && c.Now() == DoAll(old(c.Now()), acts)
    ensures c.view == Run(old(c.view), EventsOf(old(c.Now()), acts)) && c.parked == old(c.parked)
  {
    ActsAreARun(c.Now(), acts);
    for i := 0 to |acts|
      invariant c.Valid() && Possible(c.Now(), acts[i..]) && c.parked == old(c.parked)
      invariant DoAll(c.Now(), acts[i..]) == DoAll(old(c.Now()), acts)
    {
      assert acts[i..][0] == acts[i] && acts[i..][1..] == acts[i + 1..];
      PerformOne(c, acts[i]);
    }
  }
}
