/**
 Mutexes with priority inheritance: the counts and priorities that the kernel keeps in
 the task control blocks and in the mutexes, updated by whichever task is running.
 */
module KernelMutex {
  import opened Options

  type Task = nat
  type Mutex = nat

  datatype Tcb = Tcb(priority: nat, base: nat, held: nat)
  datatype Lock = Lock(messages: nat, holder: Option<Task>)

  function Max(a: nat, b: nat): nat { if a < b then b else a }

  /** The mutexes that name `t` as their holder. */
  ghost function HeldBy(mutexes: map<Mutex, Lock>, t: Task): (r: set<Mutex>)
  {
    set m | m in mutexes && mutexes[m].holder == Some(t)
  }

  /** What the counts and priorities say: a mutex is available or held by a task, never
      both and never neither; a task's count is the number of mutexes it holds; and its
      priority is its own, or that of the most urgent task it has kept waiting since it
      last held no mutex (`boost`). */
  ghost predicate Accounted(tasks: map<Task, Tcb>, mutexes: map<Mutex, Lock>, boost: map<Task, nat>)
  {
    && boost.Keys == tasks.Keys
    && (forall m :: m in mutexes ==> mutexes[m].messages == if mutexes[m].holder.None? then 1 else 0)
    && (forall m :: m in mutexes && mutexes[m].holder.Some? ==> mutexes[m].holder.value in tasks)
    && (forall t :: t in tasks ==> tasks[t].held == |HeldBy(mutexes, t)|)
    && (forall t :: t in tasks ==> tasks[t].priority == Max(tasks[t].base, boost[t]))
    && (forall t :: t in tasks && tasks[t].held == 0 ==> boost[t] == 0)
  }

  lemma HolderChanges(mutexes: map<Mutex, Lock>, m: Mutex, l: Lock, t: Task)
    requires m in mutexes
    ensures var before, after := HeldBy(mutexes, t), HeldBy(mutexes[m := l], t);
            after == if l.holder == Some(t) then before + {m} else before - {m}
  {
  }

  datatype State = State(tasks: map<Task, Tcb>, mutexes: map<Mutex, Lock>, boost: map<Task, nat>)

  ghost predicate Good(s: State) { Accounted(s.tasks, s.mutexes, s.boost) }

  ghost predicate Holds(s: State, t: Task, m: Mutex) { m in s.mutexes && s.mutexes[m].holder == Some(t) }

  // ----- what the running task can do -----

  /** `t` takes a mutex that is available. */
  function Taken(s: State, t: Task, m: Mutex): (r: State)
    requires t in s.tasks
  {
    s.(tasks := s.tasks[t := s.tasks[t].(held := s.tasks[t].held + 1)], mutexes := s.mutexes[m := Lock(0, Some(t))])
  }

  /** `t` is about to wait for a mutex held by `h`, which inherits its priority. */
  function Inherited(s: State, t: Task, h: Task): (r: State)
    requires t in s.tasks && h in s.tasks
  {
    var p := s.tasks[t].priority;
    if s.tasks[h].priority < p then s.(tasks := s.tasks[h := s.tasks[h].(priority := p)], boost := s.boost[h := p]) else s
  }

  /** The tasks once `h` uses at least the priority `p`. */
  function Raised(tasks: map<Task, Tcb>, h: Task, p: nat): (r: map<Task, Tcb>)
    requires h in tasks
  {
    tasks[h := tasks[h].(priority := Max(tasks[h].priority, p))]
  }

  /** A mutex that `t` holds is given back. */
  function Given(s: State, t: Task, m: Mutex): (r: State)
    requires t in s.tasks && t in s.boost && 0 < s.tasks[t].held
  {
    var c, k := s.tasks[t], s.tasks[t].held - 1;
    State(s.tasks[t := Tcb(if k == 0 then c.base else c.priority, c.base, k)],
          s.mutexes[m := Lock(1, None)], s.boost[t := if k == 0 then 0 else s.boost[t]])
  }

  lemma TakenCounts(s: State, t: Task, m: Mutex, u: Task)
    requires Good(s) && m in s.mutexes && s.mutexes[m].holder.None? && t in s.tasks && u in s.tasks
    ensures |HeldBy(Taken(s, t, m).mutexes, u)| == |HeldBy(s.mutexes, u)| + if u == t then 1 else 0
  {
    HolderChanges(s.mutexes, m, Lock(0, Some(t)), u);
    assert m !in HeldBy(s.mutexes, u);
    assert u != t ==> HeldBy(s.mutexes, u) - {m} == HeldBy(s.mutexes, u);
  }

  lemma TakenIsGood(s: State, t: Task, m: Mutex)
    requires Good(s) && m in s.mutexes && s.mutexes[m].holder.None? && t in s.tasks
    ensures Good(Taken(s, t, m)) && OnlyDropsWhenFree(s, Taken(s, t, m))
  {
    forall u | u in s.tasks ensures Taken(s, t, m).tasks[u].held == |HeldBy(Taken(s, t, m).mutexes, u)| {
      TakenCounts(s, t, m, u);
    }
  }

  lemma HolderCounts(s: State, t: Task, m: Mutex)
    requires Good(s) && Holds(s, t, m)
    ensures t in s.tasks && 0 < s.tasks[t].held
  {
    assert m in HeldBy(s.mutexes, t);
  }

  lemma InheritedIsGood(s: State, t: Task, m: Mutex)
    requires Good(s) && m in s.mutexes && s.mutexes[m].holder.Some? && t in s.tasks
    ensures var h := s.mutexes[m].holder.value;
            && h in s.tasks && Good(Inherited(s, t, h)) && OnlyDropsWhenFree(s, Inherited(s, t, h))
            && s.tasks[t].priority <= Inherited(s, t, h).tasks[h].priority
  {
    var h, s' := s.mutexes[m].holder.value, Inherited(s, t, s.mutexes[m].holder.value);
    HolderCounts(s, h, m);
    assert s'.mutexes == s.mutexes;
    forall u | u in s'.tasks ensures s'.tasks[u].held == |HeldBy(s'.mutexes, u)| && DropsOnlyIfFree(s.tasks[u], s'.tasks[u]) {
      assert s.tasks[u].held == |HeldBy(s.mutexes, u)|;
    }
  }

  lemma InheritedRaises(s: State, t: Task, h: Task)
    requires t in s.tasks && h in s.tasks
    ensures Inherited(s, t, h).tasks == Raised(s.tasks, h, s.tasks[t].priority)
  {
  }

  lemma GivenCounts(s: State, t: Task, m: Mutex, u: Task)
    requires Good(s) && Holds(s, t, m) && u in s.tasks
    ensures t in s.tasks && 0 < s.tasks[t].held
    ensures |HeldBy(Given(s, t, m).mutexes, u)| == |HeldBy(s.mutexes, u)| - if u == t then 1 else 0
  {
    HolderCounts(s, t, m);
    HolderChanges(s.mutexes, m, Lock(1, None), u);
    assert m in HeldBy(s.mutexes, t);
    assert u != t ==> HeldBy(s.mutexes, u) - {m} == HeldBy(s.mutexes, u);
  }

  lemma GivenIsGood(s: State, t: Task, m: Mutex)
    requires Good(s) && Holds(s, t, m)
    ensures t in s.tasks && 0 < s.tasks[t].held
    ensures Good(Given(s, t, m)) && OnlyDropsWhenFree(s, Given(s, t, m))
  {
    HolderCounts(s, t, m);
    forall u | u in s.tasks ensures Given(s, t, m).tasks[u].held == |HeldBy(Given(s, t, m).mutexes, u)| {
      GivenCounts(s, t, m, u);
    }
  }

  /** A task's own priority never changes, its current one is never below it, and drops
      only when the task gives back its last mutex, and then to its own. */
  ghost predicate OnlyDropsWhenFree(s: State, s': State)
  {
    && s.tasks.Keys <= s'.tasks.Keys
    && forall t :: t in s.tasks ==> DropsOnlyIfFree(s.tasks[t], s'.tasks[t])
  }

  predicate DropsOnlyIfFree(c: Tcb, c': Tcb)
  {
    && c'.base == c.base && c'.base <= c'.priority
    && (c'.priority < c.priority ==> c'.held == 0 && c.held == 1 && c'.priority == c'.base)
  }

  // ----- the kernel -----

  class Kernel {
    var tasks: map<Task, Tcb>
    var mutexes: map<Mutex, Lock>
    var current: Task
    ghost var boost: map<Task, nat>

    ghost function Now(): (s: State)
      reads this
    {
      State(tasks, mutexes, boost)
    }

    ghost predicate Valid()
      reads this
    {
      Good(Now()) && current in tasks
    }

    constructor (idle: Task)
      ensures Valid() && Now() == State(map[idle := Tcb(0, 0, 0)], map[], map[idle := 0]) && current == idle
    {
      tasks, mutexes, current, boost := map[idle := Tcb(0, 0, 0)], map[], idle, map[idle := 0];
    }

    method CreateTask(t: Task, priority: nat)
      requires Valid() && t !in tasks
      modifies this`tasks, this`boost
      ensures Valid() && Now() == TaskAdded(old(Now()), t, priority)
      ensures tasks == old(tasks)[t := Tcb(priority, priority, 0)] && mutexes == old(mutexes)
    {
      AddedIsGood(Now(), t, priority, 0);
      tasks, boost := tasks[t := Tcb(priority, priority, 0)], boost[t := 0];
    }

    /** A mutex starts out as an empty queue, which giving it then fills. */
    method CreateMutex(m: Mutex)
      requires Valid() && m !in mutexes
      modifies this`mutexes
      ensures Valid() && Now() == MutexAdded(old(Now()), m) && mutexes == old(mutexes)[m := Lock(1, None)]
    {
      AddedIsGood(Now(), 0, 0, m);
      mutexes := mutexes[m := Lock(1, None)];
    }

    method SwitchTo(t: Task)
      requires Valid() && t in tasks
      modifies this`current
      ensures Valid() && current == t
    {
      current := t;
    }

    /** Records the running task as the holder. */
    method Acquire(m: Mutex)
      requires Valid() && m in mutexes && mutexes[m] == Lock(1, None)
      modifies this`tasks, this`mutexes
      ensures Valid() && Now() == Taken(old(Now()), current, m) && mutexes == old(mutexes)[m := Lock(0, Some(current))]
    {
      ghost var s := Taken(Now(), current, m);
      TakenIsGood(Now(), current, m);
      mutexes := mutexes[m := Lock(mutexes[m].messages - 1, Some(current))];
      tasks := tasks[current := tasks[current].(held := tasks[current].held + 1)];
      assert Now() == s;
    }

    /** The holder inherits the priority of the running task, if that is higher. */
    method Inherit(h: Task, ghost m: Mutex)
      requires Valid() && m in mutexes && mutexes[m].holder == Some(h)
      modifies this`tasks, this`boost
      ensures Valid() && h in old(tasks) && Now() == Inherited(old(Now()), current, h)
      ensures tasks == Raised(old(tasks), h, old(tasks)[current].priority)
    {
      ghost var s := Now();
      InheritedIsGood(s, current, m);
      InheritedRaises(s, current, h);
      var p := tasks[current].priority;
      if tasks[h].priority < p {
        boost := boost[h := p];
        tasks := tasks[h := tasks[h].(priority := p)];
      }
      assert Now() == Inherited(s, current, h);
    }

    /** The running task takes the mutex if it is available.  If not, and if it may wait, it
        is about to do so, and the holder inherits its priority. */
    method Take(m: Mutex, wait: bool) returns (taken: bool)
      requires Valid() && m in mutexes
      modifies this`tasks, this`mutexes, this`boost
      ensures Valid() && m in mutexes && (taken <==> old(mutexes)[m].holder.None?)
      ensures taken ==> Now() == Taken(old(Now()), current, m)
      ensures !taken && !wait ==> Now() == old(Now())
      ensures !taken && wait ==>
                && old(mutexes)[m].holder.value in old(tasks) && Now() == Inherited(old(Now()), current, old(mutexes)[m].holder.value)
                && tasks == Raised(old(tasks), old(mutexes)[m].holder.value, old(tasks)[current].priority)
    {
      taken := mutexes[m].messages > 0;
      if taken { Acquire(m); } else if wait { Inherit(mutexes[m].holder.value, m); }
    }

    /** The mutex is given back; the holder's own priority returns when it holds no mutex any
        more. */
    method Release(m: Mutex) returns (yielding: bool)
      requires Valid() && m in mutexes && mutexes[m].holder.Some?
      modifies this`tasks, this`mutexes, this`boost
      ensures Valid() && m in old(mutexes)
      ensures var t := old(mutexes)[m].holder.value;
              && t in old(tasks) && t in tasks && 0 < old(tasks)[t].held && Now() == Given(old(Now()), t, m)
              && (yielding <==> tasks[t].priority < old(tasks)[t].priority)
    {
      ghost var s := Now();
      var t := mutexes[m].holder.value;
      GivenIsGood(s, t, m);
      var c, k := tasks[t], tasks[t].held - 1;
      yielding := c.priority != c.base && k == 0;
      tasks := tasks[t := Tcb(if yielding then c.base else c.priority, c.base, k)];
      mutexes := mutexes[m := Lock(mutexes[m].messages + 1, None)];
      boost := boost[t := if k == 0 then 0 else boost[t]];
      assert Now() == Given(s, t, m);
    }

    /** Gives the mutex; fails if it is not held.  The code does not ask who gives it. */
    method Give(m: Mutex) returns (given: bool, yielding: bool)
      requires Valid() && m in mutexes
      modifies this`tasks, this`mutexes, this`boost
      ensures Valid() && m in old(mutexes) && (given <==> old(mutexes)[m].holder.Some?)
      ensures given ==>
                var t := old(mutexes)[m].holder.value;
                && t in old(tasks) && t in tasks && 0 < old(tasks)[t].held && Now() == Given(old(Now()), t, m)
                && (yielding <==> tasks[t].priority < old(tasks)[t].priority)
      ensures !given ==> Now() == old(Now()) && !yielding
    {
      given, yielding := mutexes[m].messages < 1, false;
      if given { yielding := Release(m); }
    }
  }

  function TaskAdded(s: State, t: Task, priority: nat): (r: State)
  {
    s.(tasks := s.tasks[t := Tcb(priority, priority, 0)], boost := s.boost[t := 0])
  }

  function MutexAdded(s: State, m: Mutex): (r: State)
  {
    s.(mutexes := s.mutexes[m := Lock(1, None)])
  }

  lemma AddedIsGood(s: State, t: Task, priority: nat, m: Mutex)
    requires Good(s)
    ensures t !in s.tasks ==> Good(TaskAdded(s, t, priority))
    ensures m !in s.mutexes ==> Good(MutexAdded(s, m))
  {
    if t !in s.tasks { assert HeldBy(s.mutexes, t) == {}; }
    if m !in s.mutexes {
      forall u | u in s.tasks ensures HeldBy(MutexAdded(s, m).mutexes, u) == HeldBy(s.mutexes, u) { }
    }
  }

  // ----- whole runs -----

  datatype Step = Takes(t: Task, m: Mutex, wait: bool) | Gives(t: Task, m: Mutex)
                | AddsTask(t: Task, priority: nat) | AddsMutex(m: Mutex)

  /** A step a task can take.  `Gives` names the holder, whoever gives. */
  ghost predicate Allowed(s: State, e: Step)
  {
    match e
    case Takes(t, m, _) => t in s.tasks && m in s.mutexes
    case Gives(t, m) => Holds(s, t, m)
    case AddsTask(t, _) => t !in s.tasks
    case AddsMutex(m) => m !in s.mutexes
  }

  ghost function After(s: State, e: Step): (r: State)
    requires Good(s) && Allowed(s, e)
  {
    match e
    case Takes(t, m, wait) =>
      if s.mutexes[m].holder.None? then Taken(s, t, m) else if !wait then s else Inherited(s, t, s.mutexes[m].holder.value)
    case Gives(t, m) => HolderCounts(s, t, m); Given(s, t, m)
    case AddsTask(t, p) => TaskAdded(s, t, p)
    case AddsMutex(m) => MutexAdded(s, m)
  }

  lemma GoodAsIs(s: State)
    requires Good(s)
    ensures OnlyDropsWhenFree(s, s)
  {
  }

  lemma StepIsGood(s: State, e: Step)
    requires Good(s) && Allowed(s, e)
    ensures Good(After(s, e)) && OnlyDropsWhenFree(s, After(s, e))
  {
    match e {
      case Takes(t, m, wait) =>
        if s.mutexes[m].holder.None? { TakenIsGood(s, t, m); } else if wait { InheritedIsGood(s, t, m); } else { GoodAsIs(s); }
      case Gives(t, m) => GivenIsGood(s, t, m);
      case AddsTask(t, p) => AddedIsGood(s, t, p, 0);
      case AddsMutex(m) => AddedIsGood(s, 0, 0, m);
    }
  }

  ghost predicate StepsTo(states: seq<State>, steps: seq<Step>, i: nat)
    requires i < |steps| && |states| == |steps| + 1
  {
    Good(states[i]) ==> Allowed(states[i], steps[i]) && states[i + 1] == After(states[i], steps[i])
  }

  /** In every run the books balance throughout: see `Accounted`. */
  lemma {:induction false} RunIsGood(states: seq<State>, steps: seq<Step>, n: nat)
    requires |states| == |steps| + 1 && n <= |steps| && Good(states[0])
    requires forall i :: 0 <= i < |steps| ==> StepsTo(states, steps, i)
    ensures Good(states[n])
  {
    if n > 0 {
      RunIsGood(states, steps, n - 1);
      assert StepsTo(states, steps, n - 1);
      StepIsGood(states[n - 1], steps[n - 1]);
    }
  }

  /** Throughout any stretch of a run in which a task holds some mutex, its priority does
      not drop; so it stays at least that of every task it has kept waiting. */
  lemma {:induction false} NeverDropsWhileHolding(states: seq<State>, steps: seq<Step>, m: nat, n: nat, t: Task)
    requires |states| == |steps| + 1 && m <= n <= |steps| && Good(states[0])
    requires forall i :: 0 <= i < |steps| ==> StepsTo(states, steps, i)
    requires t in states[m].tasks
    requires forall i :: m <= i <= n && t in states[i].tasks ==> states[i].tasks[t].held > 0
    ensures t in states[n].tasks && states[m].tasks[t].priority <= states[n].tasks[t].priority
    decreases n
  {
    if m < n {
      NeverDropsWhileHolding(states, steps, m, n - 1, t);
      RunIsGood(states, steps, n - 1);
      assert StepsTo(states, steps, n - 1);
      StepIsGood(states[n - 1], steps[n - 1]);
      assert DropsOnlyIfFree(states[n - 1].tasks[t], states[n].tasks[t]);
    }
  }

  /** In step `i` some task of priority `p` begins to wait for a mutex that `h` holds. */
  ghost predicate WaitsFor(states: seq<State>, steps: seq<Step>, i: nat, h: Task, p: nat)
    requires i < |steps| && |states| == |steps| + 1
  {
    && steps[i].Takes? && steps[i].wait && Holds(states[i], h, steps[i].m)
    && steps[i].t in states[i].tasks && states[i].tasks[steps[i].t].priority == p
  }

  /** From step `i` to state `n`, `h` holds some mutex all the time. */
  ghost predicate HoldsOn(states: seq<State>, i: nat, n: nat, h: Task)
    requires n < |states|
  {
    forall j :: i <= j <= n ==> h in states[j].tasks && states[j].tasks[h].held > 0
  }

  /** Such a priority is one that a task kept waiting since then had. */
  ghost predicate Inherits(states: seq<State>, steps: seq<Step>, n: nat, h: Task, p: nat)
    requires n < |states| == |steps| + 1
  {
    exists i :: 0 <= i < n && WaitsFor(states, steps, i, h, p) && HoldsOn(states, i, n, h)
  }

  lemma StillInherits(states: seq<State>, steps: seq<Step>, n: nat, h: Task, p: nat)
    requires n + 1 < |states| == |steps| + 1 && Inherits(states, steps, n, h, p)
    requires h in states[n + 1].tasks && states[n + 1].tasks[h].held > 0
    ensures Inherits(states, steps, n + 1, h, p)
  {
    var i :| 0 <= i < n && WaitsFor(states, steps, i, h, p) && HoldsOn(states, i, n, h);
    assert HoldsOn(states, i, n + 1, h);
  }

  /** What one step does to the priority that `h` uses: it stays, returns to the task's own
      with its last mutex, or becomes that of a task that begins to wait for it. */
  ghost predicate StepsPriority(s: State, e: Step, s': State, h: Task)
  {
    && h in s.tasks && h in s'.tasks
    && (s'.tasks[h].priority > s'.tasks[h].base ==> s'.tasks[h].held > 0)
    && (s'.tasks[h].priority == s.tasks[h].priority > s'.tasks[h].base ==> s.tasks[h].priority > s.tasks[h].base)
    && (s'.tasks[h].priority == s.tasks[h].priority || s'.tasks[h].priority == s'.tasks[h].base
        || (s.tasks[h].held > 0 && e.Takes? && e.wait && Holds(s, h, e.m)
            && e.t in s.tasks && s'.tasks[h].priority == s.tasks[e.t].priority))
  }

  lemma StepRaises(s: State, e: Step, h: Task)
    requires Good(s) && Allowed(s, e) && h in s.tasks
    ensures StepsPriority(s, e, After(s, e), h)
  {
    StepIsGood(s, e);
    Balanced(After(s, e), h);
    if e.Takes? && Holds(s, h, e.m) { HolderCounts(s, h, e.m); }
  }

  /** In every run from a state in which nobody has inherited: a priority above the task's
      own is that of a task that it has kept waiting since it last held no mutex. */
  lemma {:induction false} InheritedFromAWaiter(states: seq<State>, steps: seq<Step>, n: nat, h: Task)
    requires |states| == |steps| + 1 && n <= |steps| && Good(states[0])
    requires forall i :: 0 <= i < |steps| ==> StepsTo(states, steps, i)
    requires forall t :: t in states[0].tasks ==> states[0].tasks[t].priority == states[0].tasks[t].base
    requires h in states[n].tasks && states[n].tasks[h].priority > states[n].tasks[h].base
    ensures Inherits(states, steps, n, h, states[n].tasks[h].priority)
  {
    if n > 0 {
      RunIsGood(states, steps, n - 1);
      assert StepsTo(states, steps, n - 1);
      NobodyElseIsNew(states[n - 1], steps[n - 1], h);
      StepRaises(states[n - 1], steps[n - 1], h);
      if states[n - 1].tasks[h].priority > states[n - 1].tasks[h].base { InheritedFromAWaiter(states, steps, n - 1, h); }
      InheritsOneMore(states, steps, n - 1, h);
    }
  }

  lemma InheritsOneMore(states: seq<State>, steps: seq<Step>, n: nat, h: Task)
    requires |states| == |steps| + 1 && n < |steps| && StepsPriority(states[n], steps[n], states[n + 1], h)
    requires states[n + 1].tasks[h].priority > states[n + 1].tasks[h].base
    requires states[n].tasks[h].priority > states[n].tasks[h].base ==> Inherits(states, steps, n, h, states[n].tasks[h].priority)
    ensures Inherits(states, steps, n + 1, h, states[n + 1].tasks[h].priority)
  {
    var p := states[n + 1].tasks[h].priority;
    if p == states[n].tasks[h].priority {
      StillInherits(states, steps, n, h, p);
    } else {
      assert WaitsFor(states, steps, n, h, p) && HoldsOn(states, n, n + 1, h);
    }
  }

  /** A task that a step adds has inherited nothing. */
  lemma NobodyElseIsNew(s: State, e: Step, h: Task)
    requires Good(s) && Allowed(s, e) && h in After(s, e).tasks && After(s, e).tasks[h].priority > After(s, e).tasks[h].base
    ensures h in s.tasks
  {
  }

  /** And it is the most urgent of them: nobody it has kept waiting since has a higher one. */
  lemma MostUrgent(states: seq<State>, steps: seq<Step>, i: nat, n: nat, h: Task, p: nat)
    requires |states| == |steps| + 1 && i < n <= |steps| && Good(states[0])
    requires forall i :: 0 <= i < |steps| ==> StepsTo(states, steps, i)
    requires WaitsFor(states, steps, i, h, p) && HoldsOn(states, i, n, h)
    ensures h in states[n].tasks && p <= states[n].tasks[h].priority
  {
    RunIsGood(states, steps, i);
    assert StepsTo(states, steps, i);
    InheritedIsGood(states[i], steps[i].t, steps[i].m);
    NeverDropsWhileHolding(states, steps, i + 1, n, h);
  }

  /** What the books say about one task. */
  lemma Balanced(s: State, t: Task)
    requires Good(s) && t in s.tasks
    ensures s.tasks[t].base <= s.tasks[t].priority && s.tasks[t].held == |HeldBy(s.mutexes, t)|
    ensures s.tasks[t].held == 0 ==> s.tasks[t].priority == s.tasks[t].base
    ensures forall m :: m in s.mutexes ==> (s.mutexes[m].messages == 0 <==> exists u :: u in s.tasks && Holds(s, u, m))
  {
    forall m | m in s.mutexes && s.mutexes[m].messages == 0 ensures exists u :: u in s.tasks && Holds(s, u, m) {
      assert Holds(s, s.mutexes[m].holder.value, m);
    }
  }
}
