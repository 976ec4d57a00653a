/**
 Software timers: the timer daemon keeps active timers in two lists ordered by wrapped
 expiry time, and catches up with missed expiries by sending commands to itself.  The
 lists and the command queue stand for expiries and commands in unbounded time.
 */
module KernelTimers {
  import opened KernelList
  import opened KernelTime

  type Timer = nat

  datatype Config = Config(period: nat, reload: bool)

  datatype Kind = Start | Stop | ChangePeriod
  datatype Command = Command(kind: Kind, timer: Timer, value: nat)

  datatype Fire = Fire(timer: Timer, time: nat)

  // ----- the abstract service -----

  /** Active timers with their true expiries, commands with their true times (for a new
      period, the period), and the callbacks made so far. */
  datatype Service = Service(config: map<Timer, Config>, active: map<Timer, nat>, queue: seq<Command>, fired: seq<Fire>)

  function Fired(s: Service, t: Timer, x: nat): (r: Service)
  {
    s.(active := s.active - {t}, fired := s.fired + [Fire(t, x)])
  }

  function Sent(s: Service, t: Timer, x: nat): (r: Service)
  {
    s.(queue := s.queue + [Command(Start, t, x)])
  }

  function Armed(s: Service, t: Timer, x: nat): (r: Service)
  {
    s.(active := s.active[t := x])
  }

  predicate Known(s: Service, t: Timer)
  {
    t in s.config && 1 <= s.config[t].period < M
  }

  predicate Runs(s: Service, t: Timer)
  {
    Known(s, t) && t in s.active
  }

  /** An active timer has expired: call back, and re-arm it if it reloads.  If the next
      expiry has passed too, it is left to a command. */
  function Expire(s: Service, t: Timer, now: nat): (r: Service)
    requires Runs(s, t)
  {
    var x, c := s.active[t], s.config[t];
    var s1 := Fired(s, t, x);
    if !c.reload then s1 else if x + c.period <= now then Sent(s1, t, x) else Armed(s1, t, x + c.period)
  }

  /** The same while the lists are about to change places: timers due before `limit`. */
  function ExpireEarly(s: Service, t: Timer, limit: nat): (r: Service)
    requires Runs(s, t)
  {
    var x, c := s.active[t], s.config[t];
    var s1 := Fired(s, t, x);
    if !c.reload then s1 else if x + c.period < limit then Armed(s1, t, x + c.period) else Sent(s1, t, x)
  }

  function Disarmed(s: Service, t: Timer): (r: Service)
  {
    s.(active := s.active - {t})
  }

  /** The timer is started as of `c`.  If it has expired since, it is called back now, and
      if it reloads, started again as of that expiry. */
  function Started(s: Service, t: Timer, c: nat, now: nat): (r: Service)
    requires Known(s, t)
  {
    var x := c + s.config[t].period;
    if now < x then Armed(s, t, x) else if s.config[t].reload then Sent(Fired(s, t, x), t, x) else Fired(s, t, x)
  }

  function Changed(s: Service, t: Timer, period: nat, now: nat): (r: Service)
    requires Known(s, t)
  {
    Armed(s.(config := s.config[t := s.config[t].(period := period)]), t, now + period)
  }

  /** When a start command issued at `c` seems to have been issued: less than a full turn of
      the tick count ago. */
  function AsOf(c: nat, now: nat): (r: nat)
    ensures c <= r && r % M == c % M
    ensures c <= now ==> r <= now < r + M
    ensures now < c + M ==> r == c
  {
    if c <= now then now - Seen(c, now) else c
  }

  /** The first command is taken from the queue and carried out. */
  function Handle(s: Service, now: nat): (r: Service)
    requires s.queue != [] && Known(s, s.queue[0].timer)
  {
    var Command(kind, t, value) := s.queue[0];
    var s0 := Disarmed(s.(queue := s.queue[1..]), t);
    match kind
    case Stop => s0
    case ChangePeriod => Changed(s0, t, value, now)
    case Start => Started(s0, t, AsOf(value, now), now)
  }

  // ----- one timer on its own -----

  /** The commands in the queue that are about `t`. */
  function About(queue: seq<Command>, t: Timer): (r: seq<Command>)
  {
    if queue == [] then []
    else About(queue[..|queue| - 1], t) + if queue[|queue| - 1].timer == t then [queue[|queue| - 1]] else []
  }

  /** The times at which `t` has fired. */
  function Times(fired: seq<Fire>, t: Timer): (r: seq<nat>)
  {
    if fired == [] then []
    else Times(fired[..|fired| - 1], t) + if fired[|fired| - 1].timer == t then [fired[|fired| - 1].time] else []
  }

  /** Expiry `k` of a timer started at `start`. */
  function Expiry(start: nat, period: nat, k: nat): (x: nat)
  {
    if k == 0 then start else Expiry(start, period, k - 1) + period
  }

  lemma {:induction false} ExpiryIsMultiple(start: nat, period: nat, k: nat)
    ensures Expiry(start, period, k) == start + k * period
  {
    if k > 0 { ExpiryIsMultiple(start, period, k - 1); }
  }

  /** The first `n` expiries, in order. */
  function Schedule(start: nat, period: nat, n: nat): (r: seq<nat>)
    ensures |r| == n
  {
    if n == 0 then [] else Schedule(start, period, n - 1) + [Expiry(start, period, n)]
  }

  /** `t` reloads with `period`, and since it was started at `start` it has fired at its
      first `n` expiries, in order and without a gap.  It is armed for the next one, or
      the command to arm it is in the queue; never both, and never twice. */
  ghost predicate OnSchedule(s: Service, t: Timer, start: nat, period: nat, before: seq<nat>, n: nat)
  {
    && t in s.config && s.config[t] == Config(period, true) && 1 <= period < M
    && Times(s.fired, t) == before + Schedule(start, period, n)
    && if t in s.active then s.active[t] == Expiry(start, period, n + 1) && About(s.queue, t) == []
       else About(s.queue, t) == [Command(Start, t, Expiry(start, period, n))]
  }

  lemma AboutAppend(queue: seq<Command>, c: Command, t: Timer)
    ensures About(queue + [c], t) == About(queue, t) + if c.timer == t then [c] else []
  {
    assert (queue + [c])[..|queue|] == queue;
  }

  lemma {:induction false} AboutFirst(queue: seq<Command>, t: Timer)
    requires queue != []
    ensures About(queue, t) == (if queue[0].timer == t then [queue[0]] else []) + About(queue[1..], t)
    decreases |queue|
  {
    var n := |queue| - 1;
    if n > 0 {
      var front, last := queue[..n], queue[n];
      AboutFirst(front, t);
      AboutAppend(front[1..], last, t);
      assert queue[1..] == front[1..] + [last];
    } else {
      OneCommand(queue, t);
    }
  }

  lemma OneCommand(queue: seq<Command>, t: Timer)
    requires |queue| == 1
    ensures About(queue, t) == (if queue[0].timer == t then [queue[0]] else []) && queue[1..] == [] && About(queue[1..], t) == []
  {
    assert queue[..0] == [];
  }

  lemma TimesAppend(fired: seq<Fire>, f: Fire, t: Timer)
    ensures Times(fired + [f], t) == Times(fired, t) + if f.timer == t then [f.time] else []
  {
    assert (fired + [f])[..|fired|] == fired;
  }

  /** `u` fires at `x`: if `u` is the timer and `x` its next expiry, it is one further on. */
  lemma FiresNext(s: Service, u: Timer, x: nat, t: Timer, start: nat, period: nat, before: seq<nat>, n: nat)
    requires Times(s.fired, t) == before + Schedule(start, period, n)
    requires u == t ==> x == Expiry(start, period, n + 1)
    ensures Times(Fired(s, u, x).fired, t) == before + Schedule(start, period, if u == t then n + 1 else n)
  {
    TimesAppend(s.fired, Fire(u, x), t);
  }

  /** Nothing that concerns `t` has changed, apart from its further expiries. */
  ghost predicate SameFor(s: Service, s': Service, t: Timer)
  {
    && t in s'.config && t in s.config && s'.config[t] == s.config[t]
    && (t in s'.active <==> t in s.active) && (t in s.active ==> s'.active[t] == s.active[t])
    && About(s'.queue, t) == About(s.queue, t) && Times(s'.fired, t) == Times(s.fired, t)
  }

  lemma Untouched(s: Service, s': Service, t: Timer, start: nat, period: nat, before: seq<nat>, n: nat)
    requires OnSchedule(s, t, start, period, before, n) && SameFor(s, s', t)
    ensures OnSchedule(s', t, start, period, before, n)
  {
  }

  /** Another timer fires, is armed, disarmed or sent a command. */
  lemma FiredOther(s: Service, u: Timer, x: nat, t: Timer)
    requires t in s.config && u != t
    ensures SameFor(s, Fired(s, u, x), t)
  {
    TimesAppend(s.fired, Fire(u, x), t);
  }

  lemma ArmedOther(s: Service, u: Timer, x: nat, t: Timer)
    requires t in s.config && u != t
    ensures SameFor(s, Armed(s, u, x), t) && SameFor(s, Disarmed(s, u), t)
  {
  }

  lemma SentOther(s: Service, u: Timer, x: nat, t: Timer)
    requires t in s.config && u != t
    ensures SameFor(s, Sent(s, u, x), t)
  {
    AboutAppend(s.queue, Command(Start, u, x), t);
  }

  /** Another timer fires, and nothing more, or is armed, or is sent a command. */
  lemma RenewedOther(s: Service, u: Timer, x: nat, y: nat, t: Timer)
    requires t in s.config && u != t
    ensures var s1 := Fired(s, u, x); SameFor(s, s1, t) && SameFor(s, Armed(s1, u, y), t) && SameFor(s, Sent(s1, u, x), t)
  {
    var s1 := Fired(s, u, x);
    FiredOther(s, u, x, t);
    ArmedOther(s1, u, y, t);
    SentOther(s1, u, x, t);
  }

  /** The timer itself fires at its next expiry, and is armed for the one after, or a command
      to that end is sent. */
  lemma RenewedOwn(s: Service, t: Timer, start: nat, period: nat, before: seq<nat>, n: nat)
    requires t in s.config && s.config[t] == Config(period, true) && 1 <= period < M
    requires Times(s.fired, t) == before + Schedule(start, period, n) && About(s.queue, t) == []
    ensures var x := Expiry(start, period, n + 1); var s1 := Fired(s, t, x);
            && OnSchedule(Armed(s1, t, x + period), t, start, period, before, n + 1)
            && OnSchedule(Sent(s1, t, x), t, start, period, before, n + 1)
  {
    var x := Expiry(start, period, n + 1);
    FiresNext(s, t, x, t, start, period, before, n);
    ArmedNext(Fired(s, t, x), t, start, period, before, n + 1);
    SentNext(Fired(s, t, x), t, start, period, before, n + 1);
  }

  lemma ArmedNext(s: Service, t: Timer, start: nat, period: nat, before: seq<nat>, n: nat)
    requires t in s.config && s.config[t] == Config(period, true) && 1 <= period < M
    requires Times(s.fired, t) == before + Schedule(start, period, n) && About(s.queue, t) == []
    ensures OnSchedule(Armed(s, t, Expiry(start, period, n) + period), t, start, period, before, n)
  {
  }

  lemma SentNext(s: Service, t: Timer, start: nat, period: nat, before: seq<nat>, n: nat)
    requires t in s.config && s.config[t] == Config(period, true) && 1 <= period < M && t !in s.active
    requires Times(s.fired, t) == before + Schedule(start, period, n) && About(s.queue, t) == []
    ensures OnSchedule(Sent(s, t, Expiry(start, period, n)), t, start, period, before, n)
  {
    AboutAppend(s.queue, Command(Start, t, Expiry(start, period, n)), t);
  }

  /** Every step of the service keeps a timer on schedule; steps about other timers do not
      touch it, and an expiry of the timer itself is the next one due. */
  lemma ExpireKeepsSchedule(s: Service, u: Timer, now: nat, t: Timer, start: nat, period: nat, before: seq<nat>, n: nat)
    requires OnSchedule(s, t, start, period, before, n) && Runs(s, u)
    ensures OnSchedule(Expire(s, u, now), t, start, period, before, if u == t then n + 1 else n)
  {
    if u == t {
      RenewedOwn(s, t, start, period, before, n);
    } else {
      RenewedOther(s, u, s.active[u], s.active[u] + s.config[u].period, t);
      Untouched(s, Expire(s, u, now), t, start, period, before, n);
    }
  }

  lemma ExpireEarlyKeepsSchedule(s: Service, u: Timer, limit: nat, t: Timer, start: nat, period: nat, before: seq<nat>, n: nat)
    requires OnSchedule(s, t, start, period, before, n) && Runs(s, u)
    ensures OnSchedule(ExpireEarly(s, u, limit), t, start, period, before, if u == t then n + 1 else n)
  {
    if u == t {
      RenewedOwn(s, t, start, period, before, n);
    } else {
      RenewedOther(s, u, s.active[u], s.active[u] + s.config[u].period, t);
      Untouched(s, ExpireEarly(s, u, limit), t, start, period, before, n);
    }
  }

  /** A command about a timer on schedule is the one that arms it. */
  lemma OwnCommand(s: Service, t: Timer, start: nat, period: nat, before: seq<nat>, n: nat)
    requires OnSchedule(s, t, start, period, before, n) && s.queue != []
    ensures if s.queue[0].timer == t
            then t !in s.active && s.queue[0] == Command(Start, t, Expiry(start, period, n)) && About(s.queue[1..], t) == []
            else About(s.queue[1..], t) == About(s.queue, t)
  {
    AboutFirst(s.queue, t);
    assert s.queue[0].timer == t ==> About(s.queue, t)[0] == s.queue[0] && About(s.queue, t)[1..] == About(s.queue[1..], t);
  }

  /** The timer's own command is carried out, less than a full turn of the tick count after
      the expiry it is about. */
  lemma HandleOwn(s: Service, now: nat, t: Timer, start: nat, period: nat, before: seq<nat>, n: nat)
    requires OnSchedule(s, t, start, period, before, n) && s.queue != [] && s.queue[0].timer == t
    requires now < Expiry(start, period, n) + M
    ensures OnSchedule(Handle(s, now), t, start, period, before, if Expiry(start, period, n + 1) <= now then n + 1 else n)
  {
    OwnCommand(s, t, start, period, before, n);
    var s0 := Disarmed(s.(queue := s.queue[1..]), t);
    assert Handle(s, now) == Started(s0, t, Expiry(start, period, n), now);
    if Expiry(start, period, n + 1) <= now {
      RenewedOwn(s0, t, start, period, before, n);
    } else {
      ArmedNext(s0, t, start, period, before, n);
    }
  }

  /** If it is carried out later than that, the schedule is lost. */
  lemma HandledTooLate(s: Service, now: nat, t: Timer, start: nat, period: nat, before: seq<nat>, n: nat, n': nat)
    requires OnSchedule(s, t, start, period, before, n) && s.queue != [] && s.queue[0].timer == t
    requires Expiry(start, period, n) + M <= now
    ensures !OnSchedule(Handle(s, now), t, start, period, before, n')
  {
    OwnCommand(s, t, start, period, before, n);
    var s0 := Disarmed(s.(queue := s.queue[1..]), t);
    var x, y := Expiry(start, period, n + 1), AsOf(Expiry(start, period, n), now) + period;
    assert Handle(s, now) == Started(s0, t, y - period, now) && x < y;
    TimesAppend(s.fired, Fire(t, y), t);
    LastOfSchedule(start, period, n, n', before, y);
  }

  lemma LastOfSchedule(start: nat, period: nat, n: nat, n': nat, before: seq<nat>, y: nat)
    ensures before + Schedule(start, period, n) == before + Schedule(start, period, n') ==> n == n'
    ensures before + Schedule(start, period, n) + [y] == before + Schedule(start, period, n') ==>
              n' == n + 1 && y == Expiry(start, period, n + 1)
  {
    var a, b := before + Schedule(start, period, n), before + Schedule(start, period, n');
    assert |a| == |before| + n && |b| == |before| + n';
    if a + [y] == b {
      assert n' == n + 1 && (a + [y])[|a|] == y && b[|a|] == Schedule(start, period, n')[n];
    }
  }

  /** A start command for another timer is carried out. */
  lemma StartedOther(s: Service, u: Timer, c: nat, now: nat, t: Timer)
    requires t in s.config && u != t && Known(s, u)
    ensures SameFor(s, Started(s, u, c, now), t)
  {
    var x := c + s.config[u].period;
    ArmedOther(s, u, x, t);
    RenewedOther(s, u, x, x, t);
  }

  lemma ChangedOther(s: Service, u: Timer, period: nat, now: nat, t: Timer)
    requires t in s.config && u != t && Known(s, u)
    ensures SameFor(s, Changed(s, u, period, now), t)
  {
  }

  lemma HandleOther(s: Service, now: nat, t: Timer, start: nat, period: nat, before: seq<nat>, n: nat)
    requires OnSchedule(s, t, start, period, before, n) && s.queue != [] && s.queue[0].timer != t
    requires Known(s, s.queue[0].timer)
    ensures OnSchedule(Handle(s, now), t, start, period, before, n)
  {
    var c := s.queue[0];
    OwnCommand(s, t, start, period, before, n);
    var s0 := Disarmed(s.(queue := s.queue[1..]), c.timer);
    Untouched(s, s0, t, start, period, before, n);
    match c.kind {
      case Stop => assert Handle(s, now) == s0;
      case ChangePeriod => ChangedOther(s0, c.timer, c.value, now, t);
      case Start => StartedOther(s0, c.timer, AsOf(c.value, now), now, t);
    }
    HandledIs(s, s0, now);
    if c.kind != Stop { Untouched(s0, Handle(s, now), t, start, period, before, n); }
  }

  lemma HandledIs(s: Service, s0: Service, now: nat)
    requires s.queue != [] && Known(s, s.queue[0].timer) && s0 == Disarmed(s.(queue := s.queue[1..]), s.queue[0].timer)
    ensures var c := s.queue[0];
            && (c.kind == Stop ==> Handle(s, now) == s0)
            && (c.kind == ChangePeriod ==> Handle(s, now) == Changed(s0, c.timer, c.value, now))
            && (c.kind == Start ==> Handle(s, now) == Started(s0, c.timer, AsOf(c.value, now), now))
  {
  }

  lemma HandleKeepsSchedule(s: Service, now: nat, t: Timer, start: nat, period: nat, before: seq<nat>, n: nat)
    requires OnSchedule(s, t, start, period, before, n) && s.queue != [] && Known(s, s.queue[0].timer)
    requires s.queue[0].timer == t ==> now < s.queue[0].value + M
    ensures var u := s.queue[0].timer;
            OnSchedule(Handle(s, now), t, start, period, before,
                       if u == t && Expiry(start, period, n + 1) <= now then n + 1 else n)
  {
    if s.queue[0].timer == t {
      OwnCommand(s, t, start, period, before, n);
      HandleOwn(s, now, t, start, period, before, n);
    } else {
      HandleOther(s, now, t, start, period, before, n);
    }
  }

  /** A start command makes a schedule, if nothing else is pending for the timer. */
  lemma StartMakesSchedule(s: Service, t: Timer, start: nat)
    requires Known(s, t) && s.config[t].reload && About(s.queue, t) == [Command(Start, t, start)] && t !in s.active
    ensures OnSchedule(s, t, start, s.config[t].period, Times(s.fired, t), 0)
  {
    assert Times(s.fired, t) == Times(s.fired, t) + Schedule(start, s.config[t].period, 0);
  }

  /** Once the queue is empty and no active timer is overdue, a timer on schedule has
      fired exactly for the expiries that have been reached. */
  lemma CaughtUp(s: Service, now: nat, t: Timer, start: nat, period: nat, before: seq<nat>, n: nat, k: nat)
    requires OnSchedule(s, t, start, period, before, n) && s.queue == []
    requires forall u :: u in s.active ==> now < s.active[u]
    requires forall f :: f in s.fired ==> f.time <= now
    ensures start + (k + 1) * period <= now <==> k < n
  {
    if k < n {
      ScheduleHolds(start, period, n, k);
      TimesAreFired(s.fired, t, |before| + k);
      assert Times(s.fired, t)[|before| + k] == Schedule(start, period, n)[k];
    } else {
      ExpiryIsMultiple(start, period, n + 1);
      Stretch(n + 1, k + 1, period);
      assert About([], t) == [];
    }
  }

  lemma Stretch(a: nat, b: nat, period: nat)
    requires a <= b
    ensures a * period <= b * period
  {
  }

  lemma {:induction false} ScheduleHolds(start: nat, period: nat, n: nat, k: nat)
    requires k < n
    ensures Schedule(start, period, n)[k] == start + (k + 1) * period
  {
    if k == n - 1 { ExpiryIsMultiple(start, period, n); } else { ScheduleHolds(start, period, n - 1, k); }
  }

  lemma {:induction false} TimesAreFired(fired: seq<Fire>, t: Timer, i: nat)
    requires i < |Times(fired, t)|
    ensures Fire(t, Times(fired, t)[i]) in fired
    decreases |fired|
  {
    var n := |fired| - 1;
    if i < |Times(fired[..n], t)| { TimesAreFired(fired[..n], t, i); }
  }

  // ----- whole runs -----

  /** Expires one timer after the other, as long as they are due before `limit`. */
  function ExpireAll(s: Service, ts: seq<Timer>, limit: nat): (r: Service)
  {
    if ts == [] then s
    else
      var s1, t := ExpireAll(s, ts[..|ts| - 1], limit), ts[|ts| - 1];
      if Runs(s1, t) && s1.active[t] < limit then ExpireEarly(s1, t, limit) else s1
  }

  /** What the daemon does, and what others send it. */
  datatype Move = Expires(timer: Timer, now: nat) | Switches(ts: seq<Timer>, limit: nat)
                | Disarms | Handles(now: nat) | Receives(c: Command)

  function After(s: Service, m: Move): (r: Service)
  {
    match m
    case Expires(t, now) => if Runs(s, t) && s.active[t] <= now then Expire(s, t, now) else s
    case Switches(ts, limit) => ExpireAll(s, ts, limit)
    case Disarms => if s.queue == [] then s else Disarmed(s, s.queue[0].timer)
    case Handles(now) => if s.queue == [] || !Known(s, s.queue[0].timer) then s else Handle(s, now)
    case Receives(c) => s.(queue := s.queue + [c])
  }

  function AfterAll(s: Service, moves: seq<Move>): (r: Service)
  {
    if moves == [] then s else After(AfterAll(s, moves[..|moves| - 1]), moves[|moves| - 1])
  }

  lemma {:induction false} ExpireAllKeepsSchedule(s: Service, ts: seq<Timer>, limit: nat,
                                                  t: Timer, start: nat, period: nat, before: seq<nat>, n: nat) returns (n': nat)
    requires OnSchedule(s, t, start, period, before, n)
    ensures n <= n' && OnSchedule(ExpireAll(s, ts, limit), t, start, period, before, n')
    decreases |ts|
  {
    n' := n;
    if ts != [] {
      var k := |ts| - 1;
      n' := ExpireAllKeepsSchedule(s, ts[..k], limit, t, start, period, before, n);
      var s1 := ExpireAll(s, ts[..k], limit);
      if Runs(s1, ts[k]) && s1.active[ts[k]] < limit {
        ExpireEarlyKeepsSchedule(s1, ts[k], limit, t, start, period, before, n');
        if ts[k] == t { n' := n' + 1; }
      }
    }
  }

  /** Nobody else sends a command about the timer, and its own are carried out less than a
      full turn of the tick count after the expiry they are about. */
  predicate Undisturbed(s: Service, m: Move, t: Timer)
  {
    && (m.Receives? ==> m.c.timer != t)
    && (m.Handles? && s.queue != [] && s.queue[0].timer == t ==> m.now < s.queue[0].value + M)
  }

  lemma MoveKeepsSchedule(s: Service, m: Move, t: Timer, start: nat, period: nat, before: seq<nat>, n: nat) returns (n': nat)
    requires OnSchedule(s, t, start, period, before, n) && Undisturbed(s, m, t)
    ensures n <= n' && OnSchedule(After(s, m), t, start, period, before, n')
  {
    n' := n;
    match m {
      case Expires(u, now) =>
        if Runs(s, u) && s.active[u] <= now {
          ExpireKeepsSchedule(s, u, now, t, start, period, before, n);
          if u == t { n' := n + 1; }
        }
      case Switches(ts, limit) => n' := ExpireAllKeepsSchedule(s, ts, limit, t, start, period, before, n);
      case Disarms => if s.queue != [] { OwnCommand(s, t, start, period, before, n); }
      case Handles(now) =>
        if s.queue != [] && Known(s, s.queue[0].timer) {
          HandleKeepsSchedule(s, now, t, start, period, before, n);
          if s.queue[0].timer == t && Expiry(start, period, n + 1) <= now { n' := n + 1; }
        }
      case Receives(c) => AboutAppend(s.queue, c, t);
    }
  }

  /** The timer is undisturbed throughout the run. */
  ghost predicate NeverDisturbed(s: Service, moves: seq<Move>, t: Timer)
  {
    forall i :: 0 <= i < |moves| ==> Undisturbed(AfterAll(s, moves[..i]), moves[i], t)
  }

  /** In every run in which it is undisturbed, a reloading timer fires at start + period,
      start + 2 * period and so on, each exactly once and in order. */
  lemma {:induction false} RunKeepsSchedule(s: Service, moves: seq<Move>, t: Timer, start: nat, period: nat,
                                            before: seq<nat>, n: nat) returns (n': nat)
    requires OnSchedule(s, t, start, period, before, n) && NeverDisturbed(s, moves, t)
    ensures n <= n' && OnSchedule(AfterAll(s, moves), t, start, period, before, n')
    decreases |moves|
  {
    n' := n;
    if moves != [] {
      var k := |moves| - 1;
      forall i | 0 <= i < k ensures Undisturbed(AfterAll(s, moves[..k][..i]), moves[..k][i], t) {
        assert moves[..k][..i] == moves[..i];
      }
      n' := RunKeepsSchedule(s, moves[..k], t, start, period, before, n);
      n' := MoveKeepsSchedule(AfterAll(s, moves[..k]), moves[k], t, start, period, before, n');
    }
  }

  lemma {:induction false} AfterAllAppend(s: Service, a: seq<Move>, b: seq<Move>)
    ensures AfterAll(s, a + b) == AfterAll(AfterAll(s, a), b)
    decreases |b|
  {
    if b == [] {
      assert a + b == a;
    } else {
      assert (a + b)[..|a + b| - 1] == a + b[..|b| - 1];
      AfterAllAppend(s, a, b[..|b| - 1]);
    }
  }

  lemma AfterOne(s: Service, m: Move)
    ensures AfterAll(s, [m]) == After(s, m)
  {
    assert [m][..0] == [] && AfterAll(s, []) == s;
  }

  // ----- the daemon's lists -----

  /** The lists file exactly the active timers: those that expire before the tick count
      next wraps (or did before it last wrapped unnoticed), and those that expire after. */
  ghost predicate Filed(current: seq<Delayed>, overflow: seq<Delayed>, base: nat, active: map<Timer, nat>)
  {
    && Files(current, base, active) && Files(overflow, base + M, active)
    && (forall t {:trigger In(t, current)} {:trigger In(t, overflow)} ::
          t in active ==> if active[t] < base + M then In(t, current) else In(t, overflow))
  }

  lemma ArmFiles(current: seq<Delayed>, overflow: seq<Delayed>, base: nat, active: map<Timer, nat>, d: Delayed, x: nat)
    requires Filed(current, overflow, base, active) && d.task !in active && d.wake < M
    ensures x == base + d.wake ==> Filed(File(current, d), overflow, base, active[d.task := x])
    ensures x == base + M + d.wake ==> Filed(current, File(overflow, d), base, active[d.task := x])
  {
    if x == base + d.wake {
      FileKeeps(current, base, active, d);
      FilesElsewhere(overflow, base + M, active, d.task, x);
    } else if x == base + M + d.wake {
      FileKeeps(overflow, base + M, active, d);
      FilesElsewhere(current, base, active, d.task, x);
    }
  }

  lemma DisarmFiles(current: seq<Delayed>, overflow: seq<Delayed>, base: nat, active: map<Timer, nat>, p: nat)
    requires Filed(current, overflow, base, active)
    ensures p < |current| ==> Filed(RemoveAt(current, p), overflow, base, active - {current[p].task})
    ensures p < |overflow| ==> Filed(current, RemoveAt(overflow, p), base, active - {overflow[p].task})
  {
    if p < |current| {
      RemoveFiled(current, base, active, p);
      FilesWithout(overflow, base + M, active, current[p].task);
    }
    if p < |overflow| {
      RemoveFiled(overflow, base + M, active, p);
      FilesWithout(current, base, active, overflow[p].task);
    }
  }

  lemma SwapFiles(current: seq<Delayed>, overflow: seq<Delayed>, base: nat, active: map<Timer, nat>)
    requires Filed(current, overflow, base, active) && current == []
    ensures Filed(overflow, current, base + M, active)
  {
    assert forall t :: t in active ==> !In(t, current);
  }

  /** What the wrapped comparisons decide: whether the expiry has passed, and if not, in
      which of the two lists it belongs. */
  lemma InsertExact(base: nat, wraps: nat, tick: nat, c: nat, period: nat)
    requires base == wraps * M && tick < M && 1 <= period < M && c <= base + tick < c + M
    ensures var now, x, next, cmd := base + tick, c + period, (c + period) % M, c % M;
            if next <= tick then
              if (tick - cmd) % M >= period then x <= now else x == base + M + next
            else if tick < cmd && next >= cmd then x <= now
            else x == base + next && now < x
  {
    var k, cmd := c / M, c % M;
    assert c == k * M + cmd;
    assert k == wraps || k + 1 == wraps;
    assert (c + period) % M == if cmd + period < M then cmd + period else cmd + period - M;
  }

  /** How far the timers in a list are from the end of the epoch, together. */
  function Slack(s: seq<Delayed>): (r: int)
  {
    if s == [] then 0 else M - s[|s| - 1].wake + Slack(s[..|s| - 1])
  }

  lemma {:induction false} SlackInsert(s: seq<Delayed>, p: nat, d: Delayed)
    requires p <= |s|
    ensures Slack(InsertAt(s, p, d)) == Slack(s) + M - d.wake
    decreases |s|
  {
    var r := InsertAt(s, p, d);
    if p == |s| {
      assert r[..|s|] == s;
    } else {
      assert r[..|s|] == InsertAt(s[..|s| - 1], p, d);
      SlackInsert(s[..|s| - 1], p, d);
    }
  }

  lemma SlackHead(s: seq<Delayed>)
    requires s != []
    ensures Slack(s) == Slack(s[1..]) + M - s[0].wake
  {
    SlackInsert(s[1..], 0, s[0]);
    assert s == InsertAt(s[1..], 0, s[0]);
  }

  lemma {:induction false} SlackPositive(s: seq<Delayed>)
    requires forall i :: 0 <= i < |s| ==> s[i].wake < M
    ensures Slack(s) >= |s|
    decreases |s|
  {
    if s != [] { SlackPositive(s[..|s| - 1]); }
  }

  /** When the head of the current list is in the future, so is every active timer. */
  lemma NoneOverdue(current: seq<Delayed>, overflow: seq<Delayed>, base: nat, active: map<Timer, nat>, tick: nat)
    requires Filed(current, overflow, base, active) && tick < M && (current == [] || tick < current[0].wake)
    ensures forall t :: t in active ==> base + tick < active[t]
  {
    forall t | t in active ensures base + tick < active[t] {
      if active[t] < base + M {
        assert In(t, current);
        var i :| 0 <= i < |current| && current[i].task == t;
        assert Wakes(current)[0] <= Wakes(current)[i];
      }
    }
  }

  predicate SameCommand(c: Command, a: Command)
  {
    && c.kind == a.kind && c.timer == a.timer
    && (c.kind == Start ==> c.value == a.value % M)
    && (c.kind == ChangePeriod ==> c.value == a.value && 1 <= a.value < M)
  }

  ghost predicate SameQueue(queue: seq<Command>, abs: seq<Command>)
  {
    |queue| == |abs| && forall i :: 0 <= i < |queue| ==> SameCommand(queue[i], abs[i])
  }

  /** Every timer in use has been created, and everything fired was due by `now`. */
  ghost predicate Sane(s: Service, now: nat)
  {
    && (forall t :: t in s.active ==> Known(s, t))
    && (forall c :: c in s.queue ==> Known(s, c.timer))
    && (forall f :: f in s.fired ==> f.time <= now)
  }

  class Daemon {
    var current: seq<Delayed>
    var overflow: seq<Delayed>
    var queue: seq<Command>
    var config: map<Timer, Config>
    var lastTime: nat
    ghost var wraps: nat
    ghost var base: nat  // when the tick count was last 0, as far as the daemon knows
    ghost var last: nat  // when the daemon last looked
    ghost var s: Service

    /** The lists and the queue stand for the service. */
    ghost predicate Shows()
      reads this
    {
      && base == wraps * M && config == s.config
      && Filed(current, overflow, base, s.active) && SameQueue(queue, s.queue)
    }

    ghost predicate Valid()
      reads this
    {
      Shows() && lastTime < M && last == base + lastTime && Sane(s, last)
    }

    constructor (config: map<Timer, Config>)
      ensures Valid() && s == Service(config, map[], [], []) && last == 0
    {
      current, overflow, queue, lastTime, this.config := [], [], [], 0, config;
      wraps, base, last, s := 0, 0, 0, Service(config, map[], [], []);
    }

    /** Files the timer for `next`, unless that expiry has passed since `command`. */
    method Insert(timer: Timer, next: nat, timeNow: nat, command: nat, ghost c: nat) returns (processNow: bool)
      requires Valid() && Known(s, timer) && timer !in s.active
      requires c <= last < c + M && timeNow == lastTime && command == c % M && next == (c + s.config[timer].period) % M
      modifies this`current, this`overflow, this`s
      ensures Valid()
      ensures processNow <==> c + old(s).config[timer].period <= last
      ensures s == if processNow then old(s) else Armed(old(s), timer, c + old(s).config[timer].period)
    {
      ghost var x := c + s.config[timer].period;
      InsertExact(base, wraps, timeNow, c, s.config[timer].period);
      processNow := false;
      if next <= timeNow {
        if (timeNow - command) % M >= config[timer].period {
          processNow := true;
        } else {
          FileLater(timer, next, x);
        }
      } else {
        if timeNow < command && next >= command {
          processNow := true;
        } else {
          FileSoon(timer, next, x);
        }
      }
    }

    /** Files the timer in the current list. */
    method FileSoon(timer: Timer, next: nat, ghost x: nat)
      requires Valid() && Known(s, timer) && timer !in s.active && next < M && x == base + next
      modifies this`current, this`s
      ensures Valid() && s == Armed(old(s), timer, x)
    {
      ArmFiles(current, overflow, base, s.active, Delayed(timer, next), x);
      current := File(current, Delayed(timer, next));
      s := Armed(s, timer, x);
    }

    /** Files the timer in the list for after the next wrap. */
    method FileLater(timer: Timer, next: nat, ghost x: nat)
      requires Valid() && Known(s, timer) && timer !in s.active && next < M && x == base + M + next
      modifies this`overflow, this`s
      ensures Valid() && s == Armed(old(s), timer, x)
    {
      ArmFiles(current, overflow, base, s.active, Delayed(timer, next), x);
      overflow := File(overflow, Delayed(timer, next));
      s := Armed(s, timer, x);
    }

    /** Sends a command to start the timer as of `value`. */
    method Send(timer: Timer, value: nat, ghost x: nat)
      requires SameQueue(queue, s.queue) && value == x % M
      modifies this`queue, this`s
      ensures SameQueue(queue, s.queue) && s == Sent(old(s), timer, x)
    {
      queue := queue + [Command(Start, timer, value)];
      s := Sent(s, timer, x);
    }

    /** Takes the head off the current list and calls it back. */
    method TakeHead() returns (timer: Timer, expiry: nat)
      requires Shows() && current != []
      modifies this`current, this`s
      ensures Shows() && timer == old(current)[0].task && expiry == old(current)[0].wake < M
      ensures timer in old(s).active && old(s).active[timer] == base + expiry && s == Fired(old(s), timer, base + expiry)
      ensures Slack(current) == Slack(old(current)) - M + expiry
    {
      timer, expiry := current[0].task, current[0].wake;
      HeadOff(current, overflow, base, s.active);
      SlackHead(current);
      current := current[1..];
      s := Fired(s, timer, base + expiry);
    }

    /** Arms a timer that has expired for its next expiry, or sends a command to. */
    method Rearm(timer: Timer, expiry: nat, timeNow: nat)
      requires Valid() && Known(s, timer) && timer !in s.active && expiry <= timeNow == lastTime
      modifies this`current, this`overflow, this`queue, this`s
      ensures Valid()
      ensures var x, y := base + expiry, base + expiry + s.config[timer].period;
              s == if y <= last then Sent(old(s), timer, x) else Armed(old(s), timer, y)
    {
      WrappedTime(wraps, base, expiry, config[timer].period);
      var processNow := Insert(timer, (expiry + config[timer].period) % M, timeNow, expiry, base + expiry);
      if processNow { Send(timer, expiry, base + expiry); }
    }

    /** The head of the current list has expired. */
    method ProcessExpired(nextExpire: nat, timeNow: nat)
      requires Valid() && current != [] && nextExpire == current[0].wake <= timeNow == lastTime
      requires Runs(s, current[0].task)
      modifies this`current, this`overflow, this`queue, this`s
      ensures Valid() && s == Expire(old(s), old(current)[0].task, last)
    {
      var timer, expiry := TakeHead();
      if config[timer].reload { Rearm(timer, nextExpire, timeNow); }
    }

    /** Files the timer in the current list, whatever the time. */
    method Refile(timer: Timer, expiry: nat)
      requires Shows() && timer !in s.active && expiry < M
      modifies this`current, this`s
      ensures Shows() && s == Armed(old(s), timer, base + expiry) && Slack(current) == Slack(old(current)) + M - expiry
    {
      ArmFiles(current, overflow, base, s.active, Delayed(timer, expiry), base + expiry);
      SlackInsert(current, FirstAbove(Wakes(current), expiry), Delayed(timer, expiry));
      current := File(current, Delayed(timer, expiry));
      s := Armed(s, timer, base + expiry);
    }

    /** Expires the head of the current list while the tick count is past the wrap. */
    method ExpireHead()
      requires Shows() && current != [] && Runs(s, current[0].task)
      modifies this`current, this`queue, this`s
      ensures Shows() && s == ExpireEarly(old(s), old(current)[0].task, base + M)
      ensures Slack(current) < Slack(old(current))
    {
      var timer, expiry := TakeHead();
      if config[timer].reload {
        var reload := (expiry + config[timer].period) % M;
        WrappedTime(wraps, base, expiry, config[timer].period);
        if reload > expiry { Refile(timer, reload); } else { Send(timer, expiry, base + expiry); }
      }
    }

    /** Expires whatever is left in the current list. */
    method Drain(ghost now: nat) returns (ghost ts: seq<Timer>)
      requires Shows() && Sane(s, now) && base + M <= now
      modifies this`current, this`queue, this`s
      ensures Shows() && Sane(s, now) && current == [] && s == ExpireAll(old(s), ts, base + M)
    {
      ts := [];
      while current != []
        invariant Shows() && Sane(s, now) && s == ExpireAll(old(s), ts, base + M)
        decreases Slack(current)
      {
        ghost var t := current[0].task;
        HeadIsActive(current, overflow, base, s.active);
        SlackPositive(current);
        ExpireKeepsSane(s, t, base + M, now);
        ExpireOneMore(old(s), ts, base + M, t);
        ExpireHead();
        ts := ts + [t];
      }
    }

    /** The tick count has wrapped: whatever is left in the current list has expired.  Then
        the lists change places. */
    method SwitchLists(ghost now: nat) returns (ghost ts: seq<Timer>)
      requires Shows() && Sane(s, now) && base + M <= now
      modifies this`current, this`overflow, this`queue, this`s, this`wraps, this`base
      ensures Shows() && Sane(s, now) && base == old(base) + M && s == ExpireAll(old(s), ts, old(base) + M)
    {
      ts := Drain(now);
      SwapFiles(current, overflow, base, s.active);
      current, overflow := overflow, current;
      wraps, base := wraps + 1, base + M;
    }

    /** While no timer is active the daemon waits without limit, and the count of wraps that
        it has missed does not matter. */
    ghost method Resync(now: nat)
      requires Shows() && s.active == map[]
      modifies this`wraps, this`base
      ensures Shows() && current == [] && overflow == [] && base + now % M == now
    {
      if current != [] || overflow != [] { SomeActive(current, overflow, base, s.active); }
      wraps := now / M;
      base := wraps * M;
      NoneFiled(base);
    }

    /** Looks at the clock, and switches the lists if the tick count has wrapped since. */
    method SampleTimeNow(tick: nat, ghost now: nat) returns (switched: bool, ghost ts: seq<Timer>)
      requires Valid() && tick == now % M && last <= now && (now < last + M || s.active == map[])
      modifies this`current, this`overflow, this`queue, this`lastTime, this`s, this`wraps, this`base, this`last
      ensures Valid() && last == now && lastTime == tick
      ensures s == (if old(base) + M <= now then ExpireAll(old(s), ts, old(base) + M) else old(s))
      ensures now < old(last) + M ==> (switched <==> old(base) + M <= now)
      ensures !switched ==> current == old(current) && s == old(s) && (current != [] ==> now < old(base) + M)
    {
      ts := [];
      switched := tick < lastTime;
      if now < last + M { SampleExact(wraps, base, lastTime, now); }
      if switched { ts := SwitchLists(now); }
      if now >= old(last) + M {
        NothingToExpire(old(s), ts, old(base) + M);
        Resync(now);
      }
      lastTime, last := tick, now;
    }

    /** Processes the head of the current list if it has expired. */
    method ProcessTimer(tick: nat, ghost now: nat) returns (ghost ts: seq<Timer>, ghost moves: seq<Move>)
      requires Valid() && tick == now % M && last <= now && (now < last + M || s.active == map[])
      modifies this`current, this`overflow, this`queue, this`lastTime, this`s, this`wraps, this`base, this`last
      ensures Valid() && last == now
      ensures moves == if old(base) + M <= now then [Switches(ts, old(base) + M)]
                       else if old(current) != [] && old(current)[0].wake <= tick then [Expires(old(current)[0].task, now)]
                       else []
      ensures s == AfterAll(old(s), moves)
    {
      var wasEmpty := current == [];
      var nextExpire := if wasEmpty then 0 else current[0].wake;
      if !wasEmpty { HeadIsActive(current, overflow, base, s.active); }
      var switched;
      switched, ts := SampleTimeNow(tick, now);
      moves := if old(base) + M <= now then [Switches(ts, old(base) + M)] else [];
      if moves != [] { AfterOne(old(s), moves[0]); }
      if !switched && !wasEmpty && nextExpire <= tick {
        moves := [Expires(current[0].task, now)];
        AfterOne(old(s), moves[0]);
        ProcessExpired(nextExpire, tick);
      }
    }

    /** A task or an interrupt sends a command. */
    method Post(c: Command, ghost a: Command)
      requires Valid() && SameCommand(c, a) && Known(s, a.timer)
      modifies this`queue, this`s
      ensures Valid() && s == old(s).(queue := old(s).queue + [a])
    {
      queue := queue + [c];
      s := s.(queue := s.queue + [a]);
    }

    /** Takes the timer out of its list, if it is in one. */
    method Disarm(timer: Timer)
      requires Valid()
      modifies this`current, this`overflow, this`s
      ensures Valid() && s == Disarmed(old(s), timer)
    {
      if In(timer, current) {
        var p :| 0 <= p < |current| && current[p].task == timer;
        DisarmFiles(current, overflow, base, s.active, p);
        current := RemoveAt(current, p);
      } else if In(timer, overflow) {
        var p :| 0 <= p < |overflow| && overflow[p].task == timer;
        DisarmFiles(current, overflow, base, s.active, p);
        overflow := RemoveAt(overflow, p);
      } else {
        NotFiled(current, overflow, base, s.active, timer);
      }
      s := Disarmed(s, timer);
    }

    /** Carries out a start command issued at `c`. */
    method StartTimer(timer: Timer, value: nat, timeNow: nat, ghost c: nat)
      requires Valid() && Known(s, timer) && timer !in s.active
      requires c <= last < c + M && timeNow == lastTime && value == c % M
      modifies this`current, this`overflow, this`queue, this`s
      ensures Valid() && s == Started(old(s), timer, c, last)
    {
      ghost var x := c + s.config[timer].period;
      SameTick(value, c, config[timer].period);
      var expiry := (value + config[timer].period) % M;
      var processNow := Insert(timer, expiry, timeNow, value, c);
      if processNow { FireNow(timer, expiry, x); }
    }

    /** Calls back a timer whose expiry has passed, and sends a command to start it again. */
    method FireNow(timer: Timer, expiry: nat, ghost x: nat)
      requires Valid() && Known(s, timer) && timer !in s.active && x <= last && expiry == x % M
      modifies this`queue, this`s
      ensures Valid() && s == if old(s).config[timer].reload then Sent(Fired(old(s), timer, x), timer, x) else Fired(old(s), timer, x)
    {
      s := Fired(s, timer, x);
      if config[timer].reload { Send(timer, expiry, x); }
    }

    /** Carries out a change of period. */
    method SetPeriod(timer: Timer, period: nat, timeNow: nat)
      requires Valid() && Known(s, timer) && timer !in s.active && timeNow == lastTime && 1 <= period < M
      modifies this`current, this`overflow, this`config, this`s
      ensures Valid() && s == Changed(old(s), timer, period, last)
    {
      config := config[timer := config[timer].(period := period)];
      s := s.(config := config);
      WrappedTime(wraps, base, timeNow, period);
      var processNow := Insert(timer, (timeNow + period) % M, timeNow, timeNow, last);
    }

    /** Carries out the first command in the queue, whose timer is in no list. */
    method CarryOut(timeNow: nat)
      requires Valid() && queue != [] && timeNow == lastTime && s.queue[0].timer !in s.active && Known(s, s.queue[0].timer)
      requires s.queue[0].kind == Start ==> s.queue[0].value <= last
      modifies this`current, this`overflow, this`queue, this`config, this`s
      ensures Valid() && s == Handle(old(s), last)
    {
      var c := queue[0];
      ghost var a := s.queue[0];
      HandleIs(s, last);
      assert SameCommand(c, a);
      TakeCommand();
      match c.kind {
        case Start => StartTimer(c.timer, c.value, timeNow, AsOf(a.value, last));
        case Stop =>
        case ChangePeriod => SetPeriod(c.timer, c.value, timeNow);
      }
    }

    method TakeCommand()
      requires Valid() && queue != []
      modifies this`queue, this`s
      ensures Valid() && s == old(s).(queue := old(s).queue[1..])
    {
      queue := queue[1..];
      s := s.(queue := s.queue[1..]);
    }

    /** Disarms the timer of the first command and looks at the clock. */
    method Prepare(tick: nat, ghost now: nat) returns (ghost ts: seq<Timer>)
      requires Valid() && queue != [] && tick == now % M && last <= now && (now < last + M || s.active == map[])
      modifies this`current, this`overflow, this`queue, this`lastTime, this`s, this`wraps, this`base, this`last
      ensures Valid() && last == now && lastTime == tick && queue != []
      ensures s == Prepared(old(s), old(base) + M <= now, ts, old(base) + M)
      ensures HeadStays(old(s), s) && s.queue[0].timer !in s.active
    {
      var c := queue[0];
      assert SameCommand(c, s.queue[0]);
      Disarm(c.timer);
      ghost var s1 := s;
      var switched;
      switched, ts := SampleTimeNow(tick, now);
      ExpireAllKeeps(s1, ts, old(base) + M, c.timer);
    }

    /** Carries out the first command in the queue.  (It is kept at the head of the queue
        until it is done.) */
    method ProcessCommand(tick: nat, ghost now: nat) returns (ghost ts: seq<Timer>, ghost moves: seq<Move>)
      requires Valid() && queue != [] && tick == now % M && last <= now && (now < last + M || s.active == map[])
      requires s.queue[0].kind == Start ==> s.queue[0].value <= now
      modifies this
      ensures Valid() && last == now
      ensures HeadStays(old(s), Prepared(old(s), old(base) + M <= now, ts, old(base) + M))
      ensures moves == CommandMoves(old(base) + M <= now, ts, old(base) + M, now) && s == AfterAll(old(s), moves)
    {
      ghost var switches, limit := base + M <= now, base + M;
      ts := Prepare(tick, now);
      CommandIsRun(old(s), switches, ts, limit, now);
      moves := CommandMoves(switches, ts, limit, now);
      CarryOut(tick);
    }
  }

  /** The first command is still the same, and about a known timer. */
  predicate HeadStays(s: Service, s': Service)
    requires s.queue != []
  {
    s'.queue != [] && s'.queue[0] == s.queue[0] && Known(s', s'.queue[0].timer)
  }

  /** The service once the timer of the first command is disarmed and the lists have changed
      places, if they have to. */
  function Prepared(s: Service, switches: bool, ts: seq<Timer>, limit: nat): (r: Service)
    requires s.queue != []
  {
    var s1 := Disarmed(s, s.queue[0].timer);
    if switches then ExpireAll(s1, ts, limit) else s1
  }

  function CommandMoves(switches: bool, ts: seq<Timer>, limit: nat, now: nat): (r: seq<Move>)
  {
    (if switches then [Disarms, Switches(ts, limit)] else [Disarms]) + [Handles(now)]
  }

  lemma CommandIsRun(s: Service, switches: bool, ts: seq<Timer>, limit: nat, now: nat)
    requires s.queue != []
    ensures var s2 := Prepared(s, switches, ts, limit);
            s2.queue != [] && Known(s2, s2.queue[0].timer) ==>
              AfterAll(s, CommandMoves(switches, ts, limit, now)) == Handle(s2, now)
  {
    var s1, b := After(s, Disarms), if switches then [Disarms, Switches(ts, limit)] else [Disarms];
    AfterOne(s, Disarms);
    if switches {
      AfterOne(s1, Switches(ts, limit));
      AfterAllAppend(s, [Disarms], [Switches(ts, limit)]);
      assert b == [Disarms] + [Switches(ts, limit)];
    }
    AfterOne(AfterAll(s, b), Handles(now));
    AfterAllAppend(s, b, [Handles(now)]);
  }

  lemma SomeActive(current: seq<Delayed>, overflow: seq<Delayed>, base: nat, active: map<Timer, nat>)
    requires Filed(current, overflow, base, active) && (current != [] || overflow != [])
    ensures active != map[]
  {
    if current != [] {
      assert current[0].task in active;
    } else {
      assert overflow[0].task in active;
    }
  }

  lemma NoneFiled(base: nat)
    ensures Filed([], [], base, map[])
  {
  }

  lemma {:induction false} NothingToExpire(s: Service, ts: seq<Timer>, limit: nat)
    requires s.active == map[]
    ensures ExpireAll(s, ts, limit) == s
    decreases |ts|
  {
    if ts != [] { NothingToExpire(s, ts[..|ts| - 1], limit); }
  }

  lemma NotFiled(current: seq<Delayed>, overflow: seq<Delayed>, base: nat, active: map<Timer, nat>, t: Timer)
    requires Filed(current, overflow, base, active) && !In(t, current) && !In(t, overflow)
    ensures t !in active
  {
  }

  /** Expiring timers leaves the queue as it was, with commands added at the end, and arms
      no timer that was not armed. */
  lemma {:induction false} ExpireAllKeeps(s: Service, ts: seq<Timer>, limit: nat, t: Timer)
    ensures var r := ExpireAll(s, ts, limit);
            s.queue <= r.queue && r.config == s.config && (t !in s.active ==> t !in r.active)
    decreases |ts|
  {
    if ts != [] { ExpireAllKeeps(s, ts[..|ts| - 1], limit, t); }
  }

  lemma HandleIs(s: Service, now: nat)
    requires s.queue != [] && Known(s, s.queue[0].timer) && s.queue[0].timer !in s.active
    ensures var c, s0 := s.queue[0], s.(queue := s.queue[1..]);
            Handle(s, now) == match c.kind
                              case Start => Started(s0, c.timer, AsOf(c.value, now), now)
                              case Stop => s0
                              case ChangePeriod => Changed(s0, c.timer, c.value, now)
  {
    assert s.active - {s.queue[0].timer} == s.active;
  }

  lemma HeadIsActive(current: seq<Delayed>, overflow: seq<Delayed>, base: nat, active: map<Timer, nat>)
    requires Filed(current, overflow, base, active) && current != []
    ensures current[0].task in active && active[current[0].task] == base + current[0].wake && current[0].wake < M
  {
  }

  lemma HeadOff(current: seq<Delayed>, overflow: seq<Delayed>, base: nat, active: map<Timer, nat>)
    requires Filed(current, overflow, base, active) && current != []
    ensures current[0].task in active && active[current[0].task] == base + current[0].wake && current[0].wake < M
    ensures Filed(current[1..], overflow, base, active - {current[0].task})
  {
    DisarmFiles(current, overflow, base, active, 0);
    assert RemoveAt(current, 0) == current[1..];
  }

  lemma ExpireOneMore(s: Service, ts: seq<Timer>, limit: nat, t: Timer)
    requires var s1 := ExpireAll(s, ts, limit); Runs(s1, t) && s1.active[t] < limit
    ensures ExpireAll(s, ts + [t], limit) == ExpireEarly(ExpireAll(s, ts, limit), t, limit)
  {
    assert (ts + [t])[..|ts|] == ts;
  }

  lemma ExpireKeepsSane(s: Service, t: Timer, limit: nat, now: nat)
    requires Sane(s, now) && t in s.active && s.active[t] < limit <= now
    ensures Sane(ExpireEarly(s, t, limit), now)
  {
  }

  /** The wrapped comparison sees whether the tick count has wrapped. */
  lemma SampleExact(wraps: nat, base: nat, lastTime: nat, now: nat)
    requires base == wraps * M && lastTime < M && base + lastTime <= now < base + lastTime + M
    ensures now % M < lastTime <==> base + M <= now
    ensures now == (if base + M <= now then base + M else base) + now % M
  {
    var k := now / M;
    assert now == k * M + now % M && (k == wraps || k == wraps + 1);
  }

  lemma WrappedTime(wraps: nat, base: nat, tick: nat, period: nat)
    requires base == wraps * M && tick < M
    ensures (base + tick) % M == tick && (base + tick + period) % M == (tick + period) % M
  {
  }

  // ----- runs of the daemon -----

  /** The daemon looks for an expired timer or for a command, or is sent one. */
  datatype Call = Look(now: nat) | Obey(now: nat) | Send(c: Command, now: nat)

  /** Commands in the queue were issued by `clock`, and ask for possible periods. */
  predicate Timely(queue: seq<Command>, clock: nat)
  {
    forall i :: 0 <= i < |queue| ==> Issued(queue[i], clock)
  }

  predicate Issued(c: Command, clock: nat)
  {
    (c.kind == Start ==> c.value <= clock) && (c.kind == ChangePeriod ==> 1 <= c.value < M)
  }

  /** Known timers stay known. */
  ghost predicate StillKnown(s: Service, s': Service)
  {
    forall t :: Known(s, t) ==> Known(s', t)
  }

  predicate MoveBy(m: Move, clock: nat)
  {
    match m
    case Expires(_, now) => now <= clock
    case Switches(_, limit) => limit <= clock
    case Disarms => true
    case Handles(now) => now <= clock
    case Receives(c) => Issued(c, clock)
  }

  lemma {:induction false} ExpireAllTimely(s: Service, ts: seq<Timer>, limit: nat, clock: nat)
    requires Timely(s.queue, clock) && limit <= clock
    ensures var r := ExpireAll(s, ts, limit); Timely(r.queue, clock) && r.config == s.config
    decreases |ts|
  {
    if ts != [] { ExpireAllTimely(s, ts[..|ts| - 1], limit, clock); }
  }

  lemma HandleTimely(s: Service, now: nat)
    requires Timely(s.queue, now) && s.queue != [] && Known(s, s.queue[0].timer)
    ensures Timely(Handle(s, now).queue, now) && StillKnown(s, Handle(s, now))
  {
    var c, s0 := s.queue[0], Disarmed(s.(queue := s.queue[1..]), s.queue[0].timer);
    HandledIs(s, s0, now);
    assert Issued(c, now);
    assert Timely(s0.queue, now);
  }

  lemma LaterTimely(queue: seq<Command>, a: nat, b: nat)
    requires Timely(queue, a) && a <= b
    ensures Timely(queue, b)
  {
    forall i | 0 <= i < |queue| ensures Issued(queue[i], b) {
      assert Issued(queue[i], a);
    }
  }

  lemma MoveTimely(s: Service, m: Move, clock: nat)
    requires Timely(s.queue, clock) && MoveBy(m, clock) && (m.Handles? ==> m.now == clock)
    ensures Timely(After(s, m).queue, clock) && StillKnown(s, After(s, m))
  {
    match m {
      case Expires(_, _) =>
      case Switches(ts, limit) => ExpireAllTimely(s, ts, limit, clock);
      case Disarms =>
      case Handles(now) => if s.queue != [] && Known(s, s.queue[0].timer) { HandleTimely(s, now); }
      case Receives(_) =>
    }
  }

  lemma {:induction false} MovesTimely(s: Service, moves: seq<Move>, clock: nat)
    requires Timely(s.queue, clock)
    requires forall i :: 0 <= i < |moves| ==> MoveBy(moves[i], clock) && (moves[i].Handles? ==> moves[i].now == clock)
    ensures Timely(AfterAll(s, moves).queue, clock) && StillKnown(s, AfterAll(s, moves))
    decreases |moves|
  {
    if moves != [] {
      var k := |moves| - 1;
      MovesTimely(s, moves[..k], clock);
      MoveTimely(AfterAll(s, moves[..k]), moves[k], clock);
    }
  }

  /** The calls come in order of time, and the daemon looks at the clock at least once in
      each turn of the tick count. */
  predicate Paced(last: nat, clock: nat, calls: seq<Call>)
    decreases |calls|
  {
    calls == [] ||
    (var e := calls[0];
     && clock <= e.now && (e.Send? || e.now < last + M)
     && Paced(if e.Look? then e.now else last, e.now, calls[1..]))
  }

  /** What is sent is about a known timer and possible. */
  predicate Sendable(s: Service, e: Call)
  {
    e.Send? ==> Known(s, e.c.timer) && Issued(e.c, e.now)
  }

  /** Commands about nobody else than those in the calls are received. */
  predicate OnlyFrom(moves: seq<Move>, calls: seq<Call>)
  {
    forall m :: m in moves && m.Receives? ==> Sends(calls, m.c)
  }

  predicate Sends(calls: seq<Call>, c: Command)
  {
    exists e :: e in calls && e.Send? && e.c == c
  }

  method ObeyOne(d: Daemon, now: nat) returns (ghost moves: seq<Move>)
    requires d.Valid() && d.last <= now && Timely(d.s.queue, now) && (now < d.last + M || d.s.active == map[])
    modifies d
    ensures d.Valid() && old(d.last) <= d.last <= now && d.s == AfterAll(old(d.s), moves)
    ensures forall i :: 0 <= i < |moves| ==> MoveBy(moves[i], now) && !moves[i].Receives? && (moves[i].Handles? ==> moves[i].now == now)
  {
    moves := [];
    if d.queue != [] {
      ghost var ts;
      assert Issued(d.s.queue[0], now);
      ts, moves := d.ProcessCommand(now % M, now);
    }
  }

  /** One call of the daemon's. */
  method ServeOne(d: Daemon, e: Call, ghost clock: nat) returns (ghost moves: seq<Move>)
    requires d.Valid() && d.last <= clock <= e.now && Timely(d.s.queue, clock) && Sendable(d.s, e)
    requires e.Send? || e.now < d.last + M || d.s.active == map[]
    modifies d
    ensures d.Valid() && old(d.last) <= d.last <= e.now && (e.Look? ==> d.last == e.now)
    ensures Timely(d.s.queue, e.now) && StillKnown(old(d.s), d.s)
    ensures d.s == AfterAll(old(d.s), moves) && OnlyFrom(moves, [e])
  {
    ghost var s0 := d.s;
    LaterTimely(s0.queue, clock, e.now);
    match e {
      case Look(now) =>
        ghost var ts;
        ts, moves := d.ProcessTimer(now % M, now);
      case Obey(now) => moves := ObeyOne(d, now);
      case Send(c, _) =>
        d.Post(if c.kind == Start then c.(value := c.value % M) else c, c);
        moves := [Receives(c)];
        AfterOne(s0, moves[0]);
        assert c == e.c && e in [e];
    }
    MovesTimely(s0, moves, e.now);
  }

  /** Whatever the daemon is called upon to do, it carries out a run of the service. */
  method Serve(d: Daemon, calls: seq<Call>) returns (ghost moves: seq<Move>)
    requires d.Valid() && Timely(d.s.queue, d.last) && Paced(d.last, d.last, calls)
    requires forall e :: e in calls ==> Sendable(d.s, e)
    modifies d
    ensures d.Valid() && d.s == AfterAll(old(d.s), moves) && OnlyFrom(moves, calls)
  {
    ghost var looked: nat, clock: nat := d.last, d.last;
    moves := [];
    for i := 0 to |calls|
      invariant d.Valid() && looked <= d.last <= clock && Timely(d.s.queue, clock) && Paced(looked, clock, calls[i..])
      invariant StillKnown(old(d.s), d.s) && d.s == AfterAll(old(d.s), moves) && OnlyFrom(moves, calls)
    {
      ghost var e := calls[i];
      assert calls[i..][0] == e && calls[i..][1..] == calls[i + 1..] && e in calls;
      ghost var more := ServeOne(d, calls[i], clock);
      AfterAllAppend(old(d.s), moves, more);
      assert forall c :: Sends([e], c) ==> Sends(calls, c);
      moves := moves + more;
      looked, clock := if e.Look? then e.now else looked, e.now;
    }
  }
}
