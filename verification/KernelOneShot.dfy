/**
 Timers that do not reload: one start, one callback.  And what stopping a timer and changing
 its period come to.
 */
module KernelOneShot {
  import opened KernelTime
  import opened KernelTimers

  // ----- steps about other timers -----

  lemma SameTrans(a: Service, b: Service, c: Service, t: Timer)
    requires SameFor(a, b, t) && SameFor(b, c, t)
    ensures SameFor(a, c, t)
  {
  }

  lemma ExpireOther(s: Service, u: Timer, time: nat, t: Timer)
    requires t in s.config && u != t && Runs(s, u)
    ensures SameFor(s, Expire(s, u, time), t) && SameFor(s, ExpireEarly(s, u, time), t)
  {
    RenewedOther(s, u, s.active[u], s.active[u] + s.config[u].period, t);
  }

  lemma DisarmOther(s: Service, u: Timer, t: Timer)
    requires t in s.config && (u != t || t !in s.active)
    ensures SameFor(s, Disarmed(s, u), t)
  {
  }

  lemma HandleSame(s: Service, now: nat, t: Timer)
    requires t in s.config && s.queue != [] && s.queue[0].timer != t && Known(s, s.queue[0].timer)
    ensures SameFor(s, Handle(s, now), t)
  {
    var c, s0 := s.queue[0], Disarmed(s.(queue := s.queue[1..]), s.queue[0].timer);
    AboutFirst(s.queue, t);
    assert SameFor(s, s0, t);
    HandledIs(s, s0, now);
    match c.kind {
      case Stop =>
      case ChangePeriod =>
        ChangedOther(s0, c.timer, c.value, now, t);
        SameTrans(s, s0, Handle(s, now), t);
      case Start =>
        StartedOther(s0, c.timer, AsOf(c.value, now), now, t);
        SameTrans(s, s0, Handle(s, now), t);
    }
  }

  // ----- at rest -----

  /** `t` is neither armed nor about to be. */
  predicate AtRest(s: Service, t: Timer)
  {
    t in s.config && t !in s.active && About(s.queue, t) == []
  }

  lemma {:induction false} RestThroughSwitch(s: Service, ts: seq<Timer>, limit: nat, t: Timer)
    requires AtRest(s, t)
    ensures SameFor(s, ExpireAll(s, ts, limit), t)
    decreases |ts|
  {
    if ts != [] {
      var k := |ts| - 1;
      RestThroughSwitch(s, ts[..k], limit, t);
      var s1 := ExpireAll(s, ts[..k], limit);
      if Runs(s1, ts[k]) && s1.active[ts[k]] < limit {
        ExpireOther(s1, ts[k], limit, t);
        SameTrans(s, s1, ExpireEarly(s1, ts[k], limit), t);
      }
    }
  }

  lemma HeadIsOther(s: Service, t: Timer)
    requires AtRest(s, t) && s.queue != []
    ensures s.queue[0].timer != t
  {
    AboutFirst(s.queue, t);
  }

  lemma RestThroughCommand(s: Service, now: nat, t: Timer)
    requires AtRest(s, t)
    ensures SameFor(s, After(s, Handles(now)), t)
  {
    if s.queue != [] && Known(s, s.queue[0].timer) {
      HeadIsOther(s, t);
      HandleSame(s, now, t);
    }
  }

  lemma RestThroughMove(s: Service, m: Move, t: Timer)
    requires AtRest(s, t) && (m.Receives? ==> m.c.timer != t)
    ensures SameFor(s, After(s, m), t)
  {
    match m {
      case Expires(u, now) => if Runs(s, u) && s.active[u] <= now { ExpireOther(s, u, now, t); }
      case Switches(ts, limit) => RestThroughSwitch(s, ts, limit, t);
      case Disarms => if s.queue != [] { DisarmOther(s, s.queue[0].timer, t); }
      case Handles(now) => RestThroughCommand(s, now, t);
      case Receives(c) => AboutAppend(s.queue, c, t);
    }
  }

  /** A timer at rest stays at rest and does not fire, in every run in which nobody commands it. */
  lemma {:induction false} RestsUntilCommanded(s: Service, moves: seq<Move>, t: Timer)
    requires AtRest(s, t) && forall i :: 0 <= i < |moves| && moves[i].Receives? ==> moves[i].c.timer != t
    ensures AtRest(AfterAll(s, moves), t) && Times(AfterAll(s, moves).fired, t) == Times(s.fired, t)
    decreases |moves|
  {
    if moves != [] {
      var k := |moves| - 1;
      RestsUntilCommanded(s, moves[..k], t);
      RestThroughMove(AfterAll(s, moves[..k]), moves[k], t);
    }
  }

  /** Stopping a timer puts it to rest, unless further commands for it are on their way. */
  lemma StopPutsToRest(s: Service, now: nat, t: Timer)
    requires Known(s, t) && s.queue != [] && s.queue[0].kind == Stop && s.queue[0].timer == t && About(s.queue[1..], t) == []
    ensures AtRest(Handle(s, now), t) && Handle(s, now).fired == s.fired
  {
  }

  // ----- one start, one callback -----

  /** `t` does not reload, and was started at `start`: either its one expiry is still to come,
      or it has fired at it and is at rest. */
  predicate Once(s: Service, t: Timer, start: nat, period: nat, before: seq<nat>, done: bool)
  {
    && t in s.config && s.config[t] == Config(period, false) && 1 <= period < M
    && if done then AtRest(s, t) && Times(s.fired, t) == before + [start + period]
       else
         && Times(s.fired, t) == before
         && if t in s.active then s.active[t] == start + period && About(s.queue, t) == []
            else About(s.queue, t) == [Command(Start, t, start)]
  }

  lemma OnceSame(s: Service, s': Service, t: Timer, start: nat, period: nat, before: seq<nat>, done: bool)
    requires Once(s, t, start, period, before, done) && SameFor(s, s', t)
    ensures Once(s', t, start, period, before, done)
  {
  }

  /** What an expiry does to a timer that does not reload: it fires, once, and is neither armed
      again nor sent a command. */
  ghost predicate FiredForGood(s: Service, s': Service, t: Timer, x: nat)
  {
    Times(s'.fired, t) == Times(s.fired, t) + [x] && t !in s'.active && s'.queue == s.queue && s'.config == s.config
  }

  lemma ExpiresForGood(s: Service, t: Timer, time: nat)
    requires Runs(s, t) && !s.config[t].reload
    ensures FiredForGood(s, Expire(s, t, time), t, s.active[t]) && FiredForGood(s, ExpireEarly(s, t, time), t, s.active[t])
  {
    TimesAppend(s.fired, Fire(t, s.active[t]), t);
  }

  /** A start carried out when the expiry has passed fires at once, and otherwise arms. */
  lemma StartsForGood(s: Service, t: Timer, c: nat, now: nat)
    requires Known(s, t) && !s.config[t].reload && t !in s.active
    ensures var x, s' := c + s.config[t].period, Started(s, t, c, now);
            if x <= now then FiredForGood(s, s', t, x)
            else s'.active == s.active[t := x] && s'.queue == s.queue && s'.fired == s.fired && s'.config == s.config
  {
    var x := c + s.config[t].period;
    TimesAppend(s.fired, Fire(t, x), t);
    assert x <= now ==> Started(s, t, c, now) == Fired(s, t, x);
  }

  lemma {:induction false} OnceThroughSwitch(s: Service, ts: seq<Timer>, limit: nat,
                                             t: Timer, start: nat, period: nat, before: seq<nat>, done: bool) returns (done': bool)
    requires Once(s, t, start, period, before, done)
    ensures (done ==> done') && Once(ExpireAll(s, ts, limit), t, start, period, before, done')
    decreases |ts|
  {
    done' := done;
    if ts != [] {
      var k := |ts| - 1;
      done' := OnceThroughSwitch(s, ts[..k], limit, t, start, period, before, done);
      var s1 := ExpireAll(s, ts[..k], limit);
      if Runs(s1, ts[k]) && s1.active[ts[k]] < limit {
        if ts[k] == t {
          ExpiresForGood(s1, t, limit);
          done' := true;
        } else {
          ExpireOther(s1, ts[k], limit, t);
          OnceSame(s1, ExpireEarly(s1, ts[k], limit), t, start, period, before, done');
        }
      }
    }
  }

  lemma OnceThroughCommand(s: Service, now: nat, t: Timer, start: nat, period: nat, before: seq<nat>, done: bool)
    requires Once(s, t, start, period, before, done) && s.queue != [] && Known(s, s.queue[0].timer)
    requires s.queue[0].timer == t ==> now < s.queue[0].value + M
    ensures Once(Handle(s, now), t, start, period, before, done || (s.queue[0].timer == t && start + period <= now))
  {
    if s.queue[0].timer == t {
      OnceOwn(s, now, t, start, period, before, done);
    } else {
      HandleSame(s, now, t);
      OnceSame(s, Handle(s, now), t, start, period, before, done);
    }
  }

  lemma OnceOwn(s: Service, now: nat, t: Timer, start: nat, period: nat, before: seq<nat>, done: bool)
    requires Once(s, t, start, period, before, done) && s.queue != [] && s.queue[0].timer == t && now < s.queue[0].value + M
    ensures Once(Handle(s, now), t, start, period, before, done || start + period <= now)
  {
    AboutFirst(s.queue, t);
    assert About(s.queue, t)[0] == s.queue[0] && About(s.queue, t)[1..] == About(s.queue[1..], t);
    assert s.queue[0] == Command(Start, t, start) && !done;
    var s0 := Disarmed(s.(queue := s.queue[1..]), t);
    HandledIs(s, s0, now);
    StartsForGood(s0, t, start, now);
  }

  lemma OnceThroughMove(s: Service, m: Move, t: Timer, start: nat, period: nat, before: seq<nat>, done: bool) returns (done': bool)
    requires Once(s, t, start, period, before, done) && Undisturbed(s, m, t)
    ensures (done ==> done') && Once(After(s, m), t, start, period, before, done')
  {
    done' := done;
    match m {
      case Expires(u, now) =>
        if Runs(s, u) && s.active[u] <= now {
          if u == t {
            ExpiresForGood(s, t, now);
            done' := true;
          } else {
            ExpireOther(s, u, now, t);
            OnceSame(s, Expire(s, u, now), t, start, period, before, done);
          }
        }
      case Switches(ts, limit) => done' := OnceThroughSwitch(s, ts, limit, t, start, period, before, done);
      case Disarms => if s.queue != [] { OnceThroughDisarm(s, t, start, period, before, done); }
      case Handles(now) =>
        if s.queue != [] && Known(s, s.queue[0].timer) {
          OnceThroughCommand(s, now, t, start, period, before, done);
          done' := done || (s.queue[0].timer == t && start + period <= now);
        }
      case Receives(c) => AboutAppend(s.queue, c, t);
    }
  }

  lemma OnceThroughDisarm(s: Service, t: Timer, start: nat, period: nat, before: seq<nat>, done: bool)
    requires Once(s, t, start, period, before, done) && s.queue != []
    ensures Once(Disarmed(s, s.queue[0].timer), t, start, period, before, done)
  {
    AboutFirst(s.queue, t);
    DisarmOther(s, s.queue[0].timer, t);
    OnceSame(s, Disarmed(s, s.queue[0].timer), t, start, period, before, done);
  }

  /** In every run in which it is undisturbed, a timer that does not reload fires at most once,
      at start + period. */
  lemma {:induction false} RunFiresOnce(s: Service, moves: seq<Move>, t: Timer, start: nat, period: nat,
                                        before: seq<nat>, done: bool) returns (done': bool)
    requires Once(s, t, start, period, before, done) && NeverDisturbed(s, moves, t)
    ensures (done ==> done') && Once(AfterAll(s, moves), t, start, period, before, done')
    decreases |moves|
  {
    done' := done;
    if moves != [] {
      var k := |moves| - 1;
      forall i | 0 <= i < k ensures Undisturbed(AfterAll(s, moves[..k][..i]), moves[..k][i], t) {
        assert moves[..k][..i] == moves[..i];
      }
      done' := RunFiresOnce(s, moves[..k], t, start, period, before, done);
      done' := OnceThroughMove(AfterAll(s, moves[..k]), moves[k], t, start, period, before, done');
    }
  }

  /** And once the queue is empty and nothing is overdue, it has fired exactly if its expiry
      has been reached. */
  lemma FiredIfReached(s: Service, now: nat, t: Timer, start: nat, period: nat, before: seq<nat>, done: bool)
    requires Once(s, t, start, period, before, done) && s.queue == []
    requires forall u :: u in s.active ==> now < s.active[u]
    requires forall f :: f in s.fired ==> f.time <= now
    ensures start + period <= now <==> done
  {
    if done {
      TimesAreFired(s.fired, t, |before|);
      assert Times(s.fired, t)[|before|] == start + period;
    }
  }

  // ----- beginnings -----

  /** A start command begins it, if nothing else is pending for the timer. */
  lemma StartBegins(s: Service, t: Timer, start: nat)
    requires Known(s, t) && !s.config[t].reload && About(s.queue, t) == [Command(Start, t, start)] && t !in s.active
    ensures Once(s, t, start, s.config[t].period, Times(s.fired, t), false)
  {
  }

  /** A change of period starts the timer anew, from now and with the new period, whether it
      reloads or not and whether it was active or not. */
  lemma ChangeBeginsAnew(s: Service, now: nat, t: Timer, period: nat)
    requires Known(s, t) && 1 <= period < M && s.queue != [] && s.queue[0] == Command(ChangePeriod, t, period)
    requires About(s.queue[1..], t) == []
    ensures var r := Handle(s, now);
            if s.config[t].reload then OnSchedule(r, t, now, period, Times(s.fired, t), 0)
            else Once(r, t, now, period, Times(s.fired, t), false)
  {
    var s0 := Disarmed(s.(queue := s.queue[1..]), t);
    HandledIs(s, s0, now);
    assert Times(s.fired, t) == Times(s.fired, t) + Schedule(now, period, 0);
    assert Expiry(now, period, 1) == Expiry(now, period, 0) + period;
  }
}
