/**
 Event groups: tasks wait in a list for any or all of some bits, encoded with control
 bits in their event item values; setting bits releases every waiter whose condition the
 new bits satisfy, and only then clears what the released ones asked to have cleared.
 */
module KernelEvents {

  type Task = nat

  /** A 32-bit event value, as the set of the positions of its one bits. */
  type Bits = set<nat>

  const CLEAR_ON_EXIT: nat := 24
  const UNBLOCKED: nat := 25
  const WAIT_FOR_ALL: nat := 26
  const IN_USE: nat := 31
  const CONTROL: Bits := {24, 25, 26, 27, 28, 29, 30, 31}

  datatype Waiter = Waiter(task: Task, value: Bits)

  // ----- the item value of a waiter -----

  function Encode(wanted: Bits, clear: bool, all: bool): (v: Bits)
    requires wanted !! CONTROL
    ensures Wanted(v) == wanted && WantsAll(v) == all && WantsClear(v) == clear && UNBLOCKED !in v
    ensures IN_USE in v && v <= wanted + CONTROL
  {
    wanted + (if clear then {CLEAR_ON_EXIT} else {}) + (if all then {WAIT_FOR_ALL} else {}) + {IN_USE}
  }

  function Wanted(v: Bits): (r: Bits) { v - CONTROL }
  predicate WantsAll(v: Bits) { WAIT_FOR_ALL in v }
  predicate WantsClear(v: Bits) { CLEAR_ON_EXIT in v }

  /** The wait condition. */
  predicate Test(bits: Bits, wanted: Bits, all: bool)
  {
    if all then bits * wanted == wanted else bits * wanted != {}
  }

  /** `all` asks for a superset, `any` for a common bit. */
  lemma TestMeans(bits: Bits, wanted: Bits)
    ensures Test(bits, wanted, true) <==> wanted <= bits
    ensures Test(bits, wanted, false) <==> exists b :: b in wanted && b in bits
  {
    assert wanted <= bits ==> bits * wanted == wanted;
    if b :| b in wanted && b in bits { assert b in bits * wanted; }
    if b :| b in bits * wanted { assert b in wanted && b in bits; }
  }

  predicate Satisfied(v: Bits, bits: Bits)
  {
    Test(bits, Wanted(v), WantsAll(v))
  }

  /** Nobody in the list waits for what has already happened. */
  ghost predicate NobodyMissed(ws: seq<Waiter>, bits: Bits)
  {
    bits !! CONTROL && forall w :: w in ws ==> !Satisfied(w.value, bits)
  }

  lemma ClearingSatisfiesNobody(ws: seq<Waiter>, bits: Bits, clear: Bits)
    requires NobodyMissed(ws, bits)
    ensures NobodyMissed(ws, bits - clear)
  {
    forall w | w in ws ensures !Satisfied(w.value, bits - clear) {
      TestMeans(bits, Wanted(w.value));
      TestMeans(bits - clear, Wanted(w.value));
    }
  }

  // ----- what setting bits does to the waiters -----

  /** Those whose condition `bits` does not satisfy, in order. */
  function Unmet(ws: seq<Waiter>, bits: Bits): (r: seq<Waiter>)
  {
    if ws == [] then []
    else Unmet(ws[..|ws| - 1], bits) + if Satisfied(ws[|ws| - 1].value, bits) then [] else [ws[|ws| - 1]]
  }

  /** The tasks of the others, in order. */
  function Met(ws: seq<Waiter>, bits: Bits): (r: seq<Task>)
  {
    if ws == [] then []
    else Met(ws[..|ws| - 1], bits) + if Satisfied(ws[|ws| - 1].value, bits) then [ws[|ws| - 1].task] else []
  }

  /** Those who stay keep their order, and those who are released leave in theirs. */
  lemma {:induction false} OrderIsKept(a: seq<Waiter>, b: seq<Waiter>, bits: Bits)
    ensures Unmet(a + b, bits) == Unmet(a, bits) + Unmet(b, bits)
    ensures Met(a + b, bits) == Met(a, bits) + Met(b, bits)
    decreases |b|
  {
    if b == [] {
      assert a + b == a;
    } else {
      assert (a + b)[..|a + b| - 1] == a + b[..|b| - 1];
      OrderIsKept(a, b[..|b| - 1], bits);
    }
  }

  lemma OneWaiter(w: Waiter, bits: Bits)
    ensures Unmet([w], bits) == if Satisfied(w.value, bits) then [] else [w]
    ensures Met([w], bits) == if Satisfied(w.value, bits) then [w.task] else []
  {
    assert [w][..0] == [] && Unmet([], bits) == [] && Met([], bits) == [];
  }

  /** A bit is cleared exactly when some released waiter wanted it and asked for that. */
  ghost predicate IsCleared(ws: seq<Waiter>, bits: Bits, b: nat)
  {
    exists w :: w in ws && Satisfied(w.value, bits) && WantsClear(w.value) && b in Wanted(w.value)
  }

  lemma {:induction false} WhoIsUnmet(ws: seq<Waiter>, bits: Bits)
    ensures forall w :: w in Unmet(ws, bits) <==> w in ws && !Satisfied(w.value, bits)
    decreases |ws|
  {
    if ws != [] {
      WhoIsUnmet(ws[..|ws| - 1], bits);
      assert ws == ws[..|ws| - 1] + [ws[|ws| - 1]];
    }
  }

  ghost predicate MetIn(ws: seq<Waiter>, bits: Bits, t: Task)
  {
    exists w :: w in ws && w.task == t && Satisfied(w.value, bits)
  }

  /** Released are exactly the tasks with a satisfied wait. */
  lemma {:induction false} WhoIsMet(ws: seq<Waiter>, bits: Bits)
    ensures forall t :: t in Met(ws, bits) <==> MetIn(ws, bits, t)
    ensures |Met(ws, bits)| + |Unmet(ws, bits)| == |ws|
    decreases |ws|
  {
    if ws != [] {
      var front, last := ws[..|ws| - 1], ws[|ws| - 1];
      WhoIsMet(front, bits);
      assert ws == front + [last];
      forall t ensures t in Met(ws, bits) <==> MetIn(ws, bits, t) { OneMore(front, last, bits, t); }
    }
  }

  lemma OneMore(front: seq<Waiter>, last: Waiter, bits: Bits, t: Task)
    ensures MetIn(front + [last], bits, t) <==> MetIn(front, bits, t) || (last.task == t && Satisfied(last.value, bits))
  {
    var ws := front + [last];
    assert last in ws;
    if w :| w in front && w.task == t && Satisfied(w.value, bits) { assert w in ws; }
  }

  lemma OneMoreCleared(front: seq<Waiter>, last: Waiter, bits: Bits)
    ensures forall b :: IsCleared(front + [last], bits, b) <==>
                        IsCleared(front, bits, b) || (Satisfied(last.value, bits) && WantsClear(last.value) && b in Wanted(last.value))
  {
    var ws := front + [last];
    assert last in ws;
    forall b ensures IsCleared(ws, bits, b) <==>
                     IsCleared(front, bits, b) || (Satisfied(last.value, bits) && WantsClear(last.value) && b in Wanted(last.value))
    {
      if w :| w in front && Satisfied(w.value, bits) && WantsClear(w.value) && b in Wanted(w.value) { assert w in ws; }
    }
  }

  // ----- the group -----

  /** One more waiter is looked at. */
  lemma NextWaiter(ws: seq<Waiter>, i: nat, bits: Bits, released: seq<Waiter>)
    requires i < |ws| && HandedOut(ws[..i], bits, released)
    ensures Unmet(ws[..i + 1], bits) == Unmet(ws[..i], bits) + if Satisfied(ws[i].value, bits) then [] else [ws[i]]
    ensures HandedOut(ws[..i + 1], bits, if Satisfied(ws[i].value, bits) then released + [Waiter(ws[i].task, bits + {UNBLOCKED, IN_USE})] else released)
    ensures forall b :: IsCleared(ws[..i + 1], bits, b) <==>
                        IsCleared(ws[..i], bits, b) || (Satisfied(ws[i].value, bits) && WantsClear(ws[i].value) && b in Wanted(ws[i].value))
  {
    assert ws[..i + 1] == ws[..i] + [ws[i]] && ws[..i + 1][..i] == ws[..i];
    OneMoreCleared(ws[..i], ws[i], bits);
  }

  /** `after` keeps of `now` what no released waiter wants cleared. */
  ghost predicate ClearedExactly(ws: seq<Waiter>, now: Bits, after: Bits)
  {
    forall b :: b in after <==> b in now && !IsCleared(ws, now, b)
  }

  /** The same, and `own` is cleared too. */
  ghost predicate ClearedApart(ws: seq<Waiter>, now: Bits, own: Bits, after: Bits)
  {
    forall b :: b in after <==> b in now && b !in own && !IsCleared(ws, now, b)
  }

  class EventGroup {
    var bits: Bits
    var waiters: seq<Waiter>

    ghost predicate Valid()
      reads this
    {
      NobodyMissed(waiters, bits)
    }

    constructor ()
      ensures Valid() && bits == {} && waiters == []
    {
      bits, waiters := {}, [];
    }

    /** Sets bits and releases the waiters that are now satisfied. All of them are handed
        the same bits, those before anything is cleared. */
    method SetBits(set': Bits) returns (released: seq<Waiter>, r: Bits)
      requires Valid() && set' !! CONTROL
      modifies this
      ensures Valid() && r == bits && waiters == Unmet(old(waiters), old(bits) + set')
      ensures HandedOut(old(waiters), old(bits) + set', released)
      ensures ClearedExactly(old(waiters), old(bits) + set', bits)
    {
      bits := bits + set';
      released := [];
      var left: seq<Waiter>, clear: Bits, i := [], {}, 0;
      while i < |waiters|
        invariant 0 <= i <= |waiters| && bits == old(bits) + set' && waiters == old(waiters)
        invariant left == Unmet(waiters[..i], bits) && HandedOut(waiters[..i], bits, released)
        invariant forall b :: b in clear <==> IsCleared(waiters[..i], bits, b)
      {
        var w := waiters[i];
        NextWaiter(waiters, i, bits, released);
        if Satisfied(w.value, bits) {
          if WantsClear(w.value) { clear := clear + Wanted(w.value); }
          released := released + [Waiter(w.task, bits + {UNBLOCKED, IN_USE})];
        } else {
          left := left + [w];
        }
        i := i + 1;
      }
      assert waiters[..i] == waiters;
      WhoIsUnmet(waiters, bits);
      ClearingSatisfiesNobody(left, bits, clear);
      waiters := left;
      bits := bits - clear;
      r := bits;
    }

    method ClearBits(clear: Bits) returns (r: Bits)
      requires Valid() && clear !! CONTROL
      modifies this`bits
      ensures Valid() && r == old(bits) && bits == old(bits) - clear
    {
      r := bits;
      ClearingSatisfiesNobody(waiters, bits, clear);
      bits := bits - clear;
    }

    /** Waits for any or all of some bits: satisfied at once, given up, or put in the list. */
    method WaitBits(task: Task, wanted: Bits, clear: bool, all: bool, wait: bool) returns (blocked: bool, r: Bits)
      requires Valid() && wanted !! CONTROL && wanted != {}
      modifies this
      ensures Valid() && (blocked <==> !Test(old(bits), wanted, all) && wait)
      ensures blocked ==> bits == old(bits) && waiters == old(waiters) + [Waiter(task, Encode(wanted, clear, all))]
      ensures !blocked ==> r == old(bits) && waiters == old(waiters)
                           && bits == if Test(old(bits), wanted, all) && clear then old(bits) - wanted else old(bits)
    {
      blocked, r := false, bits;
      if Test(bits, wanted, all) {
        ClearingSatisfiesNobody(waiters, bits, wanted);
        if clear { bits := bits - wanted; }
      } else if wait {
        waiters := waiters + [Waiter(task, Encode(wanted, clear, all))];
        blocked, r := true, {};
      }
    }

    /** Rendezvous: sets this task's bits, then waits for everybody's. */
    method Sync(task: Task, set': Bits, wanted: Bits, wait: bool) returns (blocked: bool, r: Bits, released: seq<Waiter>)
      requires Valid() && set' !! CONTROL && wanted !! CONTROL && wanted != {}
      modifies this
      ensures Valid()
      ensures Synced(State(old(bits), old(waiters)), Call(task, set', wanted, wait), State(bits, waiters), Outcome(blocked, r, released))
    {
      var original := bits;
      var ignored;
      released, ignored := SetBits(set');
      blocked, r := false, bits;
      TestMeans(original + set', wanted);
      if (original + set') * wanted == wanted {
        r := original + set';
        ClearingSatisfiesNobody(waiters, bits, wanted);
        bits := bits - wanted;
      } else if wait {
        TestMeans(bits, wanted);
        waiters := waiters + [Waiter(task, Encode(wanted, true, true))];
        blocked, r := true, {};
      }
    }

    /** A waiter times out: the tick takes it off the list. */
    method TimeOut(i: nat)
      requires Valid() && i < |waiters|
      modifies this`waiters
      ensures Valid() && waiters == old(waiters)[..i] + old(waiters)[i + 1..]
    {
      waiters := waiters[..i] + waiters[i + 1..];
    }

    /** What a call that blocked returns once its task runs again, `v` being the task's item
        value: the bits that released it or, after a timeout, the present ones, which may
        satisfy it in the meantime. */
    method Wake(v: Bits, wanted: Bits, clear: bool, all: bool) returns (r: Bits)
      requires Valid() && wanted !! CONTROL
      modifies this`bits
      ensures Valid() && r == if UNBLOCKED in v then v - CONTROL else old(bits)
      ensures bits == if UNBLOCKED !in v && Test(old(bits), wanted, all) && clear then old(bits) - wanted else old(bits)
    {
      r := v;
      if UNBLOCKED !in v {
        r := bits;
        ClearingSatisfiesNobody(waiters, bits, wanted);
        if Test(bits, wanted, all) && clear { bits := bits - wanted; }
      }
      r := r - CONTROL;
    }
  }

  /** `released` are the satisfied waiters of `ws`, in order, each with the item value from
      which it will read back `bits`. */
  ghost predicate HandedOut(ws: seq<Waiter>, bits: Bits, released: seq<Waiter>)
  {
    && |released| == |Met(ws, bits)|
    && forall i :: 0 <= i < |released| ==> released[i] == Waiter(Met(ws, bits)[i], bits + {UNBLOCKED, IN_USE})
  }

  // ----- whole rendezvous -----

  datatype State = State(bits: Bits, waiters: seq<Waiter>)
  datatype Call = Call(task: Task, own: Bits, wanted: Bits, wait: bool)
  datatype Outcome = Outcome(blocked: bool, r: Bits, released: seq<Waiter>)

  /** What one call of Sync does. */
  ghost predicate Synced(s: State, c: Call, s': State, o: Outcome)
    requires c.wanted !! CONTROL
  {
    var now, rest := s.bits + c.own, Unmet(s.waiters, s.bits + c.own);
    && HandedOut(s.waiters, now, o.released)
    && if c.wanted <= now then
         !o.blocked && o.r == now && s'.waiters == rest && ClearedApart(s.waiters, now, c.wanted, s'.bits)
       else if c.wait then
         o.blocked && s'.waiters == rest + [Waiter(c.task, Encode(c.wanted, true, true))] && ClearedExactly(s.waiters, now, s'.bits)
       else
         !o.blocked && o.r == s'.bits && s'.waiters == rest && ClearedExactly(s.waiters, now, s'.bits)
  }

  /** A list of tasks that all wait to meet at the same bits. */
  function Meeting(ts: seq<Task>, wanted: Bits): (ws: seq<Waiter>)
    requires wanted !! CONTROL
  {
    seq(|ts|, i requires 0 <= i < |ts| => Waiter(ts[i], Encode(wanted, true, true)))
  }

  lemma MeetingTest(wanted: Bits, bits: Bits)
    requires wanted !! CONTROL
    ensures Satisfied(Encode(wanted, true, true), bits) <==> wanted <= bits
  {
    TestMeans(bits, wanted);
  }

  /** The bits satisfy all of a meeting or none of it. */
  lemma {:induction false} AllOrNone(ts: seq<Task>, wanted: Bits, bits: Bits)
    requires wanted !! CONTROL
    ensures var ws := Meeting(ts, wanted);
            if wanted <= bits then Met(ws, bits) == ts && Unmet(ws, bits) == []
            else Met(ws, bits) == [] && Unmet(ws, bits) == ws
    decreases |ts|
  {
    if ts != [] {
      var ws, front := Meeting(ts, wanted), ts[..|ts| - 1];
      AllOrNone(front, wanted, bits);
      assert ws[..|ws| - 1] == Meeting(front, wanted);
      assert ts == front + [ts[|ts| - 1]];
      MeetingTest(wanted, bits);
      assert ws[|ws| - 1] == Waiter(ts[|ts| - 1], Encode(wanted, true, true));
    }
  }

  /** The bits that the first n calls set. */
  function Contributed(cs: seq<Call>, n: nat): (r: Bits)
    requires n <= |cs|
  {
    if n == 0 then {} else Contributed(cs, n - 1) + cs[n - 1].own
  }

  function Tasks(cs: seq<Call>): (ts: seq<Task>) { seq(|cs|, i requires 0 <= i < |cs| => cs[i].task) }

  /** A run of waiting calls that all want the same bits. */
  ghost predicate Run(ss: seq<State>, cs: seq<Call>, os: seq<Outcome>, wanted: Bits)
  {
    && wanted !! CONTROL && |ss| == |cs| + 1 && |os| == |cs|
    && forall i :: 0 <= i < |cs| ==> RunStep(ss, cs, os, wanted, i)
  }

  ghost predicate RunStep(ss: seq<State>, cs: seq<Call>, os: seq<Outcome>, wanted: Bits, i: nat)
    requires wanted !! CONTROL && |ss| == |cs| + 1 && |os| == |cs| && i < |cs|
  {
    cs[i].wanted == wanted && cs[i].wait && Synced(ss[i], cs[i], ss[i + 1], os[i])
  }

  lemma OneArrives(s: State, ts: seq<Task>, c: Call, s': State, o: Outcome)
    requires c.wanted !! CONTROL && c.wait && s.waiters == Meeting(ts, c.wanted)
    requires Synced(s, c, s', o) && !(c.wanted <= s.bits + c.own)
    ensures o.blocked && o.released == [] && s' == State(s.bits + c.own, Meeting(ts + [c.task], c.wanted))
  {
    var now := s.bits + c.own;
    AllOrNone(ts, c.wanted, now);
    NothingCleared(s.waiters, now, s'.bits);
    assert Meeting(ts + [c.task], c.wanted) == s.waiters + [Waiter(c.task, Encode(c.wanted, true, true))];
  }

  /** Until the wanted bits are complete, everybody who arrives blocks and nobody leaves. */
  lemma {:induction false} Gathering(ss: seq<State>, cs: seq<Call>, os: seq<Outcome>, wanted: Bits, n: nat)
    requires Run(ss, cs, os, wanted) && n <= |cs| && ss[0].waiters == []
    requires forall i :: 0 < i <= n ==> !(wanted <= ss[0].bits + Contributed(cs, i))
    ensures ss[n] == State(ss[0].bits + Contributed(cs, n), Meeting(Tasks(cs[..n]), wanted))
    ensures forall i :: 0 <= i < n ==> os[i].blocked && os[i].released == []
  {
    if n > 0 {
      Gathering(ss, cs, os, wanted, n - 1);
      assert RunStep(ss, cs, os, wanted, n - 1);
      assert ss[n - 1].bits + cs[n - 1].own == ss[0].bits + Contributed(cs, n);
      OneArrives(ss[n - 1], Tasks(cs[..n - 1]), cs[n - 1], ss[n], os[n - 1]);
      assert Tasks(cs[..n]) == Tasks(cs[..n - 1]) + [cs[n - 1].task];
    }
  }

  lemma OnlyTheMetClear(ws: seq<Waiter>, bits: Bits)
    ensures forall b :: IsCleared(ws, bits, b) ==> Met(ws, bits) != []
  {
    WhoIsMet(ws, bits);
    forall b | IsCleared(ws, bits, b) ensures Met(ws, bits) != [] {
      var w :| w in ws && Satisfied(w.value, bits) && WantsClear(w.value) && b in Wanted(w.value);
      assert MetIn(ws, bits, w.task);
    }
  }

  lemma NothingCleared(ws: seq<Waiter>, now: Bits, after: Bits)
    requires Met(ws, now) == [] && ClearedExactly(ws, now, after)
    ensures after == now
  {
    OnlyTheMetClear(ws, now);
  }

  /** The rendezvous: the call that completes the wanted bits, and no earlier one, releases
      all who gathered, in the order of their arrival; all of them and the last caller read
      the same bits, and the wanted bits are gone, ready for the next rendezvous. */
  lemma Rendezvous(ss: seq<State>, cs: seq<Call>, os: seq<Outcome>, wanted: Bits)
    requires Run(ss, cs, os, wanted) && ss[0].waiters == [] && |cs| > 0
    requires forall i :: 0 < i < |cs| ==> !(wanted <= ss[0].bits + Contributed(cs, i))
    requires wanted <= ss[0].bits + Contributed(cs, |cs|)
    requires ss[0].bits + Contributed(cs, |cs|) !! CONTROL
    ensures var n, all := |cs| - 1, ss[0].bits + Contributed(cs, |cs|);
            && (forall i :: 0 <= i < n ==> os[i].blocked && os[i].released == [])
            && !os[n].blocked && os[n].r == all && |os[n].released| == n
            && (forall i :: 0 <= i < n ==> var w := os[n].released[i];
                            w.task == cs[i].task && UNBLOCKED in w.value && w.value - CONTROL == all)
            && ss[n + 1] == State(all - wanted, [])
  {
    var n, all := |cs| - 1, ss[0].bits + Contributed(cs, |cs|);
    Gathering(ss, cs, os, wanted, n);
    assert RunStep(ss, cs, os, wanted, n);
    assert ss[n].bits + cs[n].own == all;
    LastArrives(ss[n], Tasks(cs[..n]), cs[n], ss[n + 1], os[n]);
  }

  lemma LastArrives(s: State, ts: seq<Task>, c: Call, s': State, o: Outcome)
    requires c.wanted !! CONTROL && c.wait && s.waiters == Meeting(ts, c.wanted)
    requires Synced(s, c, s', o) && c.wanted <= s.bits + c.own && s.bits + c.own !! CONTROL
    ensures var all := s.bits + c.own;
            && !o.blocked && o.r == all && |o.released| == |ts| && s' == State(all - c.wanted, [])
            && forall i :: 0 <= i < |ts| ==> var w := o.released[i];
                           w.task == ts[i] && UNBLOCKED in w.value && w.value - CONTROL == all
  {
    var all := s.bits + c.own;
    AllOrNone(ts, c.wanted, all);
    forall b | IsCleared(s.waiters, all, b) ensures b in c.wanted {
      var w :| w in s.waiters && b in Wanted(w.value);
      var i :| 0 <= i < |s.waiters| && w == s.waiters[i];
      assert w == Waiter(ts[i], Encode(c.wanted, true, true));
    }
    assert s'.bits == all - c.wanted;
    assert all + {UNBLOCKED, IN_USE} - CONTROL == all;
  }
}
