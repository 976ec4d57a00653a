/**
 What sets keep without power cuts, and that the log refines a plain map; runs with power
 cuts; and concrete logs on which a set goes wrong.
 */
module SysparamRuns {
  import opened Flash
  import opened Options
  import opened SysparamLog
  import opened SysparamCompact
  import opened SysparamSet

  // ----- what power-cut-free runs keep -----

  ghost predicate HasOwner(log: seq<Entry>, j: nat)
    requires j < |log|
  {
    exists i :: 0 <= i < j && log[i].IsKey() && log[i].Id() == log[j].Id()
  }

  /** Each live value comes after the live key with its id, and is the only live value
      with that id. */
  ghost predicate Clean(log: seq<Entry>)
  {
    && WellFormed(log)
    && (forall j :: 0 <= j < |log| && log[j].IsValue() ==> HasOwner(log, j))
    && (forall i, j :: 0 <= i < j < |log| && log[i].IsValue() && log[j].IsValue() ==> log[i].Id() != log[j].Id())
  }

  ghost predicate NoValueWith(log: seq<Entry>, id: nat)
  {
    forall j :: 0 <= j < |log| && log[j].IsValue() ==> log[j].Id() != id
  }

  lemma AppendKeyClean(log: seq<Entry>, e: Entry)
    requires Clean(log) && WellFormed(log + [e]) && !e.IsValue()
    ensures Clean(log + [e])
  {
    var log' := log + [e];
    forall j | 0 <= j < |log'| && log'[j].IsValue() ensures HasOwner(log', j) {
      assert log[j].IsValue() && HasOwner(log, j);
      var i :| 0 <= i < j && log[i].IsKey() && log[i].Id() == log[j].Id();
      assert log'[i].IsKey() && log'[i].Id() == log'[j].Id();
    }
  }

  lemma AppendValueClean(log: seq<Entry>, e: Entry, i: nat)
    requires Clean(log) && e.IsValue() && e.InFormat() && NoValueWith(log, e.Id())
    requires i < |log| && log[i].IsKey() && log[i].Id() == e.Id()
    ensures Clean(log + [e])
  {
    var log' := log + [e];
    AppendOther(log, e, []);
    forall j | 0 <= j < |log'| && log'[j].IsValue() ensures HasOwner(log', j) {
      if j < |log| {
        assert log[j].IsValue() && HasOwner(log, j);
        var i :| 0 <= i < j && log[i].IsKey() && log[i].Id() == log[j].Id();
        assert log'[i].IsKey() && log'[i].Id() == log'[j].Id();
      } else {
        assert log'[i].IsKey() && log'[i].Id() == log'[j].Id();
      }
    }
  }

  lemma KillClean(log: seq<Entry>, j: nat)
    requires Clean(log) && j < |log| && log[j].IsValue()
    ensures Clean(Kill(log, j)) && NoValueWith(Kill(log, j), log[j].Id())
  {
    var log' := Kill(log, j);
    KillWellFormed(log, j);
    KilledIsDead(log[j]);
    forall k | 0 <= k < |log'| && log'[k].IsValue() ensures HasOwner(log', k) {
      assert log[k].IsValue() && HasOwner(log, k);
      var i :| 0 <= i < k && log[i].IsKey() && log[i].Id() == log[k].Id();
      assert log'[i].IsKey() && log'[i].Id() == log'[k].Id();
    }
  }

  /** In a clean log a value's id belongs to a key that reads it. */
  lemma ValueIsRead(log: seq<Entry>, j: nat)
    requires Clean(log) && j < |log| && log[j].IsValue()
    ensures exists key :: HasKey(log, key) && KeyId(log, key) == log[j].Id() && ValueIndex(log, key) == j
  {
    assert HasOwner(log, j);
    var i :| 0 <= i < j && log[i].IsKey() && log[i].Id() == log[j].Id();
    var key := log[i].payload;
    KeyFromUnique(log, i);
    var f := FindFrom(log, i + 1, log[i].Id(), true);
    assert Matches(log[j], log[i].Id(), true);
    assert KeyOk(log[i]);
    assert f == j;
    assert HasKey(log, key) && KeyId(log, key) == log[j].Id() && ValueIndex(log, key) == j;
  }

  lemma CleanHidesNothing(log: seq<Entry>, key: seq<Byte>)
    requires Clean(log)
    ensures SecondValue(log, key).None?
  {
    var j := ValueIndex(log, key);
    if j < |log| {
      KeyIdBounds(log, key);
      assert log[j].IsValue();
    }
  }

  lemma ValuelessKey(log: seq<Entry>, key: seq<Byte>)
    requires Clean(log) && HasKey(log, key) && Lookup(log, key).None?
    ensures NoValueWith(log, KeyId(log, key))
  {
    forall j | 0 <= j < |log| && log[j].IsValue() ensures log[j].Id() != KeyId(log, key) {
      ValueIsRead(log, j);
      var k :| HasKey(log, k) && KeyId(log, k) == log[j].Id() && ValueIndex(log, k) == j;
      if k != key { KeyIdsDiffer(log, key, k); }
    }
  }

  lemma FreshId(log: seq<Entry>, id: nat)
    requires Clean(log) && LastKeyId(log, |log|) < id
    ensures NoValueWith(log, id)
  {
    forall j | 0 <= j < |log| && log[j].IsValue() ensures log[j].Id() != id {
      ValueIsRead(log, j);
      var k :| HasKey(log, k) && KeyId(log, k) == log[j].Id() && ValueIndex(log, k) == j;
      KeyIdBounds(log, k);
    }
  }

  lemma NewPairClean(log: seq<Entry>, n: nat, key: seq<Byte>, v: Value)
    requires Clean(log) && Legal(key, v) && LastKeyId(log, |log|) < n <= MAX_KEY_ID && !HasKey(log, key)
    ensures Clean(log + [KeyEntry(n, key)]) && Clean(log + [KeyEntry(n, key)] + [ValueEntry(n, v)])
  {
    var log1 := log + [KeyEntry(n, key)];
    AppendNewKey(log, n, key, key);
    AppendKeyClean(log, KeyEntry(n, key));
    FreshId(log, n);
    assert NoValueWith(log1, n);
    AppendValueClean(log1, ValueEntry(n, v), |log|);
  }

  lemma {:induction false} CompactedClean(items: seq<Item>, n: nat, target: int)
    requires ItemsOk(items) && n <= |items|
    ensures Clean(Compacted(items, n, target))
  {
    if n > 0 {
      CompactedClean(items, n - 1, target);
      CompactedFacts(items, n - 1, target);
      var log, it := Compacted(items, n - 1, target), items[n - 1];
      NewPairClean(log, n, it.key, it.value);
      PairInTurn(log, n, it, target);
    }
  }

  lemma PairInTurn(log: seq<Entry>, n: nat, it: Item, target: int)
    ensures log + PairEntries(n, it, target) ==
            if it.id == target then log + [KeyEntry(n, it.key)] else log + [KeyEntry(n, it.key)] + [ValueEntry(n, it.value)]
  {
  }

  lemma CompactedLogClean(log: seq<Entry>, target: int)
    requires WellFormed(log)
    ensures Clean(CompactedLog(log, target))
  {
    ItemsFacts(log, |log|);
    CompactedClean(Items(log, |log|), |Items(log, |log|)|, target);
  }

  /** Appending for `key` keeps the log clean if `id` is the key's own and free. */
  lemma PutClean(log: seq<Entry>, id: int, key: seq<Byte>, v: Value)
    requires Clean(log) && Legal(key, v) && MeantFor(log, id, key)
    requires id >= 0 ==> HasKey(log, key) && KeyId(log, key) == id && Lookup(log, key).None?
    ensures Clean(Put(log, id, key, v))
  {
    if id < 0 {
      NewPairClean(log, LastKeyId(log, |log|) + 1, key, v);
    } else {
      ValuelessKey(log, key);
      KeyIdBounds(log, key);
      AppendValueClean(log, ValueEntry(id, v), KeyFrom(log, 0, key));
    }
  }

  /** Killing the old value after appending the new one is the same as appending the
      new one after killing the old. */
  lemma KillThenPut(log: seq<Entry>, key: seq<Byte>, v: Value)
    requires Clean(log) && Legal(key, v) && Lookup(log, key).Some?
    ensures var j := ValueIndex(log, key);
            PutAndKill(log, key, v) == Put(Kill(log, j), Target(log, key), key, v)
            && Clean(Kill(log, j)) && HasKey(Kill(log, j), key) && KeyId(Kill(log, j), key) == KeyId(log, key)
            && Lookup(Kill(log, j), key) == None
  {
    var j := ValueIndex(log, key);
    KeyIdBounds(log, key);
    KillClean(log, j);
    KillKey(log, j, key);
    KillLookup(log, key, key);
    CleanHidesNothing(log, key);
    var e := ValueEntry(KeyId(log, key), v);
    assert (log + [e])[j := log[j].Killed()] == log[j := log[j].Killed()] + [e];
  }

  lemma PutAndKillClean(log: seq<Entry>, key: seq<Byte>, v: Value)
    requires Clean(log) && Legal(key, v) && !OutOfIds(log, key)
    ensures Clean(PutAndKill(log, key, v))
  {
    KeyIdBounds(log, key);
    if Lookup(log, key).Some? {
      KillThenPut(log, key, v);
      var log1 := Kill(log, ValueIndex(log, key));
      TargetMeant(log1, key);
      KeyIdBounds(log1, key);
      PutClean(log1, Target(log, key), key, v);
    } else {
      TargetMeant(log, key);
      PutClean(log, Target(log, key), key, v);
    }
  }

  lemma CompactAndPutClean(log: seq<Entry>, key: seq<Byte>, v: Value)
    requires WellFormed(log) && Legal(key, v) && IdsLeft(log, key)
    requires !HasKey(log, key) || Lookup(log, key).Some?
    ensures Clean(CompactAndPut(log, key, v))
  {
    var t := Target(log, key);
    var log1, id := CompactedLog(log, t), RenumberedId(log, t);
    CompactedLogClean(log, t);
    RenumberedMeant(log, key);
    RenumberedSign(log, key);
    CompactionMeaning(log, t, key);
    KeyIdBounds(log, key);
    if HasKey(log, key) {
      CompactionNewId(log, key);
      KeyIdBounds(log1, key);
    }
    PutClean(log1, id, key, v);
  }

  /** The one thing that goes wrong without power cuts: a set of a key whose value was
      deleted, in a call that compacts and then finds the space it needs. */
  predicate LosesOrphan(log: seq<Entry>, cap: nat, force: bool, key: seq<Byte>, v: Value)
  {
    && v.data != [] && HasKey(log, key) && Lookup(log, key).None?
    && WillCompact(log, cap, force, key, |v.data|)
    && var log1 := CompactedLog(log, Target(log, key)); Needed(log, key, |v.data|) + Offset(log1, |log1|) <= cap
  }

  lemma OrphanOutcome(log: seq<Entry>, cap: nat, force: bool, key: seq<Byte>, v: Value)
    requires WellFormed(log)
    ensures LosesOrphan(log, cap, force, key, v) ==>
              Set(log, cap, force, key, v) == Outcome(Ok, CompactAndPut(log, key, v), true) && IdsLeft(log, key)
    ensures HasKey(log, key) && Lookup(log, key).None? && !LosesOrphan(log, cap, force, key, v) && v.data != [] ==>
              Judge(log, cap, force, key, |v.data|) != Compacts
  {
    JudgeFacts(log, cap, force, key, |v.data|);
  }

  /** The value then lies behind some other key's, or behind none: either way it is one
      live value too many. */
  lemma OrphanIsUnclean(log: seq<Entry>, key: seq<Byte>, v: Value)
    requires WellFormed(log) && Legal(key, v) && HasKey(log, key) && Lookup(log, key).None?
    ensures !Clean(CompactAndPut(log, key, v))
  {
    var t := Target(log, key);
    var log1, e := CompactedLog(log, t), ValueEntry(t, v);
    var log' := log1 + [e];
    KeyIdBounds(log, key);
    CompactionForgetsOrphan(log, key);
    if Clean(log') {
      ValueIsRead(log', |log1|);
      var k :| HasKey(log', k) && KeyId(log', k) == t && ValueIndex(log', k) == |log1|;
      CompactionMeaning(log, t, k);
      AppendKey(log1, e, k);
      AppendFind(log1, e, KeyFrom(log1, 0, k) + 1, t, true);
      if k != key { KeyIdsDiffer(log, key, k); }
      assert false;
    }
  }

  /** Every set keeps the log clean, except exactly that one. */
  lemma SetClean(log: seq<Entry>, cap: nat, force: bool, key: seq<Byte>, v: Value)
    requires Clean(log) && Legal(key, v)
    ensures Clean(Set(log, cap, force, key, v).log) <==> !LosesOrphan(log, cap, force, key, v)
  {
    OrphanOutcome(log, cap, force, key, v);
    if v.data == [] {
      if ValueIndex(log, key) < |log| { KillClean(log, ValueIndex(log, key)); }
    } else if LosesOrphan(log, cap, force, key, v) {
      OrphanIsUnclean(log, key, v);
    } else {
      JudgeFacts(log, cap, force, key, |v.data|);
      CompactedLogClean(log, Target(log, key));
      if !OutOfIds(log, key) { PutAndKillClean(log, key, v); }
      if IdsLeft(log, key) && (!HasKey(log, key) || Lookup(log, key).Some?) { CompactAndPutClean(log, key, v); }
    }
  }

  // ----- refinement of a map -----

  /** What a set that returned `status` should do to the map it stands for. */
  function SetMap(m: map<seq<Byte>, Value>, r: Outcome, key: seq<Byte>, v: Value): (m': map<seq<Byte>, Value>)
  {
    if r.status == Ok && v.data != [] then m[key := v]
    else if v.data == [] || r.compacted then m - {key}
    else m
  }

  ghost predicate Represents(log: seq<Entry>, m: map<seq<Byte>, Value>)
  {
    forall k :: Lookup(log, k) == if k in m then Some(m[k]) else None
  }

  /** From a clean log, a set does to the map what it reports; only a set that loses an
      orphan reports a value that is not there. */
  lemma SetRefines(log: seq<Entry>, m: map<seq<Byte>, Value>, cap: nat, force: bool, key: seq<Byte>, v: Value)
    requires Clean(log) && Represents(log, m) && Legal(key, v)
    ensures var r := Set(log, cap, force, key, v);
            Represents(r.log, if LosesOrphan(log, cap, force, key, v) then m else SetMap(m, r, key, v))
  {
    var r := Set(log, cap, force, key, v);
    var m' := if LosesOrphan(log, cap, force, key, v) then m else SetMap(m, r, key, v);
    forall k ensures Lookup(r.log, k) == if k in m' then Some(m'[k]) else None {
      if k == key { SetKeyRefines(log, cap, force, key, v); } else { SetKeepsOthers(log, cap, force, key, v, k); }
    }
  }

  /** What the key itself reads as afterwards. */
  lemma SetKeyRefines(log: seq<Entry>, cap: nat, force: bool, key: seq<Byte>, v: Value)
    requires Clean(log) && Legal(key, v)
    ensures var r := Set(log, cap, force, key, v);
            Lookup(r.log, key) == if LosesOrphan(log, cap, force, key, v) then None
                                  else if r.status == Ok && v.data != [] then Some(v)
                                  else if v.data == [] || r.compacted then None else Lookup(log, key)
  {
    var r := Set(log, cap, force, key, v);
    CleanHidesNothing(log, key);
    OrphanOutcome(log, cap, force, key, v);
    if v.data == [] {
      UnsetTakesEffect(log, cap, force, key, v);
    } else if LosesOrphan(log, cap, force, key, v) {
      CompactAndPutLookup(log, key, v, key);
    } else if r.status == Ok {
      SucceedsInFull(log, cap, force, key, v);
      SetTakesEffect(log, cap, force, key, v);
    } else {
      FullOutcome(log, cap, force, key, v);
      FullAfterCompaction(log, key);
    }
  }

  lemma SucceedsInFull(log: seq<Entry>, cap: nat, force: bool, key: seq<Byte>, v: Value)
    requires WellFormed(log) && v.data != [] && Set(log, cap, force, key, v).status == Ok && SecondValue(log, key).None?
    ensures WillTakeEffect(log, cap, force, key, v) <==> !LosesOrphan(log, cap, force, key, v)
  {
    if Lookup(log, key) != Some(v) {
      CompactsIfGuarded(log, cap, force, key, v);
      JudgeFacts(log, cap, force, key, |v.data|);
    }
  }

  datatype Call = Call(key: seq<Byte>, v: Value, force: bool)

  datatype State = State(log: seq<Entry>, m: map<seq<Byte>, Value>)

  /** The log and the map after one call. */
  function After(s: State, cap: nat, c: Call): (s': State)
  {
    var r := Set(s.log, cap, c.force, c.key, c.v);
    State(r.log, SetMap(s.m, r, c.key, c.v))
  }

  lemma EmptyLog()
    ensures Clean([]) && Represents([], map[])
  {
    forall k ensures Lookup([], k) == None { assert KeyFrom([], 0, k) == 0; }
  }

  // ----- runs with power cuts -----

  /** Call `i` either completes or is cut short by the power, followed by a restart. */
  ghost predicate CutStep(logs: seq<seq<Entry>>, cap: nat, calls: seq<Call>, i: nat)
    requires i < |calls| && |logs| == |calls| + 1
  {
    && Legal(calls[i].key, calls[i].v)
    && CutOf(logs[i + 1], logs[i], cap, calls[i].force, calls[i].key, calls[i].v)
  }

  /** However many calls are cut short, and wherever, the log stays well formed and a
      key that no call names keeps its value. */
  lemma {:induction false} CutRunKeeps(logs: seq<seq<Entry>>, cap: nat, calls: seq<Call>, n: nat, k: seq<Byte>)
    requires |logs| == |calls| + 1 && n <= |calls| && WellFormed(logs[0])
    requires forall i :: 0 <= i < |calls| ==> CutStep(logs, cap, calls, i)
    requires forall i :: 0 <= i < |calls| ==> calls[i].key != k
    ensures WellFormed(logs[n]) && Lookup(logs[n], k) == Lookup(logs[0], k)
  {
    if n > 0 {
      CutRunKeeps(logs, cap, calls, n - 1, k);
      assert CutStep(logs, cap, calls, n - 1);
      var c := calls[n - 1];
      CutKeepsOthers(logs[n], logs[n - 1], cap, c.force, c.key, c.v, k);
    }
  }

  // ----- logs on which a set goes wrong -----

  const A: seq<Byte> := [65]
  const B: seq<Byte> := [66]
  const V1 := Value([1, 1, 1, 1], false)
  const V2 := Value([2, 2, 2, 2], false)
  const V3 := Value([3, 3, 3, 3], false)

  lemma TotalsOfThree(log: seq<Entry>)
    requires |log| == 3
    ensures Offset(log, 3) == log[0].Size() + log[1].Size() + log[2].Size()
    ensures log[0].IsKey() && log[1].Live() && log[2].Live() ==> DeadSize(log, 3) == 0
    ensures log[0].IsKey() && log[1].IsValue() && log[2].IsKey() ==> Balance(log, 3) == 1
    ensures log[0].IsKey() && log[1].IsValue() && log[2].IsValue() ==> LastKeyId(log, 3) == log[0].Id()
  {
    assert Offset(log, 3) == Offset(log, 2) + log[2].Size() && Offset(log, 2) == Offset(log, 1) + log[1].Size();
    assert log[2].Live() ==> DeadSize(log, 3) == DeadSize(log, 2);
    assert log[1].Live() ==> DeadSize(log, 2) == DeadSize(log, 1);
    assert log[2].IsKey() ==> Balance(log, 3) == Balance(log, 2) + 1;
    assert log[1].IsValue() ==> Balance(log, 2) == Balance(log, 1) - 1;
    assert log[2].IsValue() ==> LastKeyId(log, 3) == LastKeyId(log, 2);
    assert log[1].IsValue() ==> LastKeyId(log, 2) == LastKeyId(log, 1);
    assert DeadSize(log, 1) == DeadSize(log, 0) + if log[0].Live() then 0 else log[0].Size();
    assert log[0].IsKey() ==> Balance(log, 1) == Balance(log, 0) + 1 && LastKeyId(log, 1) == log[0].Id();
    assert Offset(log, 1) == Offset(log, 0) + log[0].Size();
  }

  /** A key is set and deleted; setting it again compacts, reports success, and the
      value cannot be read. */
  lemma OrphanIsLost()
    ensures var log := [KeyEntry(1, A), ValueEntry(1, V1).Killed()];
            var r := Set(log, 20, false, A, V2);
            Clean(log) && r.status == Ok && r.compacted && Lookup(r.log, A) == None
  {
    var k, d := KeyEntry(1, A), ValueEntry(1, V1).Killed();
    var log := [k, d];
    assert k.IsKey() && !d.Live() && log[0] == k && log[1] == d;
    assert Clean(log);
    assert KeyFrom(log, 0, A) == 0 && FindFrom(log, 2, 1, true) == 2 && FindFrom(log, 1, 1, true) == 2;
    assert Lookup(log, A) == None && Target(log, A) == 1;
    assert k.Size() == 8 && d.Size() == 8;
    assert Offset(log, 1) == 8 && Offset(log, 2) == Offset(log, 1) + d.Size();
    assert DeadSize(log, 1) == 0 && DeadSize(log, 2) == DeadSize(log, 1) + d.Size();
    assert !Yields(log, 0) && !Yields(log, 1);
    assert Items(log, 0) == [] && Items(log, 1) == Items(log, 0) && Items(log, 2) == Items(log, 1);
    assert CompactedLog(log, 1) == [] && RenumberedId(log, 1) == 1;
    assert Judge(log, 20, false, A, 4) == Compacts;
    SetTakesEffect(log, 20, false, A, V2);
    CompactAndPutLookup(log, A, V2, A);
  }

  /** A key has two live values; a set that reports success makes the first one
      unreadable, and the key reads as the second. */
  lemma HiddenValueSurfaces()
    ensures var log := [KeyEntry(1, A), ValueEntry(1, V1), ValueEntry(1, V2)];
            var r := Set(log, 100, false, A, V3);
            WellFormed(log) && r.status == Ok && !r.compacted && Lookup(r.log, A) == Some(V2)
  {
    var k, v1, v2 := KeyEntry(1, A), ValueEntry(1, V1), ValueEntry(1, V2);
    var log := [k, v1, v2];
    assert log[0] == k && log[1] == v1 && log[2] == v2;
    assert WellFormed(log);
    assert KeyFrom(log, 0, A) == 0 && FindFrom(log, 1, 1, true) == 1 && FindFrom(log, 2, 1, true) == 2;
    assert SecondValue(log, A) == Some(V2);
    assert log[0].Size() == 8 && log[1].Size() == 8 && log[2].Size() == 8;
    TotalsOfThree(log);
    assert Judge(log, 100, false, A, 4) == Fits;
    PutAndKillLookup(log, A, V3, A);
  }

  /** The log of the next lemma is compacted to A's key alone. */
  lemma OnlyAIsLeft()
    ensures CompactedLog([KeyEntry(1, A), ValueEntry(1, V1), KeyEntry(2, B)], 1) == [KeyEntry(1, A)]
  {
    var k, v1, k2, it := KeyEntry(1, A), ValueEntry(1, V1), KeyEntry(2, B), Item(A, 1, V1);
    var log := [k, v1, k2];
    assert log[0] == k && log[1] == v1 && log[2] == k2;
    assert FindFrom(log, 1, 1, true) == 1 && FindFrom(log, 3, 2, true) == 3;
    assert Yields(log, 0) && !Yields(log, 1) && !Yields(log, 2);
    assert Items(log, 0) == [] && Items(log, 1) == [it] && Items(log, 2) == [it] && Items(log, 3) == [it];
    assert Compacted([it], 1, 1) == Compacted([it], 0, 1) + PairEntries(1, it, 1) == [KeyEntry(1, A)];
  }

  /** A set that reports a full region can still have deleted the old value. */
  lemma FullCanLoseTheValue()
    ensures var log := [KeyEntry(1, A), ValueEntry(1, V1), KeyEntry(2, B)];
            var r := Set(log, 24, false, A, Value(V2.data + V2.data + V2.data + V2.data, false));
            Clean(log) && r.status == ErrFull && Lookup(log, A) == Some(V1) && Lookup(r.log, A) == None
  {
    var k, v1, k2 := KeyEntry(1, A), ValueEntry(1, V1), KeyEntry(2, B);
    var log := [k, v1, k2];
    var big := Value(V2.data + V2.data + V2.data + V2.data, false);
    assert k.IsKey() && v1.IsValue() && k2.IsKey() && log[0] == k && log[1] == v1 && log[2] == k2;
    assert Clean(log) by { assert HasOwner(log, 1); }
    assert KeyFrom(log, 0, A) == 0 && FindFrom(log, 1, 1, true) == 1;
    assert log[0].Size() == 8 && log[1].Size() == 8 && log[2].Size() == 8;
    TotalsOfThree(log);
    assert Target(log, A) == 1 && |big.data| == 16;
    OnlyAIsLeft();
    assert Offset(CompactedLog(log, 1), 1) == 8;
    assert Judge(log, 24, false, A, 16) == FullAnyway;
    FullAfterCompaction(log, A);
  }
}
