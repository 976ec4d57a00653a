/**
 What a named key can read over runs in which the power may be cut at any time: nothing, or
 a value that some call gave to that very key.
 */
module SysparamOwners {
  import opened Flash
  import opened Options
  import opened SysparamLog
  import opened SysparamCompact
  import opened SysparamSet
  import opened SysparamRuns

  datatype Pair = Pair(key: seq<Byte>, value: Value)

  /** The value at `j` has the id of the key at `i`. */
  predicate Feeds(log: seq<Entry>, i: nat, j: nat)
    requires i < j < |log|
  {
    log[i].IsKey() && log[j].IsValue() && log[i].Id() == log[j].Id()
  }

  /** Each key has only values, read or hidden, that were meant for it. */
  ghost predicate Owned(log: seq<Entry>, ok: set<Pair>)
  {
    forall i, j {:trigger Feeds(log, i, j)} :: 0 <= i < j < |log| && Feeds(log, i, j) ==> Pair(log[i].payload, log[j].Content()) in ok
  }

  lemma OwnedMore(log: seq<Entry>, ok: set<Pair>, ok': set<Pair>)
    requires Owned(log, ok) && ok <= ok'
    ensures Owned(log, ok')
  {
  }

  /** What a key reads is one of its values. */
  lemma ReadsItsOwn(log: seq<Entry>, ok: set<Pair>, key: seq<Byte>)
    requires WellFormed(log) && Owned(log, ok)
    ensures Lookup(log, key).Some? ==> Pair(key, Lookup(log, key).value) in ok
  {
    if Lookup(log, key).Some? {
      assert KeyOk(log[KeyFrom(log, 0, key)]);
      assert Feeds(log, KeyFrom(log, 0, key), ValueIndex(log, key));
    }
  }

  // ----- the steps -----

  lemma OwnedAppend(log: seq<Entry>, e: Entry, ok: set<Pair>)
    requires Owned(log, ok)
    requires e.IsValue() ==> forall i :: 0 <= i < |log| && log[i].IsKey() && log[i].Id() == e.Id() ==> Pair(log[i].payload, e.Content()) in ok
    ensures Owned(log + [e], ok)
  {
    var log' := log + [e];
    forall i, j | 0 <= i < j < |log'| && Feeds(log', i, j) ensures Pair(log'[i].payload, log'[j].Content()) in ok {
      if j < |log| { assert Feeds(log, i, j); }
    }
  }

  lemma OwnedKill(log: seq<Entry>, at: nat, ok: set<Pair>)
    requires Owned(log, ok) && at < |log|
    ensures Owned(Kill(log, at), ok)
  {
    var log' := Kill(log, at);
    KilledIsDead(log[at]);
    forall i, j | 0 <= i < j < |log'| && Feeds(log', i, j) ensures Pair(log'[i].payload, log'[j].Content()) in ok {
      assert Feeds(log, i, j);
    }
  }

  /** A value appended under the id of an existing key. */
  lemma OwnedValue(log: seq<Entry>, key: seq<Byte>, v: Value, ok: set<Pair>)
    requires WellFormed(log) && Owned(log, ok) && HasKey(log, key) && Pair(key, v) in ok
    ensures Owned(log + [ValueEntry(KeyId(log, key), v)], ok)
  {
    var e, m := ValueEntry(KeyId(log, key), v), KeyFrom(log, 0, key);
    forall i | 0 <= i < |log| && log[i].IsKey() && log[i].Id() == e.Id() ensures Pair(log[i].payload, e.Content()) in ok {
      assert i == m;
    }
    OwnedAppend(log, e, ok);
  }

  /** A key appended under a new id, and then its value. */
  lemma OwnedPair(log: seq<Entry>, n: nat, key: seq<Byte>, v: Value, ok: set<Pair>)
    requires WellFormed(log) && Owned(log, ok) && Pair(key, v) in ok
    requires LastKeyId(log, |log|) < n <= MAX_KEY_ID && 1 <= |key| <= MAX_LEN && !HasKey(log, key)
    ensures Owned(log + [KeyEntry(n, key)], ok) && Owned(log + [KeyEntry(n, key)] + [ValueEntry(n, v)], ok)
  {
    var log1 := log + [KeyEntry(n, key)];
    AppendNewKey(log, n, key, key);
    OwnedAppend(log, KeyEntry(n, key), ok);
    KeyIdBounds(log1, key);
    OwnedValue(log1, key, v, ok);
  }

  lemma OwnedPut(log: seq<Entry>, id: int, key: seq<Byte>, v: Value, ok: set<Pair>)
    requires WellFormed(log) && Owned(log, ok) && Legal(key, v) && Pair(key, v) in ok
    requires if id < 0 then !HasKey(log, key) && LastKeyId(log, |log|) < MAX_KEY_ID else HasKey(log, key) && KeyId(log, key) == id
    ensures Owned(Put(log, id, key, v), ok)
  {
    if id < 0 { OwnedPair(log, LastKeyId(log, |log|) + 1, key, v, ok); } else { OwnedValue(log, key, v, ok); }
  }

  lemma OwnedDead(l: seq<Entry>, log: seq<Entry>, ok: set<Pair>)
    requires Owned(log, ok) && (l == log || DeadAppended(l, log))
    ensures Owned(l, ok)
  {
    if l != log { OwnedAppend(log, l[|log|], ok); }
  }

  /** The same for whatever a power cut leaves of it. */
  lemma OwnedMidway(l: seq<Entry>, log: seq<Entry>, id: int, key: seq<Byte>, v: Value, ok: set<Pair>)
    requires WellFormed(log) && Owned(log, ok) && Legal(key, v) && Pair(key, v) in ok
    requires if id < 0 then !HasKey(log, key) && LastKeyId(log, |log|) < MAX_KEY_ID else HasKey(log, key) && KeyId(log, key) == id
    requires Midway(l, log, id, key, v)
    ensures Owned(l, ok)
  {
    if id < 0 { OwnedPair(log, LastKeyId(log, |log|) + 1, key, v, ok); }
    OwnedPut(log, id, key, v, ok);
    if l == log || DeadAppended(l, log) {
      OwnedDead(l, log, ok);
    } else if l != Put(log, id, key, v) {
      OwnedDead(l, log + [KeyEntry(LastKeyId(log, |log|) + 1, key)], ok);
    }
  }

  // ----- compaction -----

  ghost predicate ItemsIn(items: seq<Item>, ok: set<Pair>)
  {
    forall i :: 0 <= i < |items| ==> Pair(items[i].key, items[i].value) in ok
  }

  lemma {:induction false} ItemsAreOwned(log: seq<Entry>, n: nat, ok: set<Pair>)
    requires WellFormed(log) && Owned(log, ok) && n <= |log|
    ensures ItemsIn(Items(log, n), ok)
  {
    if n > 0 {
      ItemsAreOwned(log, n - 1, ok);
      if Yields(log, n - 1) {
        assert KeyOk(log[n - 1]);
        assert Feeds(log, n - 1, ValueOf(log, n - 1));
      }
    }
  }

  lemma {:induction false} CompactedOwned(items: seq<Item>, n: nat, target: int, ok: set<Pair>)
    requires ItemsOk(items) && ItemsIn(items, ok) && n <= |items|
    ensures Owned(Compacted(items, n, target), ok)
  {
    if n > 0 {
      CompactedOwned(items, n - 1, target, ok);
      CompactedFacts(items, n - 1, target);
      OwnedPair(Compacted(items, n - 1, target), n, items[n - 1].key, items[n - 1].value, ok);
      PairInTurn(Compacted(items, n - 1, target), n, items[n - 1], target);
    }
  }

  lemma CompactedLogOwned(log: seq<Entry>, target: int, ok: set<Pair>)
    requires WellFormed(log) && Owned(log, ok)
    ensures Owned(CompactedLog(log, target), ok)
  {
    ItemsFacts(log, |log|);
    ItemsAreOwned(log, |log|, ok);
    CompactedOwned(Items(log, |log|), |Items(log, |log|)|, target, ok);
  }

  // ----- a set, finished or cut short -----

  /** Without compaction the value goes under the key's own id, or a new one. */
  lemma OwnTarget(log: seq<Entry>, key: seq<Byte>)
    requires WellFormed(log) && !OutOfIds(log, key)
    ensures var t := Target(log, key);
            if t < 0 then !HasKey(log, key) && LastKeyId(log, |log|) < MAX_KEY_ID else HasKey(log, key) && KeyId(log, key) == t
  {
    KeyIdBounds(log, key);
  }

  /** After a compaction too, unless the key was an orphan. */
  lemma OwnRenumbered(log: seq<Entry>, key: seq<Byte>)
    requires WellFormed(log) && IdsLeft(log, key) && (!HasKey(log, key) || Lookup(log, key).Some?)
    ensures var t := Target(log, key); var log1, id := CompactedLog(log, t), RenumberedId(log, t);
            if id < 0 then !HasKey(log1, key) && LastKeyId(log1, |log1|) < MAX_KEY_ID else HasKey(log1, key) && KeyId(log1, key) == id
  {
    RenumberedSign(log, key);
    CompactionMeaning(log, Target(log, key), key);
    if HasKey(log, key) { CompactionNewId(log, key); }
  }

  lemma PutAndKillOwned(log: seq<Entry>, key: seq<Byte>, v: Value, ok: set<Pair>)
    requires WellFormed(log) && Owned(log, ok) && Legal(key, v) && Pair(key, v) in ok && !OutOfIds(log, key)
    ensures Owned(PutAndKill(log, key, v), ok)
  {
    OwnTarget(log, key);
    OwnedPut(log, Target(log, key), key, v, ok);
    var j, log1 := ValueIndex(log, key), Put(log, Target(log, key), key, v);
    if j < |log| { OwnedKill(log1, j, ok); }
  }

  lemma CompactAndPutOwned(log: seq<Entry>, key: seq<Byte>, v: Value, ok: set<Pair>)
    requires WellFormed(log) && Owned(log, ok) && Legal(key, v) && Pair(key, v) in ok
    requires IdsLeft(log, key) && (!HasKey(log, key) || Lookup(log, key).Some?)
    ensures Owned(CompactAndPut(log, key, v), ok)
  {
    var t := Target(log, key);
    OwnRenumbered(log, key);
    CompactionMeaning(log, t, key);
    CompactedLogOwned(log, t, ok);
    OwnedPut(CompactedLog(log, t), RenumberedId(log, t), key, v, ok);
  }

  lemma SetOwned(log: seq<Entry>, cap: nat, force: bool, key: seq<Byte>, v: Value, ok: set<Pair>)
    requires WellFormed(log) && Owned(log, ok) && Legal(key, v) && Pair(key, v) in ok
    requires !LosesOrphan(log, cap, force, key, v)
    ensures Owned(Set(log, cap, force, key, v).log, ok)
  {
    if v.data == [] {
      if ValueIndex(log, key) < |log| { OwnedKill(log, ValueIndex(log, key), ok); }
    } else {
      JudgeFacts(log, cap, force, key, |v.data|);
      OrphanOutcome(log, cap, force, key, v);
      match Judge(log, cap, force, key, |v.data|)
      case Fits => PutAndKillOwned(log, key, v, ok);
      case Compacts => CompactAndPutOwned(log, key, v, ok);
      case Full =>
      case FullAnyway => CompactedLogOwned(log, Target(log, key), ok);
    }
  }

  lemma CutOwned(l: seq<Entry>, log: seq<Entry>, cap: nat, force: bool, key: seq<Byte>, v: Value, ok: set<Pair>)
    requires WellFormed(log) && Owned(log, ok) && Legal(key, v) && Pair(key, v) in ok
    requires CutOf(l, log, cap, force, key, v) && !LosesOrphan(log, cap, force, key, v)
    ensures Owned(l, ok)
  {
    var t := Target(log, key);
    SetOwned(log, cap, force, key, v, ok);
    CompactedLogOwned(log, t, ok);
    if v.data != [] && Lookup(log, key) != Some(v) {
      JudgeFacts(log, cap, force, key, |v.data|);
      OrphanOutcome(log, cap, force, key, v);
      match Judge(log, cap, force, key, |v.data|)
      case Fits =>
        OwnTarget(log, key);
        if Midway(l, log, t, key, v) { OwnedMidway(l, log, t, key, v, ok); }
      case Compacts =>
        OwnRenumbered(log, key);
        CompactionMeaning(log, t, key);
        if Midway(l, CompactedLog(log, t), RenumberedId(log, t), key, v) {
          OwnedMidway(l, CompactedLog(log, t), RenumberedId(log, t), key, v, ok);
        }
      case _ =>
    }
  }

  // ----- whole runs -----

  /** What the first `n` calls gave to which key. */
  function Given(calls: seq<Call>, n: nat): (r: set<Pair>)
    requires n <= |calls|
    ensures forall p :: p in r ==> exists i :: 0 <= i < n && p == Pair(calls[i].key, calls[i].v)
  {
    if n == 0 then {} else Given(calls, n - 1) + {Pair(calls[n - 1].key, calls[n - 1].v)}
  }

  /** Call `i` does not lose an orphan. */
  predicate SparesOrphans(logs: seq<seq<Entry>>, cap: nat, calls: seq<Call>, i: nat)
    requires i < |calls| && |logs| == |calls| + 1
  {
    !LosesOrphan(logs[i], cap, calls[i].force, calls[i].key, calls[i].v)
  }

  lemma {:induction false} CutRunOwned(logs: seq<seq<Entry>>, cap: nat, calls: seq<Call>, n: nat, ok: set<Pair>)
    requires |logs| == |calls| + 1 && n <= |calls| && WellFormed(logs[0]) && Owned(logs[0], ok)
    requires forall i :: 0 <= i < |calls| ==> CutStep(logs, cap, calls, i)
    requires forall i :: 0 <= i < |calls| ==> SparesOrphans(logs, cap, calls, i)
    ensures WellFormed(logs[n]) && Owned(logs[n], ok + Given(calls, n))
  {
    if n == 0 {
      assert ok + Given(calls, 0) == ok;
    } else {
      CutRunOwned(logs, cap, calls, n - 1, ok);
      var c, ok' := calls[n - 1], ok + Given(calls, n);
      assert CutStep(logs, cap, calls, n - 1) && SparesOrphans(logs, cap, calls, n - 1);
      OwnedMore(logs[n - 1], ok + Given(calls, n - 1), ok');
      CutKeepsOthers(logs[n], logs[n - 1], cap, c.force, c.key, c.v, c.key);
      CutOwned(logs[n], logs[n - 1], cap, c.force, c.key, c.v, ok');
    }
  }

  /** From an empty area, however many calls are cut short, and wherever: if none of them
      loses an orphan, any key reads nothing, or a value that some earlier call naming that
      key carried. */
  lemma CutRunReadsItsOwn(logs: seq<seq<Entry>>, cap: nat, calls: seq<Call>, n: nat, key: seq<Byte>)
    requires |logs| == |calls| + 1 && n <= |calls| && logs[0] == []
    requires forall i :: 0 <= i < |calls| ==> CutStep(logs, cap, calls, i)
    requires forall i :: 0 <= i < |calls| ==> SparesOrphans(logs, cap, calls, i)
    ensures Lookup(logs[n], key).Some? ==> exists i :: 0 <= i < n && calls[i].key == key && calls[i].v == Lookup(logs[n], key).value
  {
    CutRunOwned(logs, cap, calls, n, {});
    ReadsItsOwn(logs[n], {} + Given(calls, n), key);
    if Lookup(logs[n], key).Some? { assert Pair(key, Lookup(logs[n], key).value) in Given(calls, n); }
  }
}
