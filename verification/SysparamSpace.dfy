/**
 When a region is really full: what compaction frees, to the byte, and whether a set that
 reports a full region could have been saved by it.
 */
module SysparamSpace {
  import opened Flash
  import opened Options
  import opened SysparamLog
  import opened SysparamCompact
  import opened SysparamSet
  import opened SysparamRuns

  /** The keys without a value among the first `n` entries: how many, and their bytes. */
  function Orphans(log: seq<Entry>, n: nat): (r: nat)
    requires n <= |log|
  {
    if n == 0 then 0 else Orphans(log, n - 1) + if log[n - 1].IsKey() && !Yields(log, n - 1) then 1 else 0
  }

  function OrphanBytes(log: seq<Entry>, n: nat): (r: nat)
    requires n <= |log|
  {
    if n == 0 then 0 else OrphanBytes(log, n - 1) + if log[n - 1].IsKey() && !Yields(log, n - 1) then log[n - 1].Size() else 0
  }

  lemma {:induction false} NoOrphansNoBytes(log: seq<Entry>, n: nat)
    requires n <= |log| && Orphans(log, n) == 0
    ensures OrphanBytes(log, n) == 0
  {
    if n > 0 { NoOrphansNoBytes(log, n - 1); }
  }

  // ----- in a clean log everything live belongs to somebody -----

  /** In a clean log the value of a key is the only live one with its id. */
  lemma OnlyValue(log: seq<Entry>, i: nat, j: nat)
    requires Clean(log) && i < |log| && log[i].IsKey() && j < |log| && log[j].IsValue() && log[j].Id() == log[i].Id()
    ensures ValueOf(log, i) == j
  {
    assert HasOwner(log, j);
    var k :| 0 <= k < j && log[k].IsKey() && log[k].Id() == log[j].Id();
    assert k == i && KeyOk(log[i]);
    assert Matches(log[j], log[i].Id(), true);
    var f := ValueOf(log, i);
    assert f <= j && log[f].IsValue() && log[f].Id() == log[i].Id();
  }

  lemma {:induction false} ClaimedExactly(w: Measure, log: seq<Entry>, n: nat, target: int, m: nat)
    requires Clean(log) && 0 < n <= |log| && m <= |log|
    ensures ClaimedWeight(w, log, n, target, m) ==
            ClaimedWeight(w, log, n - 1, target, m)
            + (if n <= m && log[n - 1].IsKey() then KeyWeight(w, log[n - 1]) else 0)
            + (if log[n - 1].IsKey() && log[n - 1].Id() != target && ValueOf(log, n - 1) < m
               then ValueWeight(w, log[ValueOf(log, n - 1)]) else 0)
  {
    if m > 0 {
      ClaimedExactly(w, log, n, target, m - 1);
      ClaimedOne(log, n, target, m - 1);
    }
  }

  /** Which entry the n-th one claims. */
  lemma ClaimedOne(log: seq<Entry>, n: nat, target: int, j: nat)
    requires Clean(log) && 0 < n <= |log| && j < |log|
    ensures Claimed(log, n, target, log[j]) <==>
              Claimed(log, n - 1, target, log[j]) || (log[n - 1].IsKey() && log[n - 1].Id() != target && ValueOf(log, n - 1) == j)
    ensures log[n - 1].IsKey() && ValueOf(log, n - 1) == j ==> !Claimed(log, n - 1, target, log[j])
  {
    if log[n - 1].IsKey() {
      assert KeyOk(log[n - 1]);
      if log[j].IsValue() && log[j].Id() == log[n - 1].Id() { OnlyValue(log, n - 1, j); }
    }
  }

  lemma {:induction false} ItemsPlusOrphans(log: seq<Entry>, n: nat, target: int)
    requires Clean(log) && n <= |log|
    ensures ItemsWeight(Bytes, log, n, target) + OrphanBytes(log, n) == ClaimedWeight(Bytes, log, n, target, |log|)
    ensures ItemsWeight(Pairs, log, n, target) == ClaimedWeight(Pairs, log, n, target, |log|)
  {
    if n > 0 {
      ItemsPlusOrphans(log, n - 1, target);
      ClaimedExactly(Bytes, log, n, target, |log|);
      ClaimedExactly(Pairs, log, n, target, |log|);
    } else {
      NothingClaimed(Bytes, log, target, |log|);
      NothingClaimed(Pairs, log, target, |log|);
    }
  }

  lemma {:induction false} NothingClaimed(w: Measure, log: seq<Entry>, target: int, m: nat)
    requires m <= |log|
    ensures ClaimedWeight(w, log, 0, target, m) == 0
  {
    if m > 0 { NothingClaimed(w, log, target, m - 1); }
  }

  /** Every byte is claimed, dead, or the value that is to be replaced. */
  lemma {:induction false} AllBytes(log: seq<Entry>, target: int, m: nat, stale: nat)
    requires Clean(log) && m <= |log| && stale <= |log|
    requires forall j :: 0 <= j < |log| ==> (log[j].IsValue() && log[j].Id() == target <==> j == stale)
    ensures ClaimedWeight(Bytes, log, |log|, target, m) + DeadSize(log, m) + (if stale < m then log[stale].Size() else 0) == Offset(log, m)
  {
    if m > 0 {
      AllBytes(log, target, m - 1, stale);
      var e := log[m - 1];
      if e.IsValue() && e.Id() != target {
        assert HasOwner(log, m - 1);
        assert Claimed(log, |log|, target, e);
      }
    }
  }

  /** What compaction frees in a clean log: the dead entries, the value that is to be replaced,
      and the keys without a value. */
  lemma CompactionFreesExactly(log: seq<Entry>, key: seq<Byte>)
    requires Clean(log)
    ensures var log' := CompactedLog(log, Target(log, key));
            Offset(log', |log'|) + Reclaimable(log, key) + OrphanBytes(log, |log|) == Offset(log, |log|)
  {
    var t, stale := Target(log, key), ValueIndex(log, key);
    KeyIdBounds(log, key);
    forall j | 0 <= j < |log| ensures log[j].IsValue() && log[j].Id() == t <==> j == stale { StaleIs(log, key, j); }
    CompactedBytes(log, |log|, t);
    ItemsPlusOrphans(log, |log|, t);
    AllBytes(log, t, |log|, stale);
  }

  lemma StaleIs(log: seq<Entry>, key: seq<Byte>, j: nat)
    requires Clean(log) && j < |log|
    ensures log[j].IsValue() && log[j].Id() == Target(log, key) <==> j == ValueIndex(log, key)
  {
    KeyIdBounds(log, key);
    if HasKey(log, key) {
      var i := KeyFrom(log, 0, key);
      assert KeyOk(log[i]);
      if log[j].IsValue() && log[j].Id() == log[i].Id() { OnlyValue(log, i, j); }
    }
  }

  // ----- the balance of a scan -----

  function Values(log: seq<Entry>, n: nat): (r: nat)
    requires n <= |log|
  {
    if n == 0 then 0 else Values(log, n - 1) + if log[n - 1].IsValue() then 1 else 0
  }

  lemma {:induction false} ClaimedValues(log: seq<Entry>, m: nat)
    requires Clean(log) && m <= |log|
    ensures ClaimedWeight(Pairs, log, |log|, -1, m) == Values(log, m)
  {
    if m > 0 {
      ClaimedValues(log, m - 1);
      if log[m - 1].IsValue() {
        assert HasOwner(log, m - 1);
        assert Claimed(log, |log|, -1, log[m - 1]);
      }
    }
  }

  lemma {:induction false} BalanceSplits(log: seq<Entry>, n: nat)
    requires n <= |log|
    ensures Balance(log, n) == |Items(log, n)| + Orphans(log, n) - Values(log, n)
  {
    if n > 0 { BalanceSplits(log, n - 1); }
  }

  /** In a clean log the scan's balance of keys and values is the number of keys without one. */
  lemma BalanceIsOrphans(log: seq<Entry>)
    requires Clean(log)
    ensures Balance(log, |log|) == Orphans(log, |log|)
  {
    BalanceSplits(log, |log|);
    PairsAreItems(log, |log|);
    ItemsPlusOrphans(log, |log|, -1);
    ClaimedValues(log, |log|);
  }

  // ----- full means full -----

  /** From a clean log, a set succeeds if and only if what it needs fits behind the compacted
      log: when a region is reported full, compacting would not have helped.  (Only when the
      ids have run out as well is it the balance that decides.) */
  lemma FullMeansFull(log: seq<Entry>, cap: nat, force: bool, key: seq<Byte>, v: Value)
    requires Clean(log) && Legal(key, v) && v.data != [] && Lookup(log, key) != Some(v)
    ensures var ok, log1 := Set(log, cap, force, key, v).status == Ok, CompactedLog(log, Target(log, key));
            var fits := Needed(log, key, |v.data|) + Offset(log1, |log1|) <= cap;
            && (!OutOfIds(log, key) ==> (ok <==> fits))
            && (OutOfIds(log, key) ==> (ok ==> fits) && (fits && Balance(log, |log|) > 0 ==> ok))
  {
    var t := Target(log, key);
    SetSucceeds(log, cap, force, key, v);
    CompactionFits(log, t, |log|);
    CompactionFreesExactly(log, key);
    BalanceIsOrphans(log);
    if Balance(log, |log|) <= 0 { NoOrphansNoBytes(log, |log|); }
    IdsAfterCompaction(log, key);
  }

  lemma IdsAfterCompaction(log: seq<Entry>, key: seq<Byte>)
    requires WellFormed(log)
    ensures var log1 := CompactedLog(log, Target(log, key));
            !HasKey(log, key) && (!OutOfIds(log, key) || Balance(log, |log|) > 0) ==> LastKeyId(log1, |log1|) < MAX_KEY_ID
  {
    CompactionFreesIds(log);
    ItemsFacts(log, |log|);
    CompactedFacts(Items(log, |log|), |Items(log, |log|)|, Target(log, key));
    if !HasKey(log, key) && !OutOfIds(log, key) { CompactionFreesIdsWhenFewer(log); }
  }

  /** Compaction leaves out the second value. */
  lemma SecondIsLeftOut()
    ensures var log' := CompactedLog([KeyEntry(1, A), ValueEntry(1, V1), ValueEntry(1, V2)], -1);
            log' == [KeyEntry(1, A), ValueEntry(1, V1)] && Offset(log', 2) == 16
  {
    var k, v1, v2, it := KeyEntry(1, A), ValueEntry(1, V1), ValueEntry(1, V2), Item(A, 1, V1);
    var log, log' := [k, v1, v2], [k, v1];
    assert log[0] == k && log[1] == v1 && log[2] == v2;
    assert FindFrom(log, 1, 1, true) == 1;
    assert Yields(log, 0) && !Yields(log, 1) && !Yields(log, 2);
    assert Items(log, 0) == [] && Items(log, 1) == [it] && Items(log, 2) == [it] && Items(log, 3) == [it];
    assert Compacted([it], 1, -1) == Compacted([it], 0, -1) + PairEntries(1, it, -1) == log';
    assert log'[0].Size() == 8 && log'[1].Size() == 8;
    assert Offset(log', 2) == Offset(log', 1) + 8 && Offset(log', 1) == Offset(log', 0) + 8;
  }

  /** A log with a hidden second value is not clean, and here a set reports a full region
      although compacting would have made the room. */
  lemma FullTooEarly()
    ensures var log := [KeyEntry(1, A), ValueEntry(1, V1), ValueEntry(1, V2)];
            var log1 := CompactedLog(log, Target(log, B));
            WellFormed(log) && Set(log, 32, false, B, V3).status == ErrFull && Needed(log, B, 4) + Offset(log1, |log1|) <= 32
  {
    var k, v1, v2 := KeyEntry(1, A), ValueEntry(1, V1), ValueEntry(1, V2);
    var log := [k, v1, v2];
    assert log[0] == k && log[1] == v1 && log[2] == v2 && k.IsKey() && v1.IsValue() && v2.IsValue();
    assert WellFormed(log);
    assert forall i :: 0 <= i < 3 ==> !IsKeyNamed(log[i], B);
    assert KeyFrom(log, 0, B) == 3 && !HasKey(log, B) && Lookup(log, B) == None && ValueIndex(log, B) == 3;
    assert log[0].Size() == 8 && log[1].Size() == 8 && log[2].Size() == 8;
    TotalsOfThree(log);
    BalanceOfThree(log);
    SecondIsLeftOut();
    assert Needed(log, B, 4) == 16 && Reclaimable(log, B) == 0;
    assert Judge(log, 32, false, B, 4) == Full;
  }

  lemma BalanceOfThree(log: seq<Entry>)
    requires |log| == 3 && log[0].IsKey() && log[1].IsValue() && log[2].IsValue()
    ensures Balance(log, 3) == -1
  {
    assert Balance(log, 3) == Balance(log, 2) - 1 && Balance(log, 2) == Balance(log, 1) - 1 && Balance(log, 1) == Balance(log, 0) + 1;
  }
}
