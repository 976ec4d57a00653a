/**
 Compaction at the level of logs: the pairs an iteration yields, the log that
 writing them out produces, and why that log means the same and always fits.
 */
module SysparamCompact {
  import opened Flash
  import opened Options
  import opened SysparamLog

  /** One pair yielded by an iteration, with the id its key had in the log. */
  datatype Item = Item(key: seq<Byte>, id: nat, value: Value)

  /** The value entry of the key at index `i`, or |log|. */
  function ValueOf(log: seq<Entry>, i: nat): (j: nat)
    requires i < |log|
    ensures i < j <= |log|
  {
    FindFrom(log, i + 1, log[i].Id(), true)
  }

  predicate Yields(log: seq<Entry>, i: nat)
    requires i < |log|
  {
    log[i].IsKey() && ValueOf(log, i) < |log|
  }

  /** The pairs an iteration yields for the keys among the first `n` entries. */
  function Items(log: seq<Entry>, n: nat): (r: seq<Item>)
    requires n <= |log|
  {
    if n == 0 then []
    else if Yields(log, n - 1) then
      Items(log, n - 1) + [Item(log[n - 1].payload, log[n - 1].Id(), log[ValueOf(log, n - 1)].Content())]
    else Items(log, n - 1)
  }

  /** What is written for one item, under its new id `n`. */
  function PairEntries(n: nat, it: Item, target: int): (r: seq<Entry>)
  {
    [KeyEntry(n, it.key)] + if it.id == target then [] else [ValueEntry(n, it.value)]
  }

  /** The log written for the first `n` items, leaving out the value of id `target`. */
  function Compacted(items: seq<Item>, n: nat, target: int): (r: seq<Entry>)
    requires n <= |items|
  {
    if n == 0 then []
    else Compacted(items, n - 1, target) + PairEntries(n, items[n - 1], target)
  }

  /** The id that `target` has once the first `n` items are renumbered. */
  function NewId(items: seq<Item>, n: nat, target: int): (r: int)
    requires n <= |items|
  {
    if n == 0 then target else if items[n - 1].id == target then n else NewId(items, n - 1, target)
  }

  function CompactedLog(log: seq<Entry>, target: int): (r: seq<Entry>)
  {
    var items := Items(log, |log|);
    Compacted(items, |items|, target)
  }

  lemma {:induction false} ItemsSkip(log: seq<Entry>, m: nat, n: nat)
    requires m <= n <= |log| && forall k :: m <= k < n ==> !Matches(log[k], ENTRY_ID_ANY, false)
    ensures Items(log, n) == Items(log, m)
    decreases n
  {
    if m < n { ItemsSkip(log, m, n - 1); }
  }

  // ----- what the items are -----

  ghost predicate ItemsOk(items: seq<Item>)
  {
    && (forall i :: 0 <= i < |items| ==>
          i < items[i].id <= MAX_KEY_ID && 1 <= |items[i].key| <= MAX_LEN && |items[i].value.data| <= MAX_LEN)
    && (forall i, j :: 0 <= i < j < |items| ==> items[i].id < items[j].id && items[i].key != items[j].key)
  }

  function ItemLookup(items: seq<Item>, n: nat, key: seq<Byte>): (v: Option<Value>)
    requires n <= |items|
  {
    if n == 0 then None
    else if items[n - 1].key == key then Some(items[n - 1].value)
    else ItemLookup(items, n - 1, key)
  }

  /** `it` carries the name and id of a live key among the first `n` entries. */
  ghost predicate FromKey(log: seq<Entry>, n: nat, it: Item)
    requires n <= |log|
  {
    exists m :: 0 <= m < n && log[m].IsKey() && log[m].Id() == it.id && log[m].payload == it.key
  }

  lemma {:induction false} ItemsOrigin(log: seq<Entry>, n: nat)
    requires n <= |log|
    ensures forall it :: it in Items(log, n) ==> FromKey(log, n, it)
  {
    if n > 0 {
      ItemsOrigin(log, n - 1);
      forall it | it in Items(log, n) ensures FromKey(log, n, it) {
        if it in Items(log, n - 1) { assert FromKey(log, n - 1, it); } else { assert log[n - 1].IsKey(); }
      }
    }
  }

  lemma {:induction false} ItemsFacts(log: seq<Entry>, n: nat)
    requires WellFormed(log) && n <= |log|
    ensures ItemsOk(Items(log, n))
  {
    if n > 0 {
      ItemsFacts(log, n - 1);
      if Yields(log, n - 1) { OneMoreItem(log, n); }
    }
  }

  lemma OneMoreItem(log: seq<Entry>, n: nat)
    requires WellFormed(log) && 0 < n <= |log| && Yields(log, n - 1) && ItemsOk(Items(log, n - 1))
    ensures ItemsOk(Items(log, n))
  {
    ItemsOrigin(log, n - 1);
    var e, items := log[n - 1], Items(log, n - 1);
    assert e.InFormat() && KeyOk(e) && log[ValueOf(log, n - 1)].InFormat();
    forall i | 0 <= i < |items| ensures items[i].id < e.Id() && items[i].key != e.payload {
      assert FromKey(log, n - 1, items[i]);
    }
    if |items| > 0 { assert |items| - 1 < items[|items| - 1].id; }
  }

  /** Iteration yields exactly the map that lookups read. */
  lemma {:induction false} ItemsLookup(log: seq<Entry>, n: nat, key: seq<Byte>)
    requires WellFormed(log) && n <= |log|
    ensures var items := Items(log, n);
            ItemLookup(items, |items|, key) == if KeyFrom(log, 0, key) < n then Lookup(log, key) else None
  {
    if n > 0 {
      ItemsLookup(log, n - 1, key);
      var items := Items(log, n - 1);
      if log[n - 1].IsKey() {
        KeyFromUnique(log, n - 1);
        if Yields(log, n - 1) { ItemLookupPrefix(items, Items(log, n)[|items|], |items|, key); }
      }
    }
  }

  lemma {:induction false} ItemLookupPrefix(items: seq<Item>, it: Item, n: nat, key: seq<Byte>)
    requires n <= |items|
    ensures ItemLookup(items + [it], n, key) == ItemLookup(items, n, key)
  {
    if n > 0 { ItemLookupPrefix(items, it, n - 1, key); }
  }

  // ----- what the compacted log means -----

  /** Writing one more pair, under the next free id. */
  lemma AppendPair(log: seq<Entry>, n: nat, it: Item, target: int, key: seq<Byte>)
    requires WellFormed(log) && LastKeyId(log, |log|) < n <= MAX_KEY_ID && !HasKey(log, it.key)
    requires 1 <= |it.key| <= MAX_LEN && |it.value.data| <= MAX_LEN
    ensures var log' := log + PairEntries(n, it, target);
            && WellFormed(log') && LastKeyId(log', |log'|) == n
            && Lookup(log', key) == (if key != it.key then Lookup(log, key)
                                     else if it.id == target then None else Some(it.value))
            && KeyId(log', key) == if key == it.key then n else KeyId(log, key)
  {
    var e, v := KeyEntry(n, it.key), ValueEntry(n, it.value);
    var log1 := log + [e];
    AppendNewKey(log, n, it.key, key);
    if it.id == target {
      assert log + PairEntries(n, it, target) == log1;
    } else {
      AppendOther(log1, v, key);
      KeyIdBounds(log, key);
      KeyIdBounds(log1, key);
      assert log + PairEntries(n, it, target) == log1 + [v];
    }
  }

  lemma {:induction false} CompactedFacts(items: seq<Item>, n: nat, target: int)
    requires ItemsOk(items) && n <= |items|
    ensures WellFormed(Compacted(items, n, target))
    ensures LastKeyId(Compacted(items, n, target), |Compacted(items, n, target)|) == n
    ensures forall i :: n <= i < |items| ==> !HasKey(Compacted(items, n, target), items[i].key)
  {
    if n > 0 {
      CompactedFacts(items, n - 1, target);
      var log := Compacted(items, n - 1, target);
      AppendPair(log, n, items[n - 1], target, items[n - 1].key);
      forall i | n <= i < |items| ensures !HasKey(Compacted(items, n, target), items[i].key) {
        AppendPair(log, n, items[n - 1], target, items[i].key);
        KeyIdBounds(log, items[i].key);
        KeyIdBounds(Compacted(items, n, target), items[i].key);
      }
    }
  }

  /** Every pair survives, except the value of the id being replaced. */
  function SurvivorLookup(items: seq<Item>, n: nat, target: int, key: seq<Byte>): (v: Option<Value>)
    requires n <= |items|
  {
    if n == 0 then None
    else if items[n - 1].key == key then
      if items[n - 1].id == target then None else Some(items[n - 1].value)
    else SurvivorLookup(items, n - 1, target, key)
  }

  lemma {:induction false} CompactedLookup(items: seq<Item>, n: nat, target: int, key: seq<Byte>)
    requires ItemsOk(items) && n <= |items|
    ensures Lookup(Compacted(items, n, target), key) == SurvivorLookup(items, n, target, key)
    ensures KeyId(Compacted(items, n, target), key) == ItemIndex(items, n, key)
  {
    if n > 0 {
      CompactedLookup(items, n - 1, target, key);
      CompactedFacts(items, n - 1, target);
      AppendPair(Compacted(items, n - 1, target), n, items[n - 1], target, key);
    }
  }

  /** One more than the position of `key` among the items; 0 if it is not there. */
  function ItemIndex(items: seq<Item>, n: nat, key: seq<Byte>): (r: nat)
    requires n <= |items|
    ensures r <= n && (r > 0 ==> items[r - 1].key == key)
    ensures r == 0 ==> forall i :: 0 <= i < n ==> items[i].key != key
  {
    if n == 0 then 0 else if items[n - 1].key == key then n else ItemIndex(items, n - 1, key)
  }

  lemma {:induction false} SurvivorsOf(items: seq<Item>, n: nat, target: int, key: seq<Byte>)
    requires n <= |items|
    ensures var r := ItemIndex(items, n, key);
            SurvivorLookup(items, n, target, key) ==
            if r > 0 && items[r - 1].id == target then None else ItemLookup(items, n, key)
  {
    if n > 0 { SurvivorsOf(items, n - 1, target, key); }
  }

  lemma {:induction false} NewIdOf(items: seq<Item>, n: nat, target: int, i: nat)
    requires ItemsOk(items) && i < n <= |items| && items[i].id == target
    ensures NewId(items, n, target) == i + 1
  {
    if i < n - 1 { NewIdOf(items, n - 1, target, i); }
  }

  lemma {:induction false} NewIdAbsent(items: seq<Item>, n: nat, target: int)
    requires n <= |items| && forall i :: 0 <= i < n ==> items[i].id != target
    ensures NewId(items, n, target) == target
  {
    if n > 0 { NewIdAbsent(items, n - 1, target); }
  }

  /** Updating the caller's id on the fly is sound: once renumbered it can match no
      later item, because old ids increase and a new id never exceeds the old one. */
  lemma RenumberedNeverMatches(items: seq<Item>, n: nat, target: int)
    requires ItemsOk(items) && n < |items|
    ensures items[n].id == NewId(items, n, target) <==> items[n].id == target
  {
    if i :| 0 <= i < n && items[i].id == target {
      NewIdOf(items, n, target, i);
    } else {
      NewIdAbsent(items, n, target);
    }
  }

  lemma {:induction false} YieldedIsItem(log: seq<Entry>, n: nat, m: nat)
    requires m < n <= |log| && Yields(log, m)
    ensures exists i :: 0 <= i < |Items(log, n)| && Items(log, n)[i].key == log[m].payload
                        && Items(log, n)[i].id == log[m].Id()
  {
    if m == n - 1 {
      assert Items(log, n)[|Items(log, n)| - 1].key == log[m].payload;
    } else {
      YieldedIsItem(log, n - 1, m);
      var i :| 0 <= i < |Items(log, n - 1)| && Items(log, n - 1)[i].key == log[m].payload
               && Items(log, n - 1)[i].id == log[m].Id();
      assert Items(log, n)[i] == Items(log, n - 1)[i];
    }
  }

  /** The item of a key is there exactly when the key has a value, under its id. */
  lemma ItemOfKey(log: seq<Entry>, key: seq<Byte>)
    requires WellFormed(log)
    ensures var items := Items(log, |log|); var r := ItemIndex(items, |items|, key);
            (r > 0 <==> Lookup(log, key).Some?) && (r > 0 ==> items[r - 1].id == KeyId(log, key))
  {
    var items := Items(log, |log|);
    var r := ItemIndex(items, |items|, key);
    ItemsOrigin(log, |log|);
    ItemsLookup(log, |log|, key);
    if r > 0 {
      assert FromKey(log, |log|, items[r - 1]);
      var m :| 0 <= m < |log| && log[m].IsKey() && log[m].Id() == items[r - 1].id && log[m].payload == key;
      KeyFromUnique(log, m);
      ItemLookupSome(items, |items|, r - 1);
    }
    if Lookup(log, key).Some? { YieldedIsItem(log, |log|, KeyFrom(log, 0, key)); }
  }

  /** Compaction keeps the meaning of the log, except that the key whose id is
      `target` is left without a value. */
  lemma CompactionMeaning(log: seq<Entry>, target: int, key: seq<Byte>)
    requires WellFormed(log)
    ensures WellFormed(CompactedLog(log, target))
    ensures Lookup(CompactedLog(log, target), key) == if KeyId(log, key) == target then None else Lookup(log, key)
    ensures HasKey(CompactedLog(log, target), key) <==> Lookup(log, key).Some?
  {
    var items := Items(log, |log|);
    ItemsFacts(log, |log|);
    CompactedFacts(items, |items|, target);
    CompactedLookup(items, |items|, target, key);
    SurvivorsOf(items, |items|, target, key);
    ItemsLookup(log, |log|, key);
    ItemOfKey(log, key);
    KeyIdBounds(log, key);
    KeyIdBounds(CompactedLog(log, target), key);
  }

  lemma {:induction false} ItemLookupSome(items: seq<Item>, n: nat, i: nat)
    requires i < n <= |items|
    ensures ItemLookup(items, n, items[i].key).Some?
  {
    if i < n - 1 { ItemLookupSome(items, n - 1, i); }
  }

  /** The id the caller is left with after a compaction aimed at `target`. */
  function RenumberedId(log: seq<Entry>, target: int): (r: int)
  {
    var items := Items(log, |log|);
    NewId(items, |items|, target)
  }

  /** Where a key that had a value ends up: under its new id, which is what the
      caller's id is updated to. */
  lemma CompactionNewId(log: seq<Entry>, key: seq<Byte>)
    requires WellFormed(log) && Lookup(log, key).Some?
    ensures var t := KeyId(log, key);
            RenumberedId(log, t) == KeyId(CompactedLog(log, t), key) && 1 <= RenumberedId(log, t) <= MAX_KEY_ID
  {
    var t, items := KeyId(log, key), Items(log, |log|);
    ItemsFacts(log, |log|);
    ItemOfKey(log, key);
    var r := ItemIndex(items, |items|, key);
    NewIdOf(items, |items|, t, r - 1);
    CompactedLookup(items, |items|, t, key);
    assert r - 1 < items[r - 1].id <= MAX_KEY_ID;
  }

  /** A key with no live value is skipped by the iteration, so its id is not
      renumbered and the compacted log has no entry for it. */
  lemma CompactionForgetsOrphan(log: seq<Entry>, key: seq<Byte>)
    requires WellFormed(log) && HasKey(log, key) && Lookup(log, key).None?
    ensures RenumberedId(log, KeyId(log, key)) == KeyId(log, key)
    ensures !HasKey(CompactedLog(log, KeyId(log, key)), key)
  {
    var t, items := KeyId(log, key), Items(log, |log|);
    CompactionMeaning(log, t, key);
    ItemsOrigin(log, |log|);
    forall i | 0 <= i < |items| ensures items[i].id != t {
      assert FromKey(log, |log|, items[i]);
      if items[i].id == t {
        assert items[i].key == key;
        ItemLookupSome(items, |items|, i);
        ItemsLookup(log, |log|, key);
        assert false;
      }
    }
    NewIdAbsent(items, |items|, t);
  }

  // ----- why it always fits -----

  /** The two measures: bytes, and number of pairs. */
  datatype Measure = Bytes | Pairs

  function KeyWeight(w: Measure, e: Entry): (r: nat) { if w.Bytes? then e.Size() else 0 }
  function ValueWeight(w: Measure, e: Entry): (r: nat) { if w.Bytes? then e.Size() else 1 }

  function ItemsWeight(w: Measure, log: seq<Entry>, n: nat, target: int): (r: nat)
    requires n <= |log|
  {
    if n == 0 then 0
    else ItemsWeight(w, log, n - 1, target) +
         if !Yields(log, n - 1) then 0
         else KeyWeight(w, log[n - 1]) +
              if log[n - 1].Id() == target then 0 else ValueWeight(w, log[ValueOf(log, n - 1)])
  }

  /** `e` is a live value whose id belongs to a key among the first `n` entries. */
  ghost predicate Claimed(log: seq<Entry>, n: nat, target: int, e: Entry)
    requires n <= |log|
  {
    e.IsValue() && e.Id() != target && exists i :: 0 <= i < n && log[i].IsKey() && log[i].Id() == e.Id()
  }

  ghost function ClaimedWeight(w: Measure, log: seq<Entry>, n: nat, target: int, m: nat): (r: nat)
    requires n <= |log| && m <= |log|
  {
    if m == 0 then 0
    else ClaimedWeight(w, log, n, target, m - 1)
         + (if m - 1 < n && log[m - 1].IsKey() then KeyWeight(w, log[m - 1]) else 0)
         + (if Claimed(log, n, target, log[m - 1]) then ValueWeight(w, log[m - 1]) else 0)
  }

  lemma {:induction false} ClaimOneMore(w: Measure, log: seq<Entry>, n: nat, target: int, m: nat)
    requires WellFormed(log) && 0 < n <= |log| && m <= |log|
    ensures ClaimedWeight(w, log, n, target, m) >=
            ClaimedWeight(w, log, n - 1, target, m)
            + (if n <= m && log[n - 1].IsKey() then KeyWeight(w, log[n - 1]) else 0)
            + (if log[n - 1].IsKey() && log[n - 1].Id() != target && ValueOf(log, n - 1) < m
               then ValueWeight(w, log[ValueOf(log, n - 1)]) else 0)
  {
    if m > 0 {
      ClaimOneMore(w, log, n, target, m - 1);
      var e := log[m - 1];
      if Claimed(log, n - 1, target, e) {
        assert Claimed(log, n, target, e);
      }
      if log[n - 1].IsKey() && m - 1 == ValueOf(log, n - 1) && log[n - 1].Id() != target {
        assert e.Id() == log[n - 1].Id() && e.IsValue();
        assert Claimed(log, n, target, e);
        assert !Claimed(log, n - 1, target, e);
      }
    }
  }

  lemma {:induction false} ItemsAreClaimed(w: Measure, log: seq<Entry>, n: nat, target: int)
    requires WellFormed(log) && n <= |log|
    ensures ItemsWeight(w, log, n, target) <= ClaimedWeight(w, log, n, target, |log|)
  {
    if n > 0 {
      ItemsAreClaimed(w, log, n - 1, target);
      ClaimOneMore(w, log, n, target, |log|);
    }
  }

  /** Live bytes claimed by items, dead bytes, and the value being replaced are
      disjoint parts of the log. */
  lemma {:induction false} ClaimedBytes(log: seq<Entry>, n: nat, target: int, m: nat, stale: nat)
    requires n <= |log| && m <= |log| && stale <= |log|
    requires stale < |log| ==> log[stale].IsValue() && log[stale].Id() == target
    ensures ClaimedWeight(Bytes, log, n, target, m) + DeadSize(log, m)
            + (if stale < m then log[stale].Size() else 0) <= Offset(log, m)
  {
    if m > 0 { ClaimedBytes(log, n, target, m - 1, stale); }
  }

  lemma PairOffsets(l: seq<Entry>, id: nat, item: Item, target: int)
    ensures var e, v, l' := KeyEntry(id, item.key), ValueEntry(id, item.value), l + PairEntries(id, item, target);
            && l' == (if item.id == target then l + [e] else l + [e] + [v])
            && Offset(l + [e], |l| + 1) == Offset(l, |l|) + EntrySize(|item.key|)
            && Offset(l', |l'|) == Offset(l + [e], |l| + 1) +
                                   if item.id == target then 0 else EntrySize(|item.value.data|)
  {
    var e, v := KeyEntry(id, item.key), ValueEntry(id, item.value);
    TotalsOfPrefix(l, e, |l|);
    TotalsOfPrefix(l + [e], v, |l| + 1);
    if item.id == target {
      assert l + PairEntries(id, item, target) == l + [e];
    } else {
      assert l + PairEntries(id, item, target) == l + [e] + [v];
    }
  }

  lemma {:induction false} CompactedBytes(log: seq<Entry>, n: nat, target: int)
    requires n <= |log|
    ensures var items := Items(log, n);
            var log' := Compacted(items, |items|, target);
            Offset(log', |log'|) == ItemsWeight(Bytes, log, n, target)
  {
    if n > 0 {
      CompactedBytes(log, n - 1, target);
      if Yields(log, n - 1) {
        var items, items' := Items(log, n - 1), Items(log, n);
        CompactedPrefix(items, items'[|items|], |items|, target);
        PairOffsets(Compacted(items, |items|, target), |items'|, items'[|items|], target);
      }
    }
  }

  lemma {:induction false} CompactedPrefix(items: seq<Item>, it: Item, n: nat, target: int)
    requires n <= |items|
    ensures Compacted(items + [it], n, target) == Compacted(items, n, target)
  {
    if n > 0 { CompactedPrefix(items, it, n - 1, target); }
  }

  /** Compaction frees at least everything the scan counted as compactable. */
  lemma CompactionFits(log: seq<Entry>, target: int, stale: nat)
    requires WellFormed(log) && stale <= |log|
    requires stale < |log| ==> log[stale].IsValue() && log[stale].Id() == target
    ensures var log' := CompactedLog(log, target);
            Offset(log', |log'|) + DeadSize(log, |log|) + (if stale < |log| then log[stale].Size() else 0)
            <= Offset(log, |log|)
  {
    CompactedBytes(log, |log|, target);
    ItemsAreClaimed(Bytes, log, |log|, target);
    ClaimedBytes(log, |log|, target, |log|, stale);
  }

  /** At every point of the copying, what has been written is no longer than the log. */
  lemma CompactionFitsSoFar(log: seq<Entry>, n: nat, target: int)
    requires WellFormed(log) && n <= |log|
    ensures var items := Items(log, n); var l := Compacted(items, |items|, target);
            Offset(l, |l|) <= Offset(log, |log|)
  {
    CompactedBytes(log, n, target);
    ItemsAreClaimed(Bytes, log, n, target);
    ClaimedBytes(log, n, target, |log|, |log|);
  }

  /** One round of the copying loop: the next item, the log and the caller's id. */
  lemma CopyStep(log: seq<Entry>, m: nat, n: nat, item: Item, target: int)
    requires WellFormed(log) && m < n <= |log| && Items(log, n) == Items(log, m) + [item]
    ensures var items, items' := Items(log, m), Items(log, n);
            var l, l' := Compacted(items, |items|, target), Compacted(items', |items'|, target);
            && |items'| <= MAX_KEY_ID && 1 <= |item.key| <= MAX_LEN && |item.value.data| <= MAX_LEN
            && l' == l + PairEntries(|items'|, item, target)
            && Offset(l', |l'|) <= Offset(log, |log|)
            && (item.id == NewId(items, |items|, target) <==> item.id == target)
            && NewId(items', |items'|, target) == if item.id == target then |items'| else NewId(items, |items|, target)
  {
    var items, items' := Items(log, m), Items(log, n);
    ItemsFacts(log, n);
    assert items'[|items|] == item && |items| < item.id <= MAX_KEY_ID;
    CompactedPrefix(items, item, |items|, target);
    CompactionFitsSoFar(log, n, target);
    NewIdPrefix(items, item, |items|, target);
    RenumberedNeverMatches(items', |items|, target);
  }

  lemma {:induction false} NewIdPrefix(items: seq<Item>, it: Item, n: nat, target: int)
    requires n <= |items|
    ensures NewId(items + [it], n, target) == NewId(items, n, target)
  {
    if n > 0 { NewIdPrefix(items, it, n - 1, target); }
  }

  lemma {:induction false} PairsAreItems(log: seq<Entry>, n: nat)
    requires n <= |log|
    ensures ItemsWeight(Pairs, log, n, -1) == |Items(log, n)|
  {
    if n > 0 { PairsAreItems(log, n - 1); }
  }

  lemma {:induction false} KeysMinusPairs(log: seq<Entry>, n: nat, m: nat)
    requires WellFormed(log) && n <= |log| && m <= |log|
    ensures ClaimedWeight(Pairs, log, n, -1, m) + Balance(log, m) <= LastKeyId(log, m)
  {
    if m > 0 {
      KeysMinusPairs(log, n, m - 1);
      LastKeyIdBounds(log, m);
      if log[m - 1].IsKey() { LastKeyStep(log, m); }
    }
  }

  lemma {:induction false} LastKeyStep(log: seq<Entry>, m: nat)
    requires WellFormed(log) && 0 < m <= |log| && log[m - 1].IsKey()
    ensures LastKeyId(log, m - 1) < log[m - 1].Id()
  {
    LastKeyIsKey(log, m - 1);
    assert KeyOk(log[m - 1]);
  }

  lemma {:induction false} LastKeyIsKey(log: seq<Entry>, m: nat)
    requires m <= |log|
    ensures LastKeyId(log, m) == 0 || exists i :: 0 <= i < m && log[i].IsKey() && log[i].Id() == LastKeyId(log, m)
  {
    if m > 0 && !log[m - 1].IsKey() { LastKeyIsKey(log, m - 1); }
  }

  /** If a scan counted more keys than values, renumbering frees at least one id:
      this is what makes compaction worth trying when ids have run out. */
  lemma CompactionFreesIds(log: seq<Entry>)
    requires WellFormed(log)
    ensures |Items(log, |log|)| + Balance(log, |log|) <= LastKeyId(log, |log|) <= MAX_KEY_ID
    ensures |Items(log, |log|)| <= MAX_KEY_ID
  {
    PairsAreItems(log, |log|);
    ItemsAreClaimed(Pairs, log, |log|, -1);
    KeysMinusPairs(log, |log|, |log|);
    LastKeyIdBounds(log, |log|);
    ItemsFacts(log, |log|);
    var items := Items(log, |log|);
    if |items| > 0 { assert |items| - 1 < items[|items| - 1].id; }
  }
}
