/**
 What setting a parameter does to the log, as a function of the log, the space and
 the force-compact flag before the call, and exactly when that is what the caller
 asked for.
 */
module SysparamSet {
  import opened Flash
  import opened Options
  import opened SysparamLog
  import opened SysparamCompact

  datatype Status = Ok | NotFound | ErrNoInit | ErrBadValue | ErrFull | ErrIo | ErrCorrupt

  datatype Outcome = Outcome(status: Status, log: seq<Entry>, compacted: bool)

  function Target(log: seq<Entry>, key: seq<Byte>): (id: int)
  {
    if HasKey(log, key) then KeyId(log, key) else -1
  }

  function Needed(log: seq<Entry>, key: seq<Byte>, len: nat): (r: nat)
  {
    EntrySize(len) + if HasKey(log, key) then 0 else EntrySize(|key|)
  }

  /** What the scan counts as compactable: dead entries and the value to be replaced. */
  function Reclaimable(log: seq<Entry>, key: seq<Byte>): (r: nat)
  {
    var j := ValueIndex(log, key);
    DeadSize(log, |log|) + if j < |log| then log[j].Size() else 0
  }

  predicate OutOfIds(log: seq<Entry>, key: seq<Byte>)
  {
    !HasKey(log, key) && LastKeyId(log, |log|) >= MAX_KEY_ID
  }

  /** Appends the value under `id`, or the key and the value under a new id. */
  function Put(log: seq<Entry>, id: int, key: seq<Byte>, v: Value): (r: seq<Entry>)
  {
    if id < 0 then WithPair(log, LastKeyId(log, |log|) + 1, key, v) else log + [ValueEntry(id, v)]
  }

  function WithPair(log: seq<Entry>, n: nat, key: seq<Byte>, v: Value): (r: seq<Entry>)
  {
    log + [KeyEntry(n, key)] + [ValueEntry(n, v)]
  }

  /** Compacts, then appends. */
  function CompactAndPut(log: seq<Entry>, key: seq<Byte>, v: Value): (log': seq<Entry>)
  {
    var t := Target(log, key);
    Put(CompactedLog(log, t), RenumberedId(log, t), key, v)
  }

  /** Appends, then deletes the value that was there. */
  function PutAndKill(log: seq<Entry>, key: seq<Byte>, v: Value): (log': seq<Entry>)
  {
    var j, log1 := ValueIndex(log, key), Put(log, Target(log, key), key, v);
    if j < |log| then Kill(log1, j) else log1
  }

  /** The entries do not fit, and compaction is expected or hoped to help. */
  predicate CompactsForSpace(log: seq<Entry>, cap: nat, key: seq<Byte>, len: nat)
  {
    var want := Needed(log, key, len) + Offset(log, |log|);
    want > cap && (want <= cap + Reclaimable(log, key) || Balance(log, |log|) > 0)
  }

  datatype Verdict = Fits | Compacts | Full | FullAnyway

  /** How a value of `len` bytes will be stored in a region with `cap` bytes for
      entries: appended as it is, appended after compacting, or not at all (without
      compacting, or in spite of it). */
  function Judge(log: seq<Entry>, cap: nat, force: bool, key: seq<Byte>, len: nat): (r: Verdict)
  {
    if CompactsForSpace(log, cap, key, len) then
      var log1 := CompactedLog(log, Target(log, key));
      if Needed(log, key, len) + Offset(log1, |log1|) > cap
         || (!HasKey(log, key) && LastKeyId(log1, |log1|) >= MAX_KEY_ID)
      then FullAnyway else Compacts
    else if Needed(log, key, len) + Offset(log, |log|) > cap then Full
    else if OutOfIds(log, key) then if Balance(log, |log|) > 0 then Compacts else Full
    else if force then Compacts
    else Fits
  }

  /** The log that each verdict leads to. */
  function Judged(log: seq<Entry>, r: Verdict, key: seq<Byte>, v: Value): (log': seq<Entry>)
  {
    match r
    case Fits => PutAndKill(log, key, v)
    case Compacts => CompactAndPut(log, key, v)
    case Full => log
    case FullAnyway => CompactedLog(log, Target(log, key))
  }

  /** The outcome of a set in a region with `cap` bytes for entries. */
  function Set(log: seq<Entry>, cap: nat, force: bool, key: seq<Byte>, v: Value): (r: Outcome)
  {
    var j := ValueIndex(log, key);
    if v.data == [] then
      if j < |log| then Outcome(Ok, Kill(log, j), false) else Outcome(NotFound, log, false)
    else if Lookup(log, key) == Some(v) then Outcome(Ok, log, false)
    else
      var r := Judge(log, cap, force, key, |v.data|);
      Outcome(if r == Fits || r == Compacts then Ok else ErrFull, Judged(log, r, key, v), r == Compacts || r == FullAnyway)
  }

  // ----- appending -----

  /** Appending under `id` is meant for `key`: no other key lacks a value there. */
  ghost predicate MeantFor(log: seq<Entry>, id: int, key: seq<Byte>)
  {
    if id < 0 then !HasKey(log, key) && LastKeyId(log, |log|) < MAX_KEY_ID
    else 1 <= id <= MAX_KEY_ID && forall k :: k != key && HasKey(log, k) && KeyId(log, k) == id ==> Lookup(log, k).Some?
  }

  predicate Legal(key: seq<Byte>, v: Value)
  {
    1 <= |key| <= MAX_LEN && |v.data| <= MAX_LEN
  }

  lemma PutLookup(log: seq<Entry>, id: int, key: seq<Byte>, v: Value, k: seq<Byte>)
    requires WellFormed(log) && Legal(key, v) && MeantFor(log, id, key)
    ensures WellFormed(Put(log, id, key, v))
    ensures k != key ==> Lookup(Put(log, id, key, v), k) == Lookup(log, k)
    ensures Lookup(Put(log, id, key, v), key) ==
            if Lookup(log, key).Some? then Lookup(log, key)
            else if id < 0 || (HasKey(log, key) && KeyId(log, key) == id) then Some(v)
            else None
  {
    if id < 0 {
      NewPairLookup(log, LastKeyId(log, |log|) + 1, key, v, k);
      NewPairLookup(log, LastKeyId(log, |log|) + 1, key, v, key);
    } else {
      PutValueLookup(log, id, key, v, k);
    }
  }

  lemma PutValueLookup(log: seq<Entry>, id: nat, key: seq<Byte>, v: Value, k: seq<Byte>)
    requires WellFormed(log) && Legal(key, v) && MeantFor(log, id, key)
    ensures var log' := Put(log, id, key, v);
            && WellFormed(log') && (k != key ==> Lookup(log', k) == Lookup(log, k))
            && Lookup(log', key) == if Lookup(log, key).Some? then Lookup(log, key)
                                    else if HasKey(log, key) && KeyId(log, key) == id then Some(v) else None
  {
    ValueLookup(log, id, v, k);
    ValueLookup(log, id, v, key);
  }

  lemma ValueLookup(log: seq<Entry>, id: nat, v: Value, k: seq<Byte>)
    requires WellFormed(log) && 1 <= id <= MAX_KEY_ID && |v.data| <= MAX_LEN
    ensures var log' := log + [ValueEntry(id, v)];
            WellFormed(log') && Lookup(log', k) == if HasKey(log, k) && Lookup(log, k).None? && KeyId(log, k) == id then Some(v) else Lookup(log, k)
  {
    AppendOther(log, ValueEntry(id, v), k);
  }

  lemma NewPairLookup(log: seq<Entry>, n: nat, key: seq<Byte>, v: Value, k: seq<Byte>)
    requires WellFormed(log) && Legal(key, v) && LastKeyId(log, |log|) < n <= MAX_KEY_ID && !HasKey(log, key)
    ensures var log' := WithPair(log, n, key, v);
            WellFormed(log') && Lookup(log', k) == if k == key then Some(v) else Lookup(log, k)
  {
    var log1 := log + [KeyEntry(n, key)];
    AppendNewKey(log, n, key, k);
    AppendOther(log1, ValueEntry(n, v), k);
    KeyIdBounds(log, k);
    KeyIdBounds(log1, k);
  }

  lemma PutSize(log: seq<Entry>, id: int, key: seq<Byte>, v: Value)
    ensures var log' := Put(log, id, key, v);
            Offset(log', |log'|) == Offset(log, |log|) + EntrySize(|v.data|) + if id < 0 then EntrySize(|key|) else 0
  {
    if id < 0 {
      var n := LastKeyId(log, |log|) + 1;
      var e, w := KeyEntry(n, key), ValueEntry(n, v);
      TotalsOfPrefix(log, e, |log|);
      TotalsOfPrefix(log + [e], w, |log| + 1);
    } else {
      TotalsOfPrefix(log, ValueEntry(id, v), |log|);
    }
  }

  /** `l` is `base` with one more entry that is not live. */
  ghost predicate DeadAppended(l: seq<Entry>, base: seq<Entry>)
  {
    |l| == |base| + 1 && l == base + [l[|base|]] && !l[|base|].Live() && l[|base|].InFormat()
  }

  /** `l` is what a power cut can leave of `Put(base, id, key, v)`. */
  ghost predicate Midway(l: seq<Entry>, base: seq<Entry>, id: int, key: seq<Byte>, v: Value)
  {
    || l == base || DeadAppended(l, base)
    || (id < 0 && var base1 := base + [KeyEntry(LastKeyId(base, |base|) + 1, key)]; l == base1 || DeadAppended(l, base1))
    || l == Put(base, id, key, v)
  }

  /** Writing a new pair is writing its key, then its value under the new id. */
  lemma MidwayValue(l: seq<Entry>, base: seq<Entry>, id: int, n: nat, key: seq<Byte>, v: Value)
    requires id < 0 && n == LastKeyId(base, |base|) + 1
    requires Midway(l, base + [KeyEntry(n, key)], n, key, v)
    ensures Midway(l, base, id, key, v)
    ensures Put(base + [KeyEntry(n, key)], n, key, v) == Put(base, id, key, v)
  {
  }

  lemma DeadAppendedLookup(l: seq<Entry>, base: seq<Entry>, k: seq<Byte>)
    requires WellFormed(base) && DeadAppended(l, base)
    ensures WellFormed(l) && Lookup(l, k) == Lookup(base, k)
  {
    AppendOther(base, l[|base|], k);
  }

  /** A power cut while appending leaves every other key alone, and the key either as
      it was or as it would have been. */
  lemma MidwayLookup(l: seq<Entry>, base: seq<Entry>, id: int, key: seq<Byte>, v: Value, k: seq<Byte>)
    requires WellFormed(base) && Legal(key, v) && MeantFor(base, id, key) && Midway(l, base, id, key, v)
    ensures WellFormed(l)
    ensures k != key ==> Lookup(l, k) == Lookup(base, k)
    ensures Lookup(l, key) == Lookup(base, key) || Lookup(l, key) == Lookup(Put(base, id, key, v), key)
  {
    if l == base {
    } else if DeadAppended(l, base) {
      DeadAppendedLookup(l, base, k);
      DeadAppendedLookup(l, base, key);
    } else if l == Put(base, id, key, v) {
      PutLookup(base, id, key, v, k);
    } else {
      var n := LastKeyId(base, |base|) + 1;
      var base1 := base + [KeyEntry(n, key)];
      AppendNewKey(base, n, key, k);
      AppendNewKey(base, n, key, key);
      if l != base1 {
        DeadAppendedLookup(l, base1, k);
        DeadAppendedLookup(l, base1, key);
      }
    }
  }

  // ----- the three ways a set can go -----

  lemma TargetMeant(log: seq<Entry>, key: seq<Byte>)
    requires WellFormed(log) && !OutOfIds(log, key)
    ensures MeantFor(log, Target(log, key), key)
  {
    KeyIdBounds(log, key);
    forall k | k != key && HasKey(log, key) && HasKey(log, k) ensures KeyId(log, k) != KeyId(log, key) {
      KeyIdsDiffer(log, key, k);
    }
  }

  /** After compaction the appended value changes what no other key reads, even if it is
      filed under an id that the compaction did not keep.  `HidesBehind` says when it is
      then the second value of another key. */
  lemma RenumberedMeant(log: seq<Entry>, key: seq<Byte>)
    requires WellFormed(log)
    requires IdsLeft(log, key)
    ensures MeantFor(CompactedLog(log, Target(log, key)), RenumberedId(log, Target(log, key)), key)
  {
    var t := Target(log, key);
    var log1 := CompactedLog(log, t);
    KeyIdBounds(log, key);
    CompactionMeaning(log, t, key);
    if !HasKey(log, key) {
      ItemsFacts(log, |log|);
      NewIdAbsent(Items(log, |log|), |Items(log, |log|)|, -1);
    } else {
      if Lookup(log, key).Some? { CompactionNewId(log, key); } else { CompactionForgetsOrphan(log, key); }
      forall k | k != key && HasKey(log1, k) ensures Lookup(log1, k).Some? {
        CompactionMeaning(log, t, k);
        KeyIdsDiffer(log, key, k);
      }
    }
  }

  lemma CompactAndPutLookup(log: seq<Entry>, key: seq<Byte>, v: Value, k: seq<Byte>)
    requires WellFormed(log) && Legal(key, v)
    requires IdsLeft(log, key)
    ensures var log' := CompactAndPut(log, key, v);
            && WellFormed(log')
            && (k != key ==> Lookup(log', k) == Lookup(log, k))
            && Lookup(log', key) == if HasKey(log, key) && Lookup(log, key).None? then None else Some(v)
  {
    var t := Target(log, key);
    var log1, id := CompactedLog(log, t), RenumberedId(log, t);
    KeyIdBounds(log, key);
    KeyIdBounds(log, k);
    CompactionMeaning(log, t, key);
    CompactionMeaning(log, t, k);
    RenumberedMeant(log, key);
    PutLookup(log1, id, key, v, k);
    KeyIdBounds(log1, key);
    if k != key && HasKey(log, key) { KeyIdsDiffer(log, key, k); }
    if !HasKey(log, key) {
      NewIdAbsentMinusOne(log);
    } else if Lookup(log, key).Some? {
      CompactionNewId(log, key);
    } else {
      CompactionForgetsOrphan(log, key);
    }
  }

  lemma NewIdAbsentMinusOne(log: seq<Entry>)
    requires WellFormed(log)
    ensures RenumberedId(log, -1) == -1
  {
    ItemsFacts(log, |log|);
    NewIdAbsent(Items(log, |log|), |Items(log, |log|)|, -1);
  }

  lemma PutKeepsPlaces(log: seq<Entry>, key: seq<Byte>, v: Value)
    requires WellFormed(log) && Legal(key, v) && !OutOfIds(log, key) && ValueIndex(log, key) < |log|
    ensures var log' := Put(log, Target(log, key), key, v);
            && ValueIndex(log', key) == ValueIndex(log, key)
            && SecondValue(log', key) == if SecondValue(log, key).Some? then SecondValue(log, key) else Some(v)
  {
    var id, i, j := Target(log, key), KeyFrom(log, 0, key), ValueIndex(log, key);
    var e := ValueEntry(id, v);
    KeyIdBounds(log, key);
    assert Put(log, id, key, v) == log + [e];
    AppendKey(log, e, key);
    AppendKeepsPlace(log, e, i, id);
    AppendKeepsSecond(log, e, j, id);
    assert (log + [e])[i] == log[i];
  }

  lemma AppendKeepsPlace(log: seq<Entry>, e: Entry, i: nat, id: nat)
    requires i < |log| && FindFrom(log, i + 1, id, true) < |log|
    ensures FindFrom(log + [e], i + 1, id, true) == FindFrom(log, i + 1, id, true)
  {
    AppendFind(log, e, i + 1, id, true);
  }

  lemma AppendKeepsSecond(log: seq<Entry>, e: Entry, j: nat, id: nat)
    requires j < |log| && Matches(e, id, true)
    ensures FindFrom(log + [e], j + 1, id, true) == FindFrom(log, j + 1, id, true) < |log + [e]|
    ensures ContentAt(log + [e], FindFrom(log, j + 1, id, true))
         == if FindFrom(log, j + 1, id, true) < |log| then ContentAt(log, FindFrom(log, j + 1, id, true)) else Some(e.Content())
  {
    AppendFind(log, e, j + 1, id, true);
  }

  lemma PutAndKillLookup(log: seq<Entry>, key: seq<Byte>, v: Value, k: seq<Byte>)
    requires WellFormed(log) && Legal(key, v) && !OutOfIds(log, key)
    ensures var log' := PutAndKill(log, key, v);
            && WellFormed(log')
            && (k != key ==> Lookup(log', k) == Lookup(log, k))
            && Lookup(log', key) == if SecondValue(log, key).Some? then SecondValue(log, key) else Some(v)
  {
    var log1, j := Put(log, Target(log, key), key, v), ValueIndex(log, key);
    TargetMeant(log, key);
    PutLookup(log, Target(log, key), key, v, k);
    KeyIdBounds(log, key);
    if j < |log| {
      PutKeepsPlaces(log, key, v);
      KillLookup(log1, key, k);
      KillLookup(log1, key, key);
      KillWellFormed(log1, j);
    }
  }

  // ----- the theorems -----

  /** The guards that lead to a compaction: for space; or, when there is space, for an id
      or because of damage met earlier. */
  predicate WillCompact(log: seq<Entry>, cap: nat, force: bool, key: seq<Byte>, len: nat)
  {
    || CompactsForSpace(log, cap, key, len)
    || (Needed(log, key, len) + Offset(log, |log|) <= cap && if OutOfIds(log, key) then Balance(log, |log|) > 0 else force)
  }

  lemma CompactsIfGuarded(log: seq<Entry>, cap: nat, force: bool, key: seq<Byte>, v: Value)
    requires v.data != [] && Lookup(log, key) != Some(v)
    ensures Set(log, cap, force, key, v).compacted <==> WillCompact(log, cap, force, key, |v.data|)
  {
  }

  /** What is needed fits behind the log, or behind the compacted one if the call compacts, and
      there is an id for the key. */
  predicate HasRoom(log: seq<Entry>, cap: nat, force: bool, key: seq<Byte>, len: nat)
  {
    var base := if WillCompact(log, cap, force, key, len) then CompactedLog(log, Target(log, key)) else log;
    Needed(log, key, len) + Offset(base, |base|) <= cap && (HasKey(log, key) || LastKeyId(base, |base|) < MAX_KEY_ID)
  }

  /** A set of a nonempty value reports success if and only if the key has that value already
      or there is room. */
  lemma SetSucceeds(log: seq<Entry>, cap: nat, force: bool, key: seq<Byte>, v: Value)
    requires WellFormed(log) && v.data != []
    ensures Set(log, cap, force, key, v).status in {Ok, ErrFull}
    ensures Set(log, cap, force, key, v).status == Ok <==> Lookup(log, key) == Some(v) || HasRoom(log, cap, force, key, |v.data|)
  {
    var t := Target(log, key);
    JudgeFacts(log, cap, force, key, |v.data|);
    CompactionFits(log, t, |log|);
    KeyIdBounds(log, key);
  }

  /** It compacts only if it must: the entries do not fit, or no id is left, or a scan has met
      damage.  And if the value is there already it writes nothing. */
  lemma CompactsOnlyIfItMust(log: seq<Entry>, cap: nat, force: bool, key: seq<Byte>, v: Value)
    ensures var r := Set(log, cap, force, key, v);
            && (r.compacted ==> Needed(log, key, |v.data|) + Offset(log, |log|) > cap || OutOfIds(log, key) || force)
            && (Lookup(log, key) == Some(v) && v.data != [] ==> r == Outcome(Ok, log, false))
  {
  }

  /** And it does compact if there is room and damage has been met, or no id is left and some
      key has no value. */
  lemma CompactsWhenItMust(log: seq<Entry>, cap: nat, force: bool, key: seq<Byte>, v: Value)
    requires v.data != [] && Lookup(log, key) != Some(v) && Needed(log, key, |v.data|) + Offset(log, |log|) <= cap
    requires if OutOfIds(log, key) then Balance(log, |log|) > 0 else force
    ensures Set(log, cap, force, key, v).compacted
  {
  }

  /** A second set to the same value changes nothing, if the first one took effect. */
  lemma SetTwice(log: seq<Entry>, cap: nat, force: bool, force': bool, key: seq<Byte>, v: Value)
    requires WellFormed(log) && Legal(key, v) && v.data != [] && Set(log, cap, force, key, v).status == Ok
    requires WillTakeEffect(log, cap, force, key, v)
    ensures var log' := Set(log, cap, force, key, v).log; Set(log', cap, force', key, v) == Outcome(Ok, log', false)
  {
    SetTakesEffect(log, cap, force, key, v);
  }

  /** The flag that makes the next set compact.  A compaction clears it; scanning on from the
      end of a region that is full to the last byte sets it. */
  function ForceAfter(log: seq<Entry>, cap: nat, force: bool, key: seq<Byte>, v: Value): (f: bool)
  {
    var r := Set(log, cap, force, key, v);
    !r.compacted && (force || (r.status == ErrFull && Brimful(log, cap, key)))
  }

  /** A scan for the value of the key ends at the end of a region that is full to the last byte. */
  predicate Brimful(log: seq<Entry>, cap: nat, key: seq<Byte>)
  {
    Lookup(log, key).None? && Offset(log, |log|) + 4 > cap
  }

  /** What the caller of a set can check beforehand, and the set does what it says
      exactly then: if the call compacts, the key must not be one left without a
      value; if not, no second live value may be hiding behind the current one. */
  predicate WillTakeEffect(log: seq<Entry>, cap: nat, force: bool, key: seq<Byte>, v: Value)
  {
    || Lookup(log, key) == Some(v)
    || if WillCompact(log, cap, force, key, |v.data|) then !HasKey(log, key) || Lookup(log, key).Some?
       else SecondValue(log, key).None? || SecondValue(log, key) == Some(v)
  }

  /** The four ways a set of a nonempty value can go. */
  lemma SetCases(log: seq<Entry>, cap: nat, force: bool, key: seq<Byte>, v: Value)
    requires WellFormed(log) && v.data != []
    ensures var r, needed := Set(log, cap, force, key, v), Needed(log, key, |v.data|);
            var log1 := CompactedLog(log, Target(log, key));
            || (r.log == log && !r.compacted && (r.status == ErrFull || (r.status == Ok && Lookup(log, key) == Some(v))))
            || (r == Outcome(ErrFull, log1, true) && (needed + Offset(log1, |log1|) > cap || !HasKey(log, key)))
            || (r == Outcome(Ok, CompactAndPut(log, key, v), true) && needed + Offset(log1, |log1|) <= cap && IdsLeft(log, key))
            || (r == Outcome(Ok, PutAndKill(log, key, v), false) && needed + Offset(log, |log|) <= cap && !OutOfIds(log, key))
  {
    JudgeFacts(log, cap, force, key, |v.data|);
  }

  /** What each verdict guarantees. */
  lemma JudgeFacts(log: seq<Entry>, cap: nat, force: bool, key: seq<Byte>, len: nat)
    requires WellFormed(log)
    ensures var r, needed := Judge(log, cap, force, key, len), Needed(log, key, len);
            var log1 := CompactedLog(log, Target(log, key));
            && (r == Fits ==> needed + Offset(log, |log|) <= cap && !OutOfIds(log, key))
            && (r == Compacts ==> needed + Offset(log1, |log1|) <= cap && IdsLeft(log, key))
            && (r == FullAnyway ==> needed + Offset(log1, |log1|) > cap || !HasKey(log, key))
  {
    CompactionFits(log, Target(log, key), |log|);
    KeyIdBounds(log, key);
    if Judge(log, cap, force, key, len) == Compacts { IdsSuffice(log, cap, force, key, len); }
  }

  /** After compaction there is an id for `key`, if it needs one. */
  predicate IdsLeft(log: seq<Entry>, key: seq<Byte>)
  {
    HasKey(log, key) || LastKeyId(CompactedLog(log, -1), |CompactedLog(log, -1)|) < MAX_KEY_ID
  }

  lemma CompactedKeepsOthers(log: seq<Entry>, key: seq<Byte>, k: seq<Byte>)
    requires WellFormed(log)
    ensures WellFormed(CompactedLog(log, Target(log, key)))
    ensures k != key ==> Lookup(CompactedLog(log, Target(log, key)), k) == Lookup(log, k)
  {
    CompactionMeaning(log, Target(log, key), k);
    KeyIdBounds(log, k);
    KeyIdBounds(log, key);
    if k != key && HasKey(log, key) { KeyIdsDiffer(log, key, k); }
  }

  /** Whatever happens, the log stays well formed and no other key changes. */
  lemma SetKeepsOthers(log: seq<Entry>, cap: nat, force: bool, key: seq<Byte>, v: Value, k: seq<Byte>)
    requires WellFormed(log) && Legal(key, v)
    ensures var r := Set(log, cap, force, key, v);
            WellFormed(r.log) && (k != key ==> Lookup(r.log, k) == Lookup(log, k))
  {
    if v.data == [] {
      if ValueIndex(log, key) < |log| {
        KillLookup(log, key, k);
        KillWellFormed(log, ValueIndex(log, key));
      }
    } else {
      SetCases(log, cap, force, key, v);
      CompactedKeepsOthers(log, key, k);
      if IdsLeft(log, key) { CompactAndPutLookup(log, key, v, k); }
      if !OutOfIds(log, key) { PutAndKillLookup(log, key, v, k); }
    }
  }

  lemma IdsSuffice(log: seq<Entry>, cap: nat, force: bool, key: seq<Byte>, len: nat)
    requires WellFormed(log) && Judge(log, cap, force, key, len) == Compacts
    ensures IdsLeft(log, key)
  {
    CompactionFreesIds(log);
    ItemsFacts(log, |log|);
    var items := Items(log, |log|);
    CompactedFacts(items, |items|, -1);
    if !HasKey(log, key) && !OutOfIds(log, key) { CompactionFreesIdsWhenFewer(log); }
  }

  lemma CompactionFreesIdsWhenFewer(log: seq<Entry>)
    requires WellFormed(log) && LastKeyId(log, |log|) < MAX_KEY_ID
    ensures |Items(log, |log|)| < MAX_KEY_ID
  {
    ItemsFacts(log, |log|);
    ItemsOrigin(log, |log|);
    LastKeyIdBounds(log, |log|);
    var items := Items(log, |log|);
    if |items| > 0 {
      assert FromKey(log, |log|, items[|items| - 1]);
      assert |items| - 1 < items[|items| - 1].id;
    }
  }

  /** A set that reports success does what was asked if and only if `WillTakeEffect`. */
  lemma SetTakesEffect(log: seq<Entry>, cap: nat, force: bool, key: seq<Byte>, v: Value)
    requires WellFormed(log) && Legal(key, v) && v.data != []
    requires Set(log, cap, force, key, v).status == Ok
    ensures Lookup(Set(log, cap, force, key, v).log, key) == Some(v) <==> WillTakeEffect(log, cap, force, key, v)
  {
    var r := Set(log, cap, force, key, v);
    JudgeFacts(log, cap, force, key, |v.data|);
    if Lookup(log, key) != Some(v) { CompactsIfGuarded(log, cap, force, key, v); }
    if r.compacted {
      CompactAndPutLookup(log, key, v, key);
    } else if Lookup(log, key) != Some(v) {
      PutAndKillLookup(log, key, v, key);
    }
  }

  /** Setting an empty value removes the key if and only if no second live value is
      hiding behind the current one, and reports whether there was anything to remove. */
  lemma UnsetTakesEffect(log: seq<Entry>, cap: nat, force: bool, key: seq<Byte>, v: Value)
    requires WellFormed(log) && Legal(key, v) && v.data == []
    ensures var r := Set(log, cap, force, key, v);
            && r.status == (if Lookup(log, key).Some? then Ok else NotFound)
            && Lookup(r.log, key) == SecondValue(log, key)
  {
    if ValueIndex(log, key) < |log| { KillLookup(log, key, key); }
  }

  /** A set that reports a full region leaves the key's value alone if and only if the scan
      counted no more keys than values: otherwise it has compacted on speculation, and the
      value is gone.  That happens only when the space counted as compactable would not
      have been enough. */
  lemma FullLosesOnlySpeculatively(log: seq<Entry>, cap: nat, force: bool, key: seq<Byte>, v: Value)
    requires WellFormed(log) && Legal(key, v) && Set(log, cap, force, key, v).status == ErrFull
    ensures var r := Set(log, cap, force, key, v);
            && Lookup(r.log, key) == (if Balance(log, |log|) > 0 then None else Lookup(log, key))
            && (Lookup(log, key).Some? && Balance(log, |log|) > 0 ==>
                  Needed(log, key, |v.data|) + Offset(log, |log|) > cap + Reclaimable(log, key))
  {
    FullOutcome(log, cap, force, key, v);
    FullAfterCompaction(log, key);
    if Lookup(log, key).Some? { FullVerdicts(log, cap, force, key, |v.data|); }
  }

  lemma FullOutcome(log: seq<Entry>, cap: nat, force: bool, key: seq<Byte>, v: Value)
    requires Set(log, cap, force, key, v).status == ErrFull
    ensures var r := Judge(log, cap, force, key, |v.data|); var log' := Set(log, cap, force, key, v).log;
            (r == Full && log' == log) || (r == FullAnyway && log' == CompactedLog(log, Target(log, key)))
  {
  }

  lemma FullVerdicts(log: seq<Entry>, cap: nat, force: bool, key: seq<Byte>, len: nat)
    requires WellFormed(log) && Lookup(log, key).Some?
    ensures var r := Judge(log, cap, force, key, len);
            && (r == Full ==> Balance(log, |log|) <= 0)
            && (r == FullAnyway ==> Balance(log, |log|) > 0 && Needed(log, key, len) + Offset(log, |log|) > cap + Reclaimable(log, key))
  {
    FullAfterCompaction(log, key);
    KeyIdBounds(log, key);
    CompactionFits(log, Target(log, key), ValueIndex(log, key));
  }

  lemma FullAfterCompaction(log: seq<Entry>, key: seq<Byte>)
    requires WellFormed(log)
    ensures Lookup(CompactedLog(log, Target(log, key)), key) == None
    ensures Lookup(log, key).Some? ==>
              var j := ValueIndex(log, key); log[j].IsValue() && log[j].Id() == Target(log, key)
  {
    KeyIdBounds(log, key);
    CompactionMeaning(log, Target(log, key), key);
  }

  /** A successful set fits the region. */
  lemma SetFits(log: seq<Entry>, cap: nat, force: bool, key: seq<Byte>, v: Value)
    requires WellFormed(log) && Legal(key, v) && Offset(log, |log|) <= cap
    ensures var log' := Set(log, cap, force, key, v).log; Offset(log', |log'|) <= cap
  {
    if v.data == [] {
      var j := ValueIndex(log, key);
      if j < |log| { OffsetPrefix(Kill(log, j), log, |log|); }
    } else {
      SetCases(log, cap, force, key, v);
      CompactionFits(log, Target(log, key), |log|);
      CompactAndPutSize(log, key, v);
      PutAndKillSize(log, key, v);
    }
  }

  lemma CompactAndPutSize(log: seq<Entry>, key: seq<Byte>, v: Value)
    requires WellFormed(log)
    ensures var log', log1 := CompactAndPut(log, key, v), CompactedLog(log, Target(log, key));
            Offset(log', |log'|) == Offset(log1, |log1|) + Needed(log, key, |v.data|)
  {
    var t := Target(log, key);
    RenumberedSign(log, key);
    PutSize(CompactedLog(log, t), RenumberedId(log, t), key, v);
  }

  lemma RenumberedSign(log: seq<Entry>, key: seq<Byte>)
    requires WellFormed(log)
    ensures HasKey(log, key) <==> RenumberedId(log, Target(log, key)) >= 0
    ensures HasKey(log, key) ==> 1 <= RenumberedId(log, Target(log, key)) <= MAX_KEY_ID
    ensures RenumberedId(log, Target(log, key)) >= -1
  {
    KeyIdBounds(log, key);
    if !HasKey(log, key) {
      NewIdAbsentMinusOne(log);
    } else if Lookup(log, key).Some? {
      CompactionNewId(log, key);
    } else {
      CompactionForgetsOrphan(log, key);
    }
  }

  lemma PutAndKillSize(log: seq<Entry>, key: seq<Byte>, v: Value)
    requires WellFormed(log)
    ensures var log' := PutAndKill(log, key, v);
            Offset(log', |log'|) == Offset(log, |log|) + Needed(log, key, |v.data|)
  {
    var log1, j := Put(log, Target(log, key), key, v), ValueIndex(log, key);
    KeyIdBounds(log, key);
    PutSize(log, Target(log, key), key, v);
    if j < |log| { OffsetPrefix(Kill(log1, j), log1, |log1|); }
  }

  // ----- power cuts -----

  /** `l` is what a power cut during the set can leave to be recovered. */
  ghost predicate CutOf(l: seq<Entry>, log: seq<Entry>, cap: nat, force: bool, key: seq<Byte>, v: Value)
  {
    var r, t := Set(log, cap, force, key, v), Target(log, key);
    || l == log || l == r.log
    || (r.compacted && l == CompactedLog(log, t))
    || (v.data != [] && Lookup(log, key) != Some(v)
        && match Judge(log, cap, force, key, |v.data|)
           case Compacts => Midway(l, CompactedLog(log, t), RenumberedId(log, t), key, v)
           case Fits => Midway(l, log, t, key, v)
           case _ => false)
  }

  lemma CutBeforeReplacing(log: seq<Entry>, cap: nat, force: bool, key: seq<Byte>, v: Value)
    ensures CutOf(log, log, cap, force, key, v)
    ensures Set(log, cap, force, key, v).compacted ==>
              CutOf(CompactedLog(log, Target(log, key)), log, cap, force, key, v)
  {
  }

  lemma CutWhileReplacing(l: seq<Entry>, log: seq<Entry>, cap: nat, force: bool, key: seq<Byte>, v: Value,
                          base: seq<Entry>, id: int)
    requires WellFormed(log) && MeantFor(base, id, key) && Midway(l, base, id, key, v)
    requires v.data != [] && Lookup(log, key) != Some(v)
    requires var r, t := Judge(log, cap, force, key, |v.data|), Target(log, key);
             || (r == Compacts && base == CompactedLog(log, t) && id == RenumberedId(log, t))
             || (r == Fits && base == log && id == t)
    ensures CutOf(l, log, cap, force, key, v)
  {
    KeyIdBounds(log, key);
    RenumberedSign(log, key);
  }

  lemma CommittedLog(log: seq<Entry>, cap: nat, force: bool, key: seq<Byte>, v: Value,
                     base: seq<Entry>, id: int, log': seq<Entry>)
    requires v.data != [] && Lookup(log, key) != Some(v)
    requires var r, t, j := Judge(log, cap, force, key, |v.data|), Target(log, key), ValueIndex(log, key);
             || (r == Compacts && base == CompactedLog(log, t) && id == RenumberedId(log, t)
                 && log' == Put(base, id, key, v))
             || (r == Fits && base == log && id == t
                 && log' == if j < |log| then Kill(Put(base, id, key, v), j) else Put(base, id, key, v))
    ensures log' == Judged(log, Judge(log, cap, force, key, |v.data|), key, v)
    ensures CutOf(log', log, cap, force, key, v)
  {
  }

  /** Whatever a power cut leaves is well formed, and no other key has changed. */
  lemma CutKeepsOthers(l: seq<Entry>, log: seq<Entry>, cap: nat, force: bool, key: seq<Byte>, v: Value, k: seq<Byte>)
    requires WellFormed(log) && Legal(key, v) && CutOf(l, log, cap, force, key, v)
    ensures WellFormed(l)
    ensures k != key ==> Lookup(l, k) == Lookup(log, k)
  {
    var t := Target(log, key);
    SetKeepsOthers(log, cap, force, key, v, k);
    CompactedKeepsOthers(log, key, k);
    JudgeFacts(log, cap, force, key, |v.data|);
    if IdsLeft(log, key) && Midway(l, CompactedLog(log, t), RenumberedId(log, t), key, v) {
      RenumberedMeant(log, key);
      MidwayLookup(l, CompactedLog(log, t), RenumberedId(log, t), key, v, k);
    }
    if !OutOfIds(log, key) && Midway(l, log, t, key, v) {
      TargetMeant(log, key);
      MidwayLookup(l, log, t, key, v, k);
    }
  }

  /** A power cut in a set that does not compact leaves the key with its old or its
      new value, provided no second live value was hiding behind the old one. */
  lemma CutIsAtomic(l: seq<Entry>, log: seq<Entry>, cap: nat, force: bool, key: seq<Byte>, v: Value)
    requires WellFormed(log) && Legal(key, v) && CutOf(l, log, cap, force, key, v)
    requires !Set(log, cap, force, key, v).compacted && SecondValue(log, key).None?
    ensures Lookup(l, key) == Lookup(log, key) || Lookup(l, key) == Lookup(Set(log, cap, force, key, v).log, key)
  {
    var t, r := Target(log, key), Judge(log, cap, force, key, |v.data|);
    if v.data != [] && Lookup(log, key) != Some(v) && r == Fits && Midway(l, log, t, key, v) {
      JudgeFacts(log, cap, force, key, |v.data|);
      TargetMeant(log, key);
      MidwayLookup(l, log, t, key, v, key);
      PutLookup(log, t, key, v, key);
      PutAndKillLookup(log, key, v, key);
    }
  }

  /** A power cut in a set that compacts leaves the key with its old value, with none,
      or with what the finished set gives it. */
  lemma CutWhileCompacting(l: seq<Entry>, log: seq<Entry>, cap: nat, force: bool, key: seq<Byte>, v: Value)
    requires WellFormed(log) && Legal(key, v) && CutOf(l, log, cap, force, key, v)
    requires Set(log, cap, force, key, v).compacted
    ensures || Lookup(l, key) == Lookup(log, key) || Lookup(l, key) == None
            || Lookup(l, key) == Lookup(Set(log, cap, force, key, v).log, key)
  {
    var t := Target(log, key);
    FullAfterCompaction(log, key);
    JudgeFacts(log, cap, force, key, |v.data|);
    if IdsLeft(log, key) && Midway(l, CompactedLog(log, t), RenumberedId(log, t), key, v) {
      RenumberedMeant(log, key);
      CompactionMeaning(log, t, key);
      MidwayLookup(l, CompactedLog(log, t), RenumberedId(log, t), key, v, key);
    }
  }
}
