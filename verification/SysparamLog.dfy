/**
 The log that a sysparam region holds, as a sequence of entries, and what the log
 means.  A key entry carries an id; its value is the first live value entry with
 that id that comes after it.  Entries are never moved: a value is replaced by
 appending a new one and clearing the old one's ALIVE bit.
 */
module SysparamLog {
  import opened Flash
  import opened Options

  const MAX_LEN := 0xffff
  const MAX_KEY_ID := 0xffe
  const ENTRY_ID_END := 0xfff
  const ENTRY_ID_ANY := 0x1000

  datatype Value = Value(data: seq<Byte>, binary: bool)

  function EntrySize(len: nat): (r: nat) { 4 + RoundUp(len) }

  /** The flags and the id in an entry's header. */
  datatype Tag = Tag(alive: bool, invalid: bool, isValue: bool, binary: bool, id: nat)

  datatype Entry = Entry(tag: Tag, payload: seq<Byte>) {
    predicate Live() { tag.alive && !tag.invalid }
    predicate IsKey() { Live() && !tag.isValue }
    predicate IsValue() { Live() && tag.isValue }
    function Id(): nat { tag.id }
    function Size(): nat { EntrySize(|payload|) }
    function Content(): Value { Value(payload, tag.binary) }
    predicate InFormat() { tag.id <= MAX_KEY_ID && |payload| <= MAX_LEN }
    function Killed(): Entry { Entry(tag.(alive := false), payload) }
  }

  function KeyTag(id: nat): (t: Tag) { Tag(true, false, false, false, id) }
  function ValueTag(id: nat, binary: bool): (t: Tag) { Tag(true, false, true, binary, id) }
  function KeyEntry(id: nat, key: seq<Byte>): (e: Entry) { Entry(KeyTag(id), key) }
  function ValueEntry(id: nat, v: Value): (e: Entry) { Entry(ValueTag(id, v.binary), v.data) }

  // ----- scanning -----

  predicate Matches(e: Entry, id: nat, wantValue: bool)
  {
    (if wantValue then e.IsValue() else e.IsKey()) && (e.Id() == id || id == ENTRY_ID_ANY)
  }

  /** Index of the first entry from `i` on that matches, or |log|. */
  function FindFrom(log: seq<Entry>, i: nat, id: nat, wantValue: bool): (j: nat)
    requires i <= |log|
    ensures i <= j <= |log|
    ensures j < |log| ==> Matches(log[j], id, wantValue)
    ensures forall k :: i <= k < j ==> !Matches(log[k], id, wantValue)
    decreases |log| - i
  {
    if i == |log| || Matches(log[i], id, wantValue) then i else FindFrom(log, i + 1, id, wantValue)
  }

  predicate IsKeyNamed(e: Entry, key: seq<Byte>) { e.IsKey() && e.payload == key }

  /** Index of the first live key entry named `key` from `i` on, or |log|. */
  function KeyFrom(log: seq<Entry>, i: nat, key: seq<Byte>): (j: nat)
    requires i <= |log|
    ensures i <= j <= |log|
    ensures j < |log| ==> IsKeyNamed(log[j], key)
    ensures forall k :: i <= k < j ==> !IsKeyNamed(log[k], key)
    decreases |log| - i
  {
    if i == |log| || IsKeyNamed(log[i], key) then i else KeyFrom(log, i + 1, key)
  }

  predicate HasKey(log: seq<Entry>, key: seq<Byte>) { KeyFrom(log, 0, key) < |log| }

  function ContentAt(log: seq<Entry>, j: nat): (v: Option<Value>)
  {
    if j < |log| then Some(log[j].Content()) else None
  }

  /** Index of the value entry that `key` reads from, or |log|. */
  function ValueIndex(log: seq<Entry>, key: seq<Byte>): (j: nat)
    ensures j <= |log|
  {
    var i := KeyFrom(log, 0, key);
    if i == |log| then i else FindFrom(log, i + 1, log[i].Id(), true)
  }

  /** What a reader of the log gets for `key`. */
  function Lookup(log: seq<Entry>, key: seq<Byte>): (v: Option<Value>)
  {
    ContentAt(log, ValueIndex(log, key))
  }

  /** The value that would show through if the one `key` reads were deleted. */
  function SecondValue(log: seq<Entry>, key: seq<Byte>): (v: Option<Value>)
  {
    var j := ValueIndex(log, key);
    if j == |log| then None else ContentAt(log, FindFrom(log, j + 1, log[j].Id(), true))
  }

  // ----- running totals kept by a scan -----

  function Offset(log: seq<Entry>, n: nat): (r: nat)
    requires n <= |log|
  {
    if n == 0 then 0 else Offset(log, n - 1) + log[n - 1].Size()
  }

  function DeadSize(log: seq<Entry>, n: nat): (r: nat)
    requires n <= |log|
  {
    if n == 0 then 0 else DeadSize(log, n - 1) + if log[n - 1].Live() then 0 else log[n - 1].Size()
  }

  function Balance(log: seq<Entry>, n: nat): (r: int)
    requires n <= |log|
  {
    if n == 0 then 0
    else Balance(log, n - 1) + if log[n - 1].IsKey() then 1 else if log[n - 1].IsValue() then -1 else 0
  }

  function LastKeyId(log: seq<Entry>, n: nat): (r: nat)
    requires n <= |log|
  {
    if n == 0 then 0 else if log[n - 1].IsKey() then log[n - 1].Id() else LastKeyId(log, n - 1)
  }

  lemma {:induction false} OffsetAligned(log: seq<Entry>, n: nat)
    requires n <= |log|
    ensures Offset(log, n) % 4 == 0
  {
    if n > 0 {
      OffsetAligned(log, n - 1);
      RoundUpAligned(|log[n - 1].payload|);
    }
  }

  lemma {:induction false} OffsetPrefix(a: seq<Entry>, b: seq<Entry>, n: nat)
    requires n <= |a| && n <= |b|
    requires forall i :: 0 <= i < n ==> |a[i].payload| == |b[i].payload|
    ensures Offset(a, n) == Offset(b, n)
  {
    if n > 0 { OffsetPrefix(a, b, n - 1); }
  }

  lemma {:induction false} OffsetMonotone(log: seq<Entry>, m: nat, n: nat)
    requires m <= n <= |log|
    ensures Offset(log, m) <= Offset(log, n)
    ensures m < n ==> Offset(log, m) + log[m].Size() <= Offset(log, n)
    decreases n
  {
    if m < n { OffsetMonotone(log, m, n - 1); }
  }

  // ----- the invariant -----

  predicate KeyOk(e: Entry)
  {
    e.IsKey() ==> 1 <= e.Id() <= MAX_KEY_ID && 1 <= |e.payload|
  }

  /** Every log this code can leave, power cuts included: live keys have distinct
      names and ids that strictly increase along the log. */
  ghost predicate WellFormed(log: seq<Entry>)
  {
    && (forall i :: 0 <= i < |log| ==> log[i].InFormat() && KeyOk(log[i]))
    && (forall i, j :: 0 <= i < j < |log| && log[i].IsKey() && log[j].IsKey() ==>
          log[i].Id() < log[j].Id() && log[i].payload != log[j].payload)
  }

  lemma {:induction false} LastKeyIdBounds(log: seq<Entry>, n: nat)
    requires WellFormed(log) && n <= |log|
    ensures forall i :: 0 <= i < n && log[i].IsKey() ==> log[i].Id() <= LastKeyId(log, n)
    ensures LastKeyId(log, n) <= MAX_KEY_ID
  {
    if n > 0 { LastKeyIdBounds(log, n - 1); }
  }

  /** With unique names, the first entry named `key` is the only one. */
  lemma KeyFromUnique(log: seq<Entry>, i: nat)
    requires WellFormed(log) && i < |log| && log[i].IsKey()
    ensures KeyFrom(log, 0, log[i].payload) == i
  {
    var j := KeyFrom(log, 0, log[i].payload);
    assert IsKeyNamed(log[i], log[i].payload);
    assert IsKeyNamed(log[j], log[i].payload);
  }

  // ----- appending -----

  lemma AppendFind(log: seq<Entry>, e: Entry, i: nat, id: nat, wantValue: bool)
    requires i <= |log|
    ensures FindFrom(log + [e], i, id, wantValue) ==
            var j := FindFrom(log, i, id, wantValue);
            if j < |log| then j else if Matches(e, id, wantValue) then |log| else |log| + 1
  {
    var j, j' := FindFrom(log, i, id, wantValue), FindFrom(log + [e], i, id, wantValue);
    assert forall k :: 0 <= k < |log| ==> (log + [e])[k] == log[k];
    if j < |log| {
      assert Matches((log + [e])[j], id, wantValue);
    } else {
      assert j' >= |log|;
      assert (log + [e])[|log|] == e;
    }
  }

  lemma AppendKey(log: seq<Entry>, e: Entry, key: seq<Byte>)
    ensures KeyFrom(log + [e], 0, key) ==
            if HasKey(log, key) then KeyFrom(log, 0, key)
            else if IsKeyNamed(e, key) then |log| else |log| + 1
  {
    var j, j' := KeyFrom(log, 0, key), KeyFrom(log + [e], 0, key);
    assert forall k :: 0 <= k < |log| ==> (log + [e])[k] == log[k];
    if j < |log| {
      assert IsKeyNamed((log + [e])[j], key);
    } else {
      assert j' >= |log|;
      assert (log + [e])[|log|] == e;
    }
  }

  /** An appended entry changes what `key` reads only if it is a live value with
      that key's id and the key had no value yet. */
  lemma AppendLookup(log: seq<Entry>, e: Entry, key: seq<Byte>)
    ensures Lookup(log + [e], key) ==
            if HasKey(log, key) && Lookup(log, key).None?
               && Matches(e, log[KeyFrom(log, 0, key)].Id(), true)
            then Some(e.Content()) else Lookup(log, key)
  {
    AppendKey(log, e, key);
    if HasKey(log, key) {
      var i := KeyFrom(log, 0, key);
      AppendFind(log, e, i + 1, log[i].Id(), true);
    } else if IsKeyNamed(e, key) {
      assert FindFrom(log + [e], |log| + 1, e.Id(), true) == |log| + 1;
    }
  }

  lemma AppendWellFormed(log: seq<Entry>, e: Entry)
    requires WellFormed(log) && e.InFormat()
    requires e.IsKey() ==> LastKeyId(log, |log|) < e.Id() <= MAX_KEY_ID && 1 <= |e.payload|
    requires e.IsKey() ==> !HasKey(log, e.payload)
    ensures WellFormed(log + [e])
  {
    LastKeyIdBounds(log, |log|);
    if e.IsKey() {
      forall i | 0 <= i < |log| && log[i].IsKey()
        ensures log[i].Id() < e.Id() && log[i].payload != e.payload
      {
        assert !IsKeyNamed(log[i], e.payload);
      }
    }
  }

  lemma {:induction false} TotalsOfPrefix(log: seq<Entry>, e: Entry, n: nat)
    requires n <= |log|
    ensures Offset(log + [e], n) == Offset(log, n)
    ensures LastKeyId(log + [e], n) == LastKeyId(log, n)
  {
    if n > 0 { TotalsOfPrefix(log, e, n - 1); }
  }

  /** The id under which `key` is stored; 0 (never a live key's id) if it is not. */
  function KeyId(log: seq<Entry>, key: seq<Byte>): (id: nat)
  {
    if HasKey(log, key) then log[KeyFrom(log, 0, key)].Id() else 0
  }

  lemma KeyIdBounds(log: seq<Entry>, key: seq<Byte>)
    requires WellFormed(log)
    ensures KeyId(log, key) <= LastKeyId(log, |log|) <= MAX_KEY_ID
    ensures HasKey(log, key) <==> KeyId(log, key) > 0
  {
    LastKeyIdBounds(log, |log|);
    if HasKey(log, key) { assert KeyOk(log[KeyFrom(log, 0, key)]); }
  }

  lemma KeyIdsDiffer(log: seq<Entry>, key: seq<Byte>, k: seq<Byte>)
    requires WellFormed(log) && HasKey(log, key) && k != key
    ensures KeyId(log, k) != KeyId(log, key)
  {
    KeyIdBounds(log, k);
    KeyIdBounds(log, key);
    var i, j := KeyFrom(log, 0, key), KeyFrom(log, 0, k);
    if HasKey(log, k) { assert i < j || j < i; }
  }

  /** Adding a new key under a fresh id: the key is there, with no value yet. */
  lemma AppendNewKey(log: seq<Entry>, id: nat, name: seq<Byte>, k: seq<Byte>)
    requires WellFormed(log) && LastKeyId(log, |log|) < id <= MAX_KEY_ID
    requires 1 <= |name| <= MAX_LEN && !HasKey(log, name)
    ensures var log' := log + [KeyEntry(id, name)];
            && WellFormed(log') && LastKeyId(log', |log'|) == id
            && Lookup(log', k) == Lookup(log, k)
            && KeyId(log', k) == if k == name then id else KeyId(log, k)
  {
    var e := KeyEntry(id, name);
    AppendWellFormed(log, e);
    AppendLookup(log, e, k);
    AppendKey(log, e, k);
  }

  /** Adding an entry that is not a live key. */
  lemma AppendOther(log: seq<Entry>, e: Entry, k: seq<Byte>)
    requires WellFormed(log) && e.InFormat() && !e.IsKey()
    ensures var log' := log + [e];
            && WellFormed(log') && LastKeyId(log', |log'|) == LastKeyId(log, |log|)
            && KeyId(log', k) == KeyId(log, k)
            && Lookup(log', k) == if HasKey(log, k) && Lookup(log, k).None? && Matches(e, KeyId(log, k), true)
                                  then Some(e.Content()) else Lookup(log, k)
  {
    AppendWellFormed(log, e);
    AppendLookup(log, e, k);
    AppendKey(log, e, k);
    TotalsOfPrefix(log, e, |log|);
  }

  // ----- deleting -----

  function Kill(log: seq<Entry>, j: nat): (r: seq<Entry>)
    requires j < |log|
  {
    log[j := log[j].Killed()]
  }

  lemma KilledIsDead(e: Entry)
    ensures !e.Killed().Live()
    ensures e.InFormat() ==> e.Killed().InFormat()
  {
  }

  lemma KillFind(log: seq<Entry>, j: nat, i: nat, id: nat)
    requires j < |log| && i <= |log|
    ensures var f := FindFrom(log, i, id, true);
            FindFrom(Kill(log, j), i, id, true) == if f == j then FindFrom(log, j + 1, id, true) else f
  {
    KilledIsDead(log[j]);
    var log' := Kill(log, j);
    var f, f' := FindFrom(log, i, id, true), FindFrom(log', i, id, true);
    assert forall k :: 0 <= k < |log| && k != j ==> log'[k] == log[k];
    if f == j && j < |log| {
      var g := FindFrom(log, j + 1, id, true);
      assert forall k :: i <= k < g ==> !Matches(log'[k], id, true);
      if g < |log| { assert Matches(log'[g], id, true); }
    } else if f < |log| {
      assert Matches(log'[f], id, true);
      assert forall k :: i <= k < f ==> !Matches(log'[k], id, true);
    } else {
      assert forall k :: i <= k < |log| ==> !Matches(log'[k], id, true);
    }
  }

  lemma KillKey(log: seq<Entry>, j: nat, key: seq<Byte>)
    requires j < |log| && log[j].IsValue()
    ensures KeyFrom(Kill(log, j), 0, key) == KeyFrom(log, 0, key)
  {
    KilledIsDead(log[j]);
    var log' := Kill(log, j);
    var f, f' := KeyFrom(log, 0, key), KeyFrom(log', 0, key);
    assert forall k :: 0 <= k < |log| && k != j ==> log'[k] == log[k];
    assert forall k :: 0 <= k < |log| ==> IsKeyNamed(log'[k], key) == IsKeyNamed(log[k], key);
  }

  /** Deleting the value of `key` lets its second value show through, and changes
      nothing for any other key. */
  lemma KillLookup(log: seq<Entry>, key: seq<Byte>, k: seq<Byte>)
    requires WellFormed(log) && ValueIndex(log, key) < |log|
    ensures Lookup(Kill(log, ValueIndex(log, key)), k) == if k == key then SecondValue(log, key) else Lookup(log, k)
  {
    if k == key { KillOwnLookup(log, key); } else { KillOtherLookup(log, key, k); }
  }

  lemma KillOwnLookup(log: seq<Entry>, key: seq<Byte>)
    requires WellFormed(log) && ValueIndex(log, key) < |log|
    ensures Lookup(Kill(log, ValueIndex(log, key)), key) == SecondValue(log, key)
  {
    var j, m := ValueIndex(log, key), KeyFrom(log, 0, key);
    KillKey(log, j, key);
    KillFind(log, j, m + 1, log[m].Id());
    assert KeyOk(log[m]);
    KillContent(log, j, FindFrom(log, j + 1, log[m].Id(), true));
  }

  lemma KillContent(log: seq<Entry>, j: nat, f: nat)
    requires j < |log| && f != j
    ensures ContentAt(Kill(log, j), f) == ContentAt(log, f)
  {
  }

  lemma KillOtherLookup(log: seq<Entry>, key: seq<Byte>, k: seq<Byte>)
    requires WellFormed(log) && ValueIndex(log, key) < |log| && k != key
    ensures Lookup(Kill(log, ValueIndex(log, key)), k) == Lookup(log, k)
  {
    var j, m := ValueIndex(log, key), KeyFrom(log, 0, k);
    KillKey(log, j, k);
    if m < |log| {
      KillFind(log, j, m + 1, log[m].Id());
      OtherValue(log, key, k);
      KillContent(log, j, FindFrom(log, m + 1, log[m].Id(), true));
    }
  }

  /** Two keys do not read the same value. */
  lemma OtherValue(log: seq<Entry>, key: seq<Byte>, k: seq<Byte>)
    requires WellFormed(log) && ValueIndex(log, key) < |log| && HasKey(log, k) && k != key
    ensures FindFrom(log, KeyFrom(log, 0, k) + 1, KeyId(log, k), true) != ValueIndex(log, key)
  {
    KeyIdsDiffer(log, key, k);
    KeyIdBounds(log, k);
    KeyIdBounds(log, key);
  }

  lemma KillWellFormed(log: seq<Entry>, j: nat)
    requires WellFormed(log) && j < |log|
    ensures WellFormed(Kill(log, j))
  {
    KilledIsDead(log[j]);
    var log' := Kill(log, j);
    forall i | 0 <= i < |log'| ensures log'[i].InFormat() && KeyOk(log'[i]) && (log'[i].IsKey() ==> log'[i] == log[i]) {
      assert log[i].InFormat() && KeyOk(log[i]);
    }
  }
}
